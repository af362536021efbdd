/** The hub's frame recognisers for RTCM 3, UBX and NMEA. The buffered scanner is proved
    against them in module Scanning. */
module Framing {
  import opened BitSeq
  import opened Crc24
  import opened Streams

  const MAX_RTCM: nat := 1023 + 6
  const MAX_UBX: nat := 8 + 65535
  const MAX_NMEA: nat := 128
  const MAX_FRAME: nat := MAX_UBX

  // ---- RTCM 3

  function RtcmTotal(w: seq<Byte>): (n: nat)
    requires |w| >= 3
    ensures 6 <= n <= MAX_RTCM
  {
    (w[1] as nat % 4) * 256 + w[2] as nat + 6
  }

  function TryRtcm3(w: seq<Byte>): (v: Verdict)
    ensures v.Accept? ==> 6 <= |v.frame.raw| <= MAX_RTCM && v.frame.raw <= w
    ensures v.Need? ==> |w| < MAX_RTCM
  {
    if |w| < 3 then Need
    else if w[1] / 4 != 0 then Reject
    else
      var total := RtcmTotal(w);
      if |w| < total then (if total > MAX_RTCM then Reject else Need)
      else if Crc(w[..total - 3]) != DataBits(w[total - 3..total]) then Reject
      else Accept(Frame(RTCM3, RtcmType(w[..total]), w[..total]))
  }

  /** The message number: the first 12 payload bits. */
  function RtcmType(raw: seq<Byte>): nat
    requires |raw| >= 6
  {
    if |raw| >= 8 then raw[3] as nat * 16 + raw[4] as nat / 16 else 0
  }

  // ---- UBX

  /** The 8-bit Fletcher checksum of UBX. */
  function Fletcher(d: seq<Byte>): (Byte, Byte) {
    if d == [] then (0, 0) else
      var (a, b) := Fletcher(d[..|d| - 1]);
      var a' := (a as nat + d[|d| - 1]) % 256;
      (a', (b as nat + a') % 256)
  }

  function ByteSum(d: seq<Byte>, k: nat): nat
    requires k <= |d|
  {
    if k == 0 then 0 else ByteSum(d, k - 1) + d[k - 1]
  }

  /** The first `k` bytes, each counted as often as bytes of `d` remain from it on. */
  function WeightedSum(d: seq<Byte>, k: nat): nat
    requires k <= |d|
  {
    if k == 0 then 0 else WeightedSum(d, k - 1) + (|d| - (k - 1)) * d[k - 1]
  }

  /** The two sums in closed form, modulo 256. */
  lemma {:induction false} FletcherSums(d: seq<Byte>)
    ensures Fletcher(d) == (ByteSum(d, |d|) % 256, WeightedSum(d, |d|) % 256)
  {
    if d != [] {
      hide ByteSum, WeightedSum, Fletcher;
      var n := |d| - 1;
      FletcherSums(d[..n]);
      SumsPrefix(d, n, n);
      SumsLast(d, n);
      FletcherLast(d, n, ByteSum(d, n), WeightedSum(d[..n], n));
    }
  }

  lemma SumsLast(d: seq<Byte>, n: nat)
    requires |d| == n + 1
    ensures ByteSum(d, n + 1) == ByteSum(d, n) + d[n] && WeightedSum(d, n + 1) == WeightedSum(d, n) + d[n]
  {
  }

  lemma FletcherLast(d: seq<Byte>, n: nat, s: nat, w: nat)
    requires |d| == n + 1 && Fletcher(d[..n]) == (s % 256, w % 256)
    ensures Fletcher(d) == ((s + d[n]) % 256, (w + s + d[n]) % 256)
  {
    ModSums(s, w, d[n], s % 256, w % 256);
  }

  /** A byte more at the end counts every earlier byte once more. */
  lemma {:induction false} SumsPrefix(d: seq<Byte>, n: nat, k: nat)
    requires k <= n < |d| && n == |d| - 1
    ensures ByteSum(d[..n], k) == ByteSum(d, k)
    ensures WeightedSum(d, k) == WeightedSum(d[..n], k) + ByteSum(d, k)
    decreases k
  {
    if k != 0 {
      SumsPrefix(d, n, k - 1);
      OnceMore(n - (k - 1), d[k - 1]);
    }
  }

  lemma OnceMore(x: nat, y: nat)
    ensures (x + 1) * y == x * y + y
  {
  }

  lemma ModSums(s: nat, w: nat, x: nat, a: nat, b: nat)
    requires a == s % 256 && b == w % 256
    ensures (a + x) % 256 == (s + x) % 256 && (b + (a + x) % 256) % 256 == (w + s + x) % 256
  {
    var p, q, u := s / 256, w / 256, (a + x) / 256;
    assert s == 256 * p + a && w == 256 * q + b && a + x == 256 * u + (a + x) % 256;
  }

  /** A UBX window is accepted exactly when it is complete and its last two bytes are the sums of
      what lies between the sync bytes and them. */
  lemma UbxAcceptedSums(w: seq<Byte>)
    requires |w| >= 6 && w[1] == 0x62
    ensures var n := UbxTotal(w);
            TryUbx(w).Accept? <==>
            && n <= |w|
            && w[n - 2] == ByteSum(w[2..n - 2], n - 4) % 256
            && w[n - 1] == WeightedSum(w[2..n - 2], n - 4) % 256
  {
    if UbxTotal(w) <= |w| {
      FletcherSums(w[2..UbxTotal(w) - 2]);
    }
  }

  /** The checksum as the source computes it. */
  method ChecksumLoop(d: seq<Byte>) returns (a: Byte, b: Byte)
    ensures (a, b) == Fletcher(d)
    ensures a == ByteSum(d, |d|) % 256 && b == WeightedSum(d, |d|) % 256
  {
    FletcherSums(d);
    a, b := 0, 0;
    var i := 0;
    while i < |d|
      invariant 0 <= i <= |d|
      invariant (a, b) == Fletcher(d[..i])
    {
      assert d[..i + 1][..i] == d[..i];
      a := (a as nat + d[i]) % 256;
      b := (b as nat + a) % 256;
      i := i + 1;
    }
    assert d[..i] == d;
  }

  function UbxTotal(w: seq<Byte>): (n: nat)
    requires |w| >= 6
    ensures 8 <= n <= MAX_UBX
  {
    8 + w[4] as nat + 256 * w[5] as nat
  }

  function TryUbx(w: seq<Byte>): (v: Verdict)
    ensures v.Accept? ==> 8 <= |v.frame.raw| <= MAX_UBX && v.frame.raw <= w
    ensures v.Need? ==> |w| < MAX_UBX
  {
    if |w| < 2 then Need
    else if w[1] != 0x62 then Reject
    else if |w| < 6 then Need
    else
      var total := UbxTotal(w);
      if |w| < total then Need
      else if Fletcher(w[2..total - 2]) != (w[total - 2], w[total - 1]) then Reject
      else Accept(Frame(UBX, w[2] as nat * 256 + w[3] as nat, w[..total]))
  }

  // ---- NMEA

  /** Looks for the line feed from offset `i` on. */
  function NmeaFrom(w: seq<Byte>, i: nat): (v: Verdict)
    ensures v.Accept? ==> i < |v.frame.raw| <= MAX_NMEA && v.frame.raw <= w && v.frame.proto == NMEA
    ensures v.Need? ==> |w| < MAX_NMEA
    decreases |w| - i
  {
    if i < |w| && i < MAX_NMEA then
      if w[i] == 10 then Accept(Frame(NMEA, 0, w[..i + 1]))
      else if w[i] == 36 then Reject
      else NmeaFrom(w, i + 1)
    else if |w| >= MAX_NMEA then Reject
    else Need
  }

  /** A line is a frame exactly when it ends, within 128 bytes, before another one begins. */
  lemma NmeaFrames(w: seq<Byte>)
    requires w != [] && w[0] == 36
    ensures Try(w).Accept? <==> exists i :: NmeaLine(w, i)
    ensures forall i :: NmeaLine(w, i) ==> Try(w) == Accept(Frame(NMEA, 0, w[..i + 1]))
    ensures Try(w).Need? <==> |w| < 128 && forall i :: 1 <= i < |w| ==> w[i] != 10 && w[i] != 36
  {
    NmeaScan(w, 1);
  }

  ghost predicate NmeaLine(w: seq<Byte>, i: nat) {
    1 <= i < |w| && i < 128 && w[i] == 10 && forall j :: 1 <= j < i ==> w[j] != 10 && w[j] != 36
  }

  lemma {:induction false} NmeaScan(w: seq<Byte>, at: nat)
    requires 1 <= at <= |w| && forall j :: 1 <= j < at ==> w[j] != 10 && w[j] != 36
    ensures NmeaFrom(w, at).Accept? <==> exists i :: NmeaLine(w, i)
    ensures forall i :: NmeaLine(w, i) ==> NmeaFrom(w, at) == Accept(Frame(NMEA, 0, w[..i + 1]))
    ensures NmeaFrom(w, at).Need? <==> |w| < 128 && forall i :: 1 <= i < |w| ==> w[i] != 10 && w[i] != 36
    decreases |w| - at
  {
    if at < |w| && at < 128 {
      if w[at] == 10 {
        assert NmeaLine(w, at);
      } else if w[at] != 36 {
        NmeaScan(w, at + 1);
      }
    }
  }

  predicate IsSync(b: Byte) {
    b == 0xD3 || b == 0xB5 || b == 36
  }

  /** One turn of the scan loop at the start of window `w`. */
  function Try(w: seq<Byte>): (v: Verdict)
    ensures v.Accept? ==> 0 < |v.frame.raw| <= MAX_FRAME && v.frame.raw <= w
    ensures v.Need? ==> |w| < MAX_FRAME
  {
    if w == [] then Need
    else if w[0] == 0xD3 then TryRtcm3(w)
    else if w[0] == 0xB5 then TryUbx(w)
    else if w[0] == 36 then NmeaFrom(w, 1)
    else Reject
  }

  const TRY: Recogniser := Try

  // ---- verdicts do not depend on bytes not yet seen

  lemma {:induction false} NmeaStable(w: seq<Byte>, x: seq<Byte>, i: nat)
    requires !NmeaFrom(w, i).Need?
    ensures NmeaFrom(w + x, i) == NmeaFrom(w, i)
    decreases |w| - i
  {
    if i < |w| && i < MAX_NMEA {
      assert (w + x)[..i + 1] == w[..i + 1];
      if w[i] != 10 && w[i] != 36 {
        NmeaStable(w, x, i + 1);
      }
    }
  }

  lemma RtcmStable(w: seq<Byte>, x: seq<Byte>)
    requires !TryRtcm3(w).Need?
    ensures TryRtcm3(w + x) == TryRtcm3(w)
  {
    var total := RtcmTotal(w);
    assert RtcmTotal(w + x) == total;
    if w[1] / 4 == 0 {
      assert (w + x)[..total - 3] == w[..total - 3];
      assert (w + x)[total - 3..total] == w[total - 3..total];
      assert (w + x)[..total] == w[..total];
    }
  }

  lemma UbxStable(w: seq<Byte>, x: seq<Byte>)
    requires !TryUbx(w).Need?
    ensures TryUbx(w + x) == TryUbx(w)
  {
    if w[1] == 0x62 {
      var total := UbxTotal(w);
      assert UbxTotal(w + x) == total;
      assert (w + x)[2..total - 2] == w[2..total - 2];
      assert (w + x)[..total] == w[..total];
    }
  }

  lemma TryStable()
    ensures Stable(TRY)
  {
    forall w, x | !Try(w).Need? ensures Try(w + x) == Try(w) {
      if w[0] == 0xD3 {
        RtcmStable(w, x);
      } else if w[0] == 0xB5 {
        UbxStable(w, x);
      } else if w[0] == 36 {
        NmeaStable(w, x, 1);
      }
    }
  }

  /** Deciding the first piece of a window is deciding the first piece of the stream. */
  lemma TryAdvance(w: seq<Byte>, x: seq<Byte>, h: seq<Piece>, p: Piece)
    requires !Try(w).Need?
    requires p == if Try(w).Accept? then Framed(Try(w).frame) else Dropped(w[0])
    ensures Bytes(p) <= w
    ensures h + Parse(TRY, w + x) == h + [p] + Parse(TRY, w[|Bytes(p)|..] + x)
    ensures Flatten(h) + (w + x) == Flatten(h + [p]) + (w[|Bytes(p)|..] + x)
    ensures Frames(h + [p]) == Frames(h) + (if Try(w).Accept? then [Try(w).frame] else [])
  {
    hide TryRtcm3, TryUbx, NmeaFrom, Parse, Stable, Flatten, Frames;
    TryStable();
    assert p == First(TRY, w);
    Advance(TRY, w, x, h);
  }

  // ---- corruption

  /** On a window of exactly the length its header announces, the recogniser accepts
      exactly when the checksum of the whole window is zero. */
  lemma RtcmAcceptsResidueZero(w: seq<Byte>)
    requires |w| >= 6 && w[1] / 4 == 0 && RtcmTotal(w) == |w|
    ensures TryRtcm3(w) == if Crc(w) == Zeros(24) then Accept(Frame(RTCM3, RtcmType(w), w)) else Reject
  {
    var m := |w| - 3;
    CrcResidue(w[..m], w[m..]);
    assert w[..m] + w[m..] == w && w[..|w|] == w && w[m..|w|] == w[m..];
  }

  /** An accepted RTCM frame altered by any burst of at most 24 bits inside its payload and
      checksum is rejected. */
  lemma BurstRejected(w: seq<Byte>, v: seq<Byte>, p: nat)
    requires TryRtcm3(w).Accept? && TryRtcm3(w).frame.raw == w
    requires v != w && p >= 24 && DifferWithin(DataBits(w), DataBits(v), p)
    ensures TryRtcm3(v) == Reject
  {
    HeaderKept(w, v, p);
    RtcmAcceptsResidueZero(w);
    RtcmAcceptsResidueZero(v);
    BurstChangesCrc(w, v, p);
  }

  lemma HeaderKept(w: seq<Byte>, v: seq<Byte>, p: nat)
    requires 6 <= |w|
    requires p >= 24 && DifferWithin(DataBits(w), DataBits(v), p)
    ensures |v| == |w| && v[0] == w[0] && v[1] == w[1] && v[2] == w[2]
  {
    assert |v| == |w|;
    DataBitsSlice(w, 0, 3);
    DataBitsSlice(v, 0, 3);
    assert DataBits(w[0..3]) == DataBits(v[0..3]);
    DataBitsInjective(w[0..3], v[0..3]);
    assert w[0..3][0] == w[0] && w[0..3][1] == w[1] && w[0..3][2] == w[2];
    assert v[0..3][0] == v[0] && v[0..3][1] == v[1] && v[0..3][2] == v[2];
  }
}
