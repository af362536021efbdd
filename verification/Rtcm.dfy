/** RTCM 3 messages as the base builds and patches them: the transport frame around a payload,
    and the one bit that is ever changed in a receiver's message. */
module Rtcm {
  import opened BitSeq
  import opened Crc24
  import opened CrcTable
  import opened Streams
  import opened Framing
  import opened BitPacking
  import opened Outcomes

  // ---- the transport frame

  function Header(len: nat): seq<Byte>
    requires len <= 1023
  {
    [0xD3, len / 256 % 4, len % 256]
  }

  /** The frame around a payload: header, payload and the checksum of both. */
  ghost predicate FrameOf(raw: seq<Byte>, payload: seq<Byte>) {
    && |payload| <= 1023
    && |raw| == |payload| + 6
    && raw[..|raw| - 3] == Header(|payload|) + payload
    && DataBits(raw[|raw| - 3..]) == Crc(Header(|payload|) + payload)
  }

  /** The first 12 bits of a payload of two bytes or more, and zero for a shorter one. */
  ghost function MessageNumber(payload: seq<Byte>): nat {
    if |payload| >= 2 then Value(DataBits(payload)[..12]) else 0
  }

  method Wrap(table: seq<nat>, payload: seq<Byte>) returns (r: Option<seq<Byte>>)
    requires IsTable(table)
    ensures r.None? <==> |payload| > 1023
    ensures r.Some? ==> FrameOf(r.value, payload)
    ensures r.Some? ==>
              var raw, n := r.value, |payload|;
              && |raw| == n + 6 && raw[3..n + 3] == payload
              && raw[0] == 0xD3 && raw[1] == n / 256 && raw[2] == n % 256
              && DataBits(raw[n + 3..]) == Crc(raw[..n + 3])
  {
    hide Crc, DataBits, Bits, IsTable;
    if |payload| > 1023 {
      return None;
    }
    var out := Header(|payload|) + payload;
    var c := Crc24q(table, out);
    var t: seq<Byte> := [c / 0x10000 % 256, c / 0x100 % 256, c % 256];
    CheckBytes(t, c, c);
    assert (out + t)[..|out|] == out && (out + t)[|out|..] == t;
    return Some(out + t);
  }

  /** What Wrap writes, the stream scanner accepts: alone, it is exactly one frame whose type is
      the payload's first 12 bits. */
  lemma FrameAccepted(raw: seq<Byte>, payload: seq<Byte>)
    requires FrameOf(raw, payload)
    ensures var f := Frame(RTCM3, MessageNumber(payload), raw);
            Try(raw) == Accept(f) && Parse(TRY, raw) == [Framed(f)] && Residue(TRY, raw) == []
  {
    hide Crc, DataBits, Bits, Value;
    var m := |payload|;
    assert raw[..m + 3][0] == raw[0] && raw[..m + 3][1] == raw[1] && raw[..m + 3][2] == raw[2];
    assert m / 256 % 4 == m / 256;
    assert RtcmTotal(raw) == |raw|;
    assert raw[|raw| - 3..|raw|] == raw[|raw| - 3..] && raw[..|raw|] == raw;
    if m >= 2 {
      assert raw[..m + 3][3] == raw[3] == payload[0] && raw[..m + 3][4] == raw[4] == payload[1];
      TwelveBits(payload);
    }
    OneFrame(raw, Frame(RTCM3, RtcmType(raw), raw));
  }

  lemma TwelveBits(p: seq<Byte>)
    requires |p| >= 2
    ensures Value(DataBits(p)[..12]) == p[0] as nat * 16 + p[1] as nat / 16
  {
    hide Bits, Value;
    var v := p[0] as nat * 16 + p[1] as nat / 16;
    DataBitsSlice(p, 0, 1);
    DataBitsSlice(p, 1, 2);
    assert p[0..1] == [p[0]] && p[1..2] == [p[1]];
    DataBitsOne(p[0]);
    DataBitsOne(p[1]);
    BitsSplit(p[1], 4, 4);
    Shr4(p[1]);
    assert DataBits(p)[..12] == DataBits(p)[0..8] + DataBits(p)[8..16][..4];
    Nibble(p[0], p[1] / 16);
  }

  lemma Nibble(a: Byte, b: nat)
    requires b < 16
    ensures Value(Bits(a, 8) + Bits(b, 4)) == a as nat * 16 + b
  {
    hide Bits, Value, Pow2;
    ValueConcat(Bits(a, 8), Bits(b, 4));
    ByteValue(a);
    ValueOfBits(b, 4);
    Pow2Values();
  }

  lemma OneFrame(raw: seq<Byte>, f: Frame)
    requires Try(raw) == Accept(f) && f.raw == raw
    ensures Parse(TRY, raw) == [Framed(f)] && Residue(TRY, raw) == []
  {
    hide TryRtcm3, TryUbx, NmeaFrom;
    assert First(TRY, raw) == Framed(f);
    assert raw[|raw|..] == [];
  }

  /** A frame the scanner accepts whole is the frame of its own payload. */
  lemma AcceptedIsFrameOf(raw: seq<Byte>)
    requires TryRtcm3(raw).Accept? && TryRtcm3(raw).frame.raw == raw && raw[0] == 0xD3
    ensures FrameOf(raw, raw[3..|raw| - 3])
  {
    hide Crc, DataBits;
    var p := raw[3..|raw| - 3];
    assert |p| / 256 % 4 == raw[1] && |p| % 256 == raw[2];
    assert raw[..|raw| - 3] == Header(|p|) + p;
    assert raw[|raw| - 3..|raw|] == raw[|raw| - 3..];
  }

  // ---- building a message

  /** The message builder other packages use: fields in, padded and framed message out. */
  method BuildMessage(table: seq<nat>, fs: seq<Field>) returns (r: Option<seq<Byte>>, ghost payload: seq<Byte>)
    requires IsTable(table) && forall f :: f in fs ==> InRange(f)
    ensures exists k :: 0 <= k < 8 && DataBits(payload) == FieldsBits(fs) + Zeros(k)
    ensures r.None? <==> |FieldsBits(fs)| > 8 * 1023
    ensures r.Some? ==> FrameOf(r.value, payload)
  {
    hide Crc, DataBits, IsTable, FrameOf, FieldsBits;
    var w := new BitWriter();
    w.PutAll(fs);
    ghost var k := w.Pad();
    payload := w.buf;
    assert [] + FieldsBits(fs) == FieldsBits(fs);
    r := Wrap(table, w.buf);
  }

  // ---- the multiple message bit

  /** Type numbers of the Multiple Signal Messages. */
  predicate IsMsm(t: int) {
    1071 <= t <= 1137 && 1 <= t % 10 <= 7
  }

  /** The seven messages of each of the systems from GPS (107x) to NavIC (113x). */
  lemma MsmTypes(t: int)
    ensures IsMsm(t) <==>
            || 1071 <= t <= 1077 || 1081 <= t <= 1087 || 1091 <= t <= 1097 || 1101 <= t <= 1107
            || 1111 <= t <= 1117 || 1121 <= t <= 1127 || 1131 <= t <= 1137
  {
  }

  /** The type that ends an epoch: the greatest MSM type among those selected, 0 if there is none. */
  method EpochTerminator(types: seq<int>) returns (best: int)
    ensures best == 0 <==> forall t :: t in types ==> !IsMsm(t)
    ensures best != 0 ==> best in types && IsMsm(best) && forall t :: t in types && IsMsm(t) ==> t <= best
  {
    best := 0;
    for i := 0 to |types|
      invariant best == 0 <==> forall j :: 0 <= j < i ==> !IsMsm(types[j])
      invariant best != 0 ==> best in types[..i] && IsMsm(best)
      invariant forall j :: 0 <= j < i && IsMsm(types[j]) ==> types[j] <= best
    {
      if IsMsm(types[i]) && types[i] > best {
        best := types[i];
      }
    }
  }

  function MsmType(frame: seq<Byte>): nat {
    if |frame| < 9 || frame[0] != 0xD3 then 0 else frame[3] as nat * 16 + frame[4] as nat / 16
  }

  /** Bit offset of DF393 in the payload: message number, station and epoch time come first. */
  const DF393: nat := 12 + 12 + 30

  /** A complete MSM frame long enough to hold DF393, with the bit set. */
  ghost predicate Unterminated(frame: seq<Byte>) {
    && |frame| >= 6 && frame[0] == 0xD3
    && |frame| == RtcmTotal(frame)
    && IsMsm(MsmType(frame))
    && |frame| - 6 > DF393 / 8
    && DataBits(frame[3..|frame| - 3])[DF393]
  }

  /** In bytes: a complete frame of more than twelve, with the type in its first twelve payload bits. */
  lemma Eligible(f: seq<Byte>)
    ensures Unterminated(f) <==>
            && |f| > 12 && f[0] == 0xD3 && |f| == 6 + f[1] as nat % 4 * 256 + f[2] as nat
            && IsMsm(f[3] as nat * 16 + f[4] as nat / 16) && f[9] as nat / 2 % 2 == 1
  {
    hide Crc, Bits, DataBits, IsMsm;
    if |f| > 12 {
      Df393Bit(f);
    }
  }

  /** `b &^ 2` for a byte in which that bit is set. */
  lemma ClearedBit(b: Byte)
    requires b / 2 % 2 == 1
    ensures Bits(b - 2, 8) == Bits(b, 8)[6 := false]
  {
    var h := b / 2;
    assert (b - 2) / 2 == h - 1 && (h - 1) / 2 == h / 2;
    assert Bits(b, 8) == Bits(b / 2, 7) + [b % 2 == 1];
    assert Bits(b - 2, 8) == Bits(h - 1, 7) + [b % 2 == 1];
    assert Bits(h, 7) == Bits(h / 2, 6) + [true];
    assert Bits(h - 1, 7) == Bits(h / 2, 6) + [false];
  }

  lemma Df393Bit(frame: seq<Byte>)
    requires |frame| > 12
    ensures DataBits(frame[3..|frame| - 3])[DF393] == (frame[9] / 2 % 2 == 1)
  {
    hide Bits;
    var p := frame[3..|frame| - 3];
    assert p[6] == frame[9];
    SecondBit(p[6]);
  }

  lemma SecondBit(b: Byte)
    ensures Bits(b, 8)[6] == (b / 2 % 2 == 1)
  {
    assert Bits(b, 8) == Bits(b / 2, 7) + [b % 2 == 1];
    assert Bits(b / 2, 7) == Bits(b / 4, 6) + [b / 2 % 2 == 1];
  }

  /** Clears DF393 and repairs the checksum. The input array is not modified. */
  method ClearMultipleMessageBit(table: seq<nat>, frame: array<Byte>) returns (out: array<Byte>, changed: bool)
    requires IsTable(table)
    ensures frame[..] == old(frame[..])
    ensures changed == Unterminated(frame[..])
    ensures if changed then fresh(out) else out == frame
    ensures changed <==>
            var f := frame[..];
            && |f| > 12 && f[0] == 0xD3 && |f| == 6 + f[1] as nat % 4 * 256 + f[2] as nat
            && IsMsm(f[3] as nat * 16 + f[4] as nat / 16) && f[9] as nat / 2 % 2 == 1
    ensures changed ==> Terminated(frame[..], out[..])
  {
    hide Crc, Bits, DataBits, IsTable, MsmType, IsMsm;
    Eligible(frame[..]);
    var n := frame.Length;
    if n < 6 || frame[0] != 0xD3 {
      return frame, false;
    }
    var length := frame[1] as nat % 4 * 256 + frame[2] as nat;
    if n != 3 + length + 3 {
      return frame, false;
    }
    if !IsMsm(MsmType(frame[..])) {
      return frame, false;
    }
    var byteIdx := 3 + DF393 / 8;
    if byteIdx >= 3 + length {
      return frame, false;
    }
    Df393Bit(frame[..]);
    if frame[byteIdx] / 2 % 2 == 0 {
      return frame, false;
    }
    out := new Byte[n](i requires 0 <= i < n reads frame => frame[i]);
    out[byteIdx] := out[byteIdx] - 2;
    assert out[..n - 3] == frame[..n - 3][9 := frame[9] - 2];
    StoreChecksum(table, out);
    changed := true;
  }

  /** Recomputes the last three bytes. */
  method StoreChecksum(table: seq<nat>, a: array<Byte>)
    requires IsTable(table) && a.Length >= 3
    modifies a
    ensures a[..a.Length - 3] == old(a[..a.Length - 3])
    ensures DataBits(a[a.Length - 3..]) == Crc(a[..a.Length - 3])
  {
    hide Crc, Bits, DataBits, IsTable;
    var m := a.Length - 3;
    ghost var head := a[..m];
    var c := Crc24q(table, a[..m]);
    a[m], a[m + 1], a[m + 2] := c / 0x10000 % 256, c / 0x100 % 256, c % 256;
    ChecksumStored(a[..], head, c);
    assert a[..][..m] == a[..m] && a[..][m..] == a[m..];
  }

  lemma ChecksumStored(out: seq<Byte>, head: seq<Byte>, c: nat)
    requires c < TOP24 && Bits(c, 24) == Crc(head) && |out| == |head| + 3
    requires forall i :: 0 <= i < |head| ==> out[i] == head[i]
    requires out[|head|] == c / 0x10000 % 256 && out[|head| + 1] == c / 0x100 % 256 && out[|head| + 2] == c % 256
    ensures out[..|out| - 3] == head && DataBits(out[|out| - 3..]) == Crc(head)
  {
    hide Crc, Bits, DataBits;
    assert out[..|out| - 3] == head;
    CheckBytes(out[|out| - 3..], c, c);
  }

  /** `out` is `frame` with DF393 cleared and a valid checksum. */
  ghost predicate Terminated(frame: seq<Byte>, out: seq<Byte>)
    requires |frame| > 12
  {
    && |out| == |frame|
    && frame[9] / 2 % 2 == 1
    && out[..|out| - 3] == frame[..|frame| - 3][9 := frame[9] - 2]
    && DataBits(out[|out| - 3..]) == Crc(out[..|out| - 3])
  }

  /** The patched copy of an accepted frame is accepted with the same type and length, its
      payload differs in bit 54 alone, and patching it again changes nothing. */
  lemma PatchedAccepted(frame: seq<Byte>, out: seq<Byte>)
    requires TryRtcm3(frame).Accept? && TryRtcm3(frame).frame.raw == frame
    requires Unterminated(frame) && Terminated(frame, out)
    ensures TryRtcm3(out) == Accept(TryRtcm3(frame).frame.(raw := out))
    ensures DataBits(out[3..|out| - 3]) == DataBits(frame[3..|frame| - 3])[DF393 := false]
    ensures !Unterminated(out)
  {
    hide Crc, Bits, Value, FrameOf;
    var m := |frame| - 3;
    assert forall i :: 0 <= i < m && i != 9 ==> out[..m][i] == frame[..m][i];
    assert forall i :: 0 <= i < m ==> out[..m][i] == out[i] && frame[..m][i] == frame[i];
    assert out[m..|out|] == out[m..] && out[..|out|] == out;
    var p, q := frame[3..m], out[3..m];
    ClearedBit(frame[9]);
    assert q == p[6 := frame[9] - 2];
    Df393Bit(out);
    PayloadPatched(p, q);
  }

  lemma PayloadPatched(p: seq<Byte>, q: seq<Byte>)
    requires |p| == |q| && |p| > 6 && Bits(q[6], 8) == Bits(p[6], 8)[6 := false]
    requires forall i :: 0 <= i < |p| && i != 6 ==> q[i] == p[i]
    ensures DataBits(q) == DataBits(p)[DF393 := false]
  {
    hide Bits;
    forall i | 0 <= i < 8 * |p| ensures DataBits(q)[i] == DataBits(p)[DF393 := false][i] {
      if i / 8 == 6 {
        assert i == 6 * 8 + i % 8;
      }
    }
  }
}
