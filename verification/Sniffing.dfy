/** The converter's own framing of raw archive bytes, and how it relates to the hub's. */
module Sniffing {
  import opened BitSeq
  import opened Crc24
  import opened CrcTable
  import opened Streams
  import opened Framing

  datatype Content = Content(ubx: nat, rtcm: nat, other: nat, rawx: nat, sfrbx: nat)

  function Plus(a: Content, b: Content): Content {
    Content(a.ubx + b.ubx, a.rtcm + b.rtcm, a.other + b.other, a.rawx + b.rawx, a.sfrbx + b.sfrbx)
  }

  const NOTHING := Content(0, 0, 0, 0, 0)

  function Counted(p: Piece): Content {
    match p
    case Dropped(_) => NOTHING.(other := 1)
    case Framed(f) =>
      if f.proto == RTCM3 then NOTHING.(rtcm := |f.raw|)
      else if f.proto == UBX then
        Content(|f.raw|, 0, 0, if f.typ == 0x0215 then 1 else 0, if f.typ == 0x0213 then 1 else 0)
      else NOTHING
  }

  /** Bytes of a frame count for its protocol, and of UBX frames RXM-RAWX (02 15) and RXM-SFRBX (02 13)
      are counted. */
  lemma CountedBy(f: Frame, b: Byte)
    ensures Counted(Dropped(b)) == Content(0, 0, 1, 0, 0)
    ensures f.proto == RTCM3 ==> Counted(Framed(f)) == Content(0, |f.raw|, 0, 0, 0)
    ensures f.proto == UBX ==>
              Counted(Framed(f)) == Content(|f.raw|, 0, 0, if f.typ == 2 * 256 + 0x15 then 1 else 0,
                                            if f.typ == 2 * 256 + 0x13 then 1 else 0)
  {
  }

  function Count(p: seq<Piece>): Content {
    if p == [] then NOTHING else Plus(Counted(p[0]), Count(p[1..]))
  }

  /** One turn of the classifier's loop. It never waits, it does not look at the reserved bits
      of an RTCM header, and it knows no NMEA. */
  function Loose(w: seq<Byte>): (v: Verdict)
    ensures v.Need? <==> w == []
    ensures v.Accept? ==> v.frame.raw != [] && v.frame.raw <= w && v.frame.proto in {RTCM3, UBX}
  {
    if w == [] then Need
    else if w[0] == 0xD3 && |w| >= 3 then
      var total := RtcmTotal(w);
      if total <= |w| && Crc(w[..total - 3]) == DataBits(w[total - 3..total])
      then Accept(Frame(RTCM3, RtcmType(w[..total]), w[..total])) else Reject
    else if w[0] == 0xB5 && |w| >= 8 && w[1] == 0x62 && UbxTotal(w) <= |w| then TryUbx(w)
    else Reject
  }

  const LOOSE: Recogniser := Loose

  /** The classifier's loop over a whole buffer. */
  method Classify(table: seq<nat>, b: seq<Byte>) returns (c: Content, total: nat)
    requires IsTable(table)
    ensures c == Count(Parse(LOOSE, b))
    ensures total == c.ubx + c.rtcm + c.other == |b|
  {
    hide Parse, Loose, IsTable, Count, Counted, Plus, Ahead;
    var i := 0;
    c := NOTHING;
    AheadEnds(b);
    NothingAdded(Ahead(b, 0));
    while i < |b|
      invariant 0 <= i <= |b|
      invariant Ahead(b, 0) == Plus(c, Ahead(b, i))
      invariant c.ubx + c.rtcm + c.other == i
    {
      var w := b[i..];
      var n := Match(table, w);
      ghost var p := if n > 0 then Framed(Loose(w).frame) else Dropped(w[0]);
      Turn(b, i, c);
      CountedInto(c, p, NOTHING);
      if n > 0 && w[0] == 0xD3 {
        c := c.(rtcm := c.rtcm + n);
        i := i + n;
      } else if n > 0 {
        c := c.(ubx := c.ubx + n,
                rawx := c.rawx + (if w[2] == 2 && w[3] == 0x15 then 1 else 0),
                sfrbx := c.sfrbx + (if w[2] == 2 && w[3] == 0x13 then 1 else 0));
        i := i + n;
      } else {
        c := c.(other := c.other + 1);
        i := i + 1;
      }
    }
    NothingAdded(c);
    total := c.ubx + c.rtcm + c.other;
  }

  lemma AheadEnds(b: seq<Byte>)
    ensures Ahead(b, 0) == Count(Parse(LOOSE, b)) && Ahead(b, |b|) == NOTHING
  {
    NothingLeft();
    assert b[0..] == b && b[|b|..] == [];
  }

  lemma NothingAdded(c: Content)
    ensures Plus(NOTHING, c) == Plus(c, NOTHING) == c
  {
  }

  lemma CountedInto(c: Content, p: Piece, rest: Content)
    ensures Plus(c, Plus(Counted(p), rest)) == Plus(Plus(c, Counted(p)), rest)
    ensures p.Dropped? ==> Plus(c, Counted(p)) == c.(other := c.other + 1)
    ensures p.Framed? && p.f.proto == RTCM3 ==> Plus(c, Counted(p)) == c.(rtcm := c.rtcm + |p.f.raw|)
    ensures p.Framed? && p.f.proto == UBX ==>
              Plus(c, Counted(p)) == c.(ubx := c.ubx + |p.f.raw|,
                                        rawx := c.rawx + (if p.f.typ == 0x0215 then 1 else 0),
                                        sfrbx := c.sfrbx + (if p.f.typ == 0x0213 then 1 else 0))
  {
  }

  lemma NothingLeft()
    ensures Count(Parse(LOOSE, [])) == NOTHING
    ensures Parse(LOOSE, []) == [] && Parse(TRY, []) == []
  {
  }

  /** What remains to be counted from offset `i` on. */
  ghost function Ahead(b: seq<Byte>, i: nat): Content
    requires i <= |b|
  {
    Count(Parse(LOOSE, b[i..]))
  }

  /** One turn of the loop. */
  lemma Turn(b: seq<Byte>, i: nat, c: Content)
    requires i < |b|
    ensures var w := b[i..];
            var p := if Loose(w).Accept? then Framed(Loose(w).frame) else Dropped(w[0]);
            i + |Bytes(p)| <= |b| && Plus(c, Ahead(b, i)) == Plus(Plus(c, Counted(p)), Ahead(b, i + |Bytes(p)|))
  {
    hide Parse, Loose, Count, Counted, Plus;
    var w := b[i..];
    var p := if Loose(w).Accept? then Framed(Loose(w).frame) else Dropped(w[0]);
    CountStep(w);
    assert w[|Bytes(p)|..] == b[i + |Bytes(p)|..];
    CountedInto(c, p, Ahead(b, i + |Bytes(p)|));
  }

  /** The length of the frame at the start of `w`, zero if there is none. */
  method Match(table: seq<nat>, w: seq<Byte>) returns (n: nat)
    requires IsTable(table) && w != []
    ensures n <= |w|
    ensures n > 0 <==> Loose(w).Accept?
    ensures n > 0 ==> n == |Loose(w).frame.raw|
    ensures n > 0 && w[0] == 0xD3 ==> Loose(w).frame.proto == RTCM3
    ensures n > 0 && w[0] != 0xD3 ==>
              n >= 8 && Loose(w).frame.proto == UBX && Loose(w).frame.typ == w[2] as nat * 256 + w[3] as nat
  {
    hide Crc, DataBits, IsTable, Fletcher;
    if w[0] == 0xD3 && |w| >= 3 {
      n := MatchRtcm(table, w);
    } else if w[0] == 0xB5 && |w| >= 8 && w[1] == 0x62 {
      n := MatchUbx(w);
    } else {
      n := 0;
    }
  }

  method MatchRtcm(table: seq<nat>, w: seq<Byte>) returns (n: nat)
    requires IsTable(table) && |w| >= 3 && w[0] == 0xD3
    ensures n == if Loose(w).Accept? then |Loose(w).frame.raw| else 0
  {
    hide Crc, DataBits, Bits, IsTable;
    var total := RtcmTotal(w);
    if total > |w| { return 0; }
    var crc := Crc24q(table, w[..total - 3]);
    var got := w[total - 3] as nat * 0x10000 + w[total - 2] as nat * 0x100 + w[total - 1] as nat;
    CheckBytes(w[total - 3..total], crc, got);
    return if crc == got then total else 0;
  }

  method MatchUbx(w: seq<Byte>) returns (n: nat)
    requires |w| >= 8 && w[0] == 0xB5 && w[1] == 0x62
    ensures n == if Loose(w).Accept? then |Loose(w).frame.raw| else 0
  {
    var total := UbxTotal(w);
    if total > |w| { return 0; }
    var a, k := ChecksumLoop(w[2..total - 2]);
    return if a == w[total - 2] && k == w[total - 1] then total else 0;
  }

  lemma CountStep(w: seq<Byte>)
    requires w != []
    ensures var p := if Loose(w).Accept? then Framed(Loose(w).frame) else Dropped(w[0]);
            Count(Parse(LOOSE, w)) == Plus(Counted(p), Count(Parse(LOOSE, w[|Bytes(p)|..])))
  {
    hide Loose;
    var p := First(LOOSE, w);
    var rest := Parse(LOOSE, w[|Bytes(p)|..]);
    assert Parse(LOOSE, w) == [p] + rest;
    assert ([p] + rest)[1..] == rest;
  }

  // ---- against the hub's framing

  ghost predicate ReservedBitsSet(w: seq<Byte>) {
    |w| >= 3 && w[0] == 0xD3 && w[1] / 4 != 0
  }

  /** Offset by offset, the classifier accepts what the hub accepts, except that it does not
      know NMEA and does accept RTCM frames whose reserved header bits are set. */
  lemma LooseVersusTry(w: seq<Byte>)
    ensures Try(w).Accept? && Try(w).frame.proto != NMEA ==> Loose(w) == Try(w)
    ensures Loose(w).Accept? && !ReservedBitsSet(w) ==> Try(w) == Loose(w)
    ensures Loose(w).Accept? && ReservedBitsSet(w) ==> Try(w) == Reject
  {
    hide Crc, DataBits, Bits, Fletcher;
  }

  ghost predicate AllFramed(p: seq<Piece>) {
    forall i :: 0 <= i < |p| ==> p[i].Framed? && p[i].f.proto != NMEA
  }

  /** Its first piece is a frame, and the rest is such a stream again. */
  lemma FirstWhole(s: seq<Byte>)
    requires s != [] && AllFramed(Parse(TRY, s)) && Residue(TRY, s) == []
    ensures Try(s).Accept? && Try(s).frame.proto != NMEA
    ensures var t := s[|Bytes(First(TRY, s))|..];
            Parse(TRY, s) == [First(TRY, s)] + Parse(TRY, t) && AllFramed(Parse(TRY, t)) && Residue(TRY, t) == []
  {
    hide Try;
    var p, t := First(TRY, s), s[|Bytes(First(TRY, s))|..];
    assert Parse(TRY, s)[0] == p;
    assert Parse(TRY, t) == Parse(TRY, s)[1..];
  }

  /** On a stream the hub frames completely, with nothing dropped, nothing left over and no
      NMEA, the classifier sees the same frames, so nothing counts as other. */
  lemma {:induction false} ClassifierAgrees(s: seq<Byte>)
    requires AllFramed(Parse(TRY, s)) && Residue(TRY, s) == []
    ensures Parse(LOOSE, s) == Parse(TRY, s)
    ensures Count(Parse(LOOSE, s)).other == 0
    decreases |s|
  {
    hide Crc, DataBits, Bits, Fletcher, TryRtcm3, TryUbx, NmeaFrom, Loose, Try, Parse, Residue, Count;
    NothingLeft();
    if s != [] {
      FirstWhole(s);
      LooseVersusTry(s);
      var t := s[|Bytes(First(TRY, s))|..];
      ClassifierAgrees(t);
      CountStep(s);
      FirstOf(LOOSE, s);
    }
  }

  /** The two really differ: any payload framed with a reserved bit set and a correct checksum
      is an RTCM frame to the classifier, while the hub drops its first byte and resynchronises. */
  lemma ReservedBitsDisagree(payload: seq<Byte>, reserved: nat) returns (raw: seq<Byte>)
    requires |payload| <= 1023 && 1 <= reserved < 64
    ensures |raw| == |payload| + 6 && raw[3..|raw| - 3] == payload
    ensures Parse(LOOSE, raw) == [Framed(Frame(RTCM3, RtcmType(raw), raw))]
    ensures Parse(TRY, raw) != [] && Parse(TRY, raw)[0] == Dropped(0xD3)
  {
    hide Crc, DataBits, Bits, Parse;
    var head: seq<Byte> := [0xD3, reserved * 4 + |payload| / 256, |payload| % 256] + payload;
    var t := ChecksumBytes(Crc(head));
    raw := head + t;
    var n := |raw|;
    assert raw[..n - 3] == head && raw[n - 3..n] == t && raw[..n] == raw;
    assert RtcmTotal(raw) == n;
    LooseVersusTry(raw);
    FirstOf(LOOSE, raw);
    FirstOf(TRY, raw);
    assert raw[n..] == [];
  }

  lemma ChecksumBytes(r: Reg) returns (t: seq<Byte>)
    ensures |t| == 3 && DataBits(t) == r
  {
    hide DataBits, Bits, Value;
    var c := Value(r);
    ValueBound(r);
    Pow2Values();
    BitsOfValue(r);
    t := [c / 0x10000, c / 0x100 % 256, c % 256];
    CheckBytes(t, c, c);
  }
}
