/** GPS LNAV: three subframes folded into one ephemeris and copied into RTCM 1019. */
module Gps {
  import opened BitSeq
  import opened BitPacking
  import opened Navigation
  import opened Outcomes

  /** One subframe as ten 24-bit words, parity already stripped. */
  type Subframe = b: seq<bool> | |b| == 240 witness Zeros(240)

  datatype Ephemeris = Ephemeris(
    sv: nat, week: nat, ura: nat, health: nat, codeL2: nat, l2PFlag: nat,
    iodc: nat, iode2: nat, sv3: nat, toc: nat, toe: nat,
    af0: int, af1: int, af2: int, tgd: int, crs: int, crc: int, cuc: int, cus: int,
    cic: int, cis: int, deltaN: int, m0: int, e: nat, sqrtA: nat,
    omega0: int, omega: int, i0: int, idot: int, omegaD: int, fitInterval: nat, updated: int)

  const EMPTY := Ephemeris(0, 0, 0, 0, 0, 0, 0, 0, 0, 0, 0, 0, 0, 0, 0, 0, 0, 0, 0, 0, 0, 0, 0, 0, 0, 0, 0, 0, 0, 0, 0,
      0)

  /** What the broadcast says of itself: the subframe number in the handover word. */
  function SubframeId(b: Subframe): nat {
    U(b, 43, 3)
  }

  function Fold1(e: Ephemeris, b: Subframe): Ephemeris {
    e.(week := U(b, 48, 10), codeL2 := U(b, 58, 2), ura := U(b, 60, 4), health := U(b, 64, 6),
       l2PFlag := U(b, 72, 1), tgd := S(b, 160, 8), iodc := U(b, 70, 2) * 256 + U(b, 168, 8),
       toc := U(b, 176, 16), af2 := S(b, 192, 8), af1 := S(b, 200, 16), af0 := S(b, 216, 22))
  }

  function Fold2(e: Ephemeris, b: Subframe): Ephemeris {
    e.(iode2 := U(b, 48, 8), crs := S(b, 56, 16), deltaN := S(b, 72, 16), m0 := S(b, 88, 32),
       cuc := S(b, 120, 16), e := U(b, 136, 32), cus := S(b, 168, 16), sqrtA := U(b, 184, 32),
       toe := U(b, 216, 16), fitInterval := U(b, 232, 1))
  }

  function Fold3(e: Ephemeris, b: Subframe): Ephemeris {
    e.(cic := S(b, 48, 16), omega0 := S(b, 64, 32), cis := S(b, 96, 16), i0 := S(b, 112, 32),
       crc := S(b, 144, 16), omega := S(b, 160, 32), omegaD := S(b, 192, 24),
       sv3 := U(b, 216, 8), idot := S(b, 224, 14))
  }

  function Fold(e: Ephemeris, id: nat, b: Subframe): Ephemeris {
    if id == 1 then Fold1(e, b) else if id == 2 then Fold2(e, b) else if id == 3 then Fold3(e, b) else e
  }

  datatype State = State(eph: Ephemeris, have: set<nat>)

  /** One subframe into the assembly; almanac and ionosphere subframes change nothing. */
  function Added(s: State, b: Subframe, now: int): State {
    var id := SubframeId(b);
    if 1 <= id <= 3 then State(Fold(s.eph, id, b).(updated := now), s.have + {id}) else s
  }

  predicate Complete(s: State) {
    {1, 2, 3} <= s.have && s.eph.iode2 == s.eph.sv3 && s.eph.iodc % 256 == s.eph.iode2
  }

  // ---- the assembly object

  /** Ten words of 24 data bits each, as one bit string. */
  function WordBits(words: seq<nat>): (b: seq<bool>)
    ensures |b| == 24 * |words|
  {
    if words == [] then [] else WordBits(words[..|words| - 1]) + Bits(words[|words| - 1], 24)
  }

  /** The 30-byte buffer the fields are read from. */
  method PackWords(words: seq<nat>) returns (buf: seq<Byte>)
    requires |words| >= 10
    ensures DataBits(buf) == WordBits(words[..10])
  {
    hide DataBits, Bits;
    buf := [];
    var i := 0;
    while i < 10
      invariant 0 <= i <= 10 && |buf| == 3 * i
      invariant DataBits(buf) == WordBits(words[..i])
    {
      var v := words[i] % 0x100_0000;
      var t: seq<Byte> := [v / 0x1_0000, v / 0x100 % 256, v % 256];
      WordBytes(words[i], t);
      DataBitsConcat(buf, t);
      assert words[..i + 1][..i] == words[..i];
      buf := buf + t;
      i := i + 1;
    }
  }

  lemma WordBytes(w: nat, t: seq<Byte>)
    requires var v := w % 0x100_0000; t == [v / 0x1_0000, v / 0x100 % 256, v % 256]
    ensures DataBits(t) == Bits(w, 24)
  {
    hide DataBits, Bits, Pow2;
    var v := w % 0x100_0000;
    ThreeBytes(t, v);
    Pow2Values();
    BitsMod(v, w, 24);
  }

  class Assembly {
    var eph: Ephemeris
    var have: set<nat>

    ghost function View(): State
      reads this
    {
      State(eph, have)
    }

    constructor (sv: nat)
      ensures View() == State(EMPTY.(sv := sv), {})
    {
      eph, have := EMPTY.(sv := sv), {};
    }

    method AddSubframe(words: seq<nat>, now: int) returns (id: nat, err: bool)
      modifies this
      ensures err <==> |words| < 10
      ensures View() == if err then old(View()) else Added(old(View()), WordBits(words[..10]), now)
      ensures !err ==> id == SubframeId(WordBits(words[..10]))
    {
      hide DataBits, Bits, WordBits;
      if |words| < 10 {
        return 0, true;
      }
      var buf := PackWords(words);
      var b: Subframe := DataBits(buf);
      id, err := SubframeId(b), false;
      if id == 1 {
        eph := Fold1(eph, b);
      } else if id == 2 {
        eph := Fold2(eph, b);
      } else if id == 3 {
        eph := Fold3(eph, b);
      } else {
        return;
      }
      have := have + {id};
      eph := eph.(updated := now);
    }
  }

  // ---- RTCM 1019

  function Encode1019(e: Ephemeris): seq<Field> {
    [Unsigned(1019, 12), Unsigned(e.sv, 6), Unsigned(e.week, 10), Unsigned(e.ura, 4), Unsigned(e.codeL2, 2),
     Signed(e.idot, 14), Unsigned(e.iode2, 8), Unsigned(e.toc, 16), Signed(e.af2, 8), Signed(e.af1, 16),
     Signed(e.af0, 22), Unsigned(e.iodc, 10), Signed(e.crs, 16), Signed(e.deltaN, 16), Signed(e.m0, 32),
     Signed(e.cuc, 16), Unsigned(e.e, 32), Signed(e.cus, 16), Unsigned(e.sqrtA, 32), Unsigned(e.toe, 16),
     Signed(e.cic, 16), Signed(e.omega0, 32), Signed(e.cis, 16), Signed(e.i0, 32), Signed(e.crc, 16),
     Signed(e.omega, 32), Signed(e.omegaD, 24), Signed(e.tgd, 8), Unsigned(e.health, 6), Unsigned(e.l2PFlag, 1),
     Unsigned(e.fitInterval, 1)]
  }

  /** Message 1019 as slices of the three broadcast subframes. */
  ghost function Parts1019(sv: nat, s1: Subframe, s2: Subframe, s3: Subframe): seq<seq<bool>> {
    [Bits(1019, 12), Bits(sv, 6), s1[48..58], s1[60..64], s1[58..60],
     s3[224..238], s2[48..56], s1[176..192], s1[192..200], s1[200..216],
     s1[216..238], s1[70..72] + s1[168..176], s2[56..72], s2[72..88], s2[88..120],
     s2[120..136], s2[136..168], s2[168..184], s2[184..216], s2[216..232],
     s3[48..64], s3[64..96], s3[96..112], s3[112..144], s3[144..160],
     s3[160..192], s3[192..216], s1[160..168], s1[64..70], s1[72..73],
     s2[232..233]]
  }

  /** The parts in the order of the message, each with its subframe and its bits there. */
  lemma Layout1019(sv: nat, s1: Subframe, s2: Subframe, s3: Subframe)
    ensures Parts1019(sv, s1, s2, s3)
            == [Bits(1019, 12), Bits(sv, 6), s1[48..58], s1[60..64], s1[58..60],
                s3[224..238], s2[48..56], s1[176..192], s1[192..200], s1[200..216],
                s1[216..238], s1[70..72] + s1[168..176], s2[56..72], s2[72..88], s2[88..120],
                s2[120..136], s2[136..168], s2[168..184], s2[184..216], s2[216..232],
                s3[48..64], s3[64..96], s3[96..112], s3[112..144], s3[144..160],
                s3[160..192], s3[192..216], s1[160..168], s1[64..70], s1[72..73],
                s2[232..233]]
  {
  }

  ghost predicate Holds(e: Ephemeris, id: nat, b: Subframe) {
    Fold(e, id, b) == e
  }

  lemma Copy1(e: Ephemeris, b: Subframe)
    requires Holds(e, 1, b)
    ensures Copied(Unsigned(e.week, 10), b[48..58]) && Copied(Unsigned(e.ura, 4), b[60..64])
    ensures Copied(Unsigned(e.codeL2, 2), b[58..60]) && Copied(Unsigned(e.health, 6), b[64..70])
    ensures Copied(Unsigned(e.l2PFlag, 1), b[72..73]) && Copied(Signed(e.tgd, 8), b[160..168])
    ensures Copied(Unsigned(e.toc, 16), b[176..192]) && Copied(Signed(e.af2, 8), b[192..200])
    ensures Copied(Signed(e.af1, 16), b[200..216]) && Copied(Signed(e.af0, 22), b[216..238])
    ensures Copied(Unsigned(e.iodc, 10), b[70..72] + b[168..176])
  {
    hide Copied, U, S;
    UField(b, 48, 10); UField(b, 60, 4); UField(b, 58, 2); UField(b, 64, 6); UField(b, 72, 1);
    SField(b, 160, 8); UField(b, 176, 16); SField(b, 192, 8); SField(b, 200, 16); SField(b, 216, 22);
    Iodc(b);
  }

  lemma Iodc(b: Subframe)
    ensures Copied(Unsigned(U(b, 70, 2) * 256 + U(b, 168, 8), 10), b[70..72] + b[168..176])
    ensures (U(b, 70, 2) * 256 + U(b, 168, 8)) % 256 == U(b, 168, 8)
  {
    hide Bits, Value, Pow2;
    Pow2Values();
    ValueConcat(b[70..72], b[168..176]);
    ValueBound(b[168..176]);
    UnsignedCopied(b[70..72] + b[168..176]);
    UnsignedFits(b[70..72] + b[168..176]);
  }

  lemma Copy2(e: Ephemeris, b: Subframe)
    requires Holds(e, 2, b)
    ensures Copied(Unsigned(e.iode2, 8), b[48..56]) && Copied(Signed(e.crs, 16), b[56..72])
    ensures Copied(Signed(e.deltaN, 16), b[72..88]) && Copied(Signed(e.m0, 32), b[88..120])
    ensures Copied(Signed(e.cuc, 16), b[120..136]) && Copied(Unsigned(e.e, 32), b[136..168])
    ensures Copied(Signed(e.cus, 16), b[168..184]) && Copied(Unsigned(e.sqrtA, 32), b[184..216])
    ensures Copied(Unsigned(e.toe, 16), b[216..232]) && Copied(Unsigned(e.fitInterval, 1), b[232..233])
  {
    hide Copied, U, S;
    UField(b, 48, 8); SField(b, 56, 16); SField(b, 72, 16); SField(b, 88, 32); SField(b, 120, 16);
    UField(b, 136, 32); SField(b, 168, 16); UField(b, 184, 32); UField(b, 216, 16); UField(b, 232, 1);
  }

  lemma Copy3(e: Ephemeris, b: Subframe)
    requires Holds(e, 3, b)
    ensures Copied(Signed(e.cic, 16), b[48..64]) && Copied(Signed(e.omega0, 32), b[64..96])
    ensures Copied(Signed(e.cis, 16), b[96..112]) && Copied(Signed(e.i0, 32), b[112..144])
    ensures Copied(Signed(e.crc, 16), b[144..160]) && Copied(Signed(e.omega, 32), b[160..192])
    ensures Copied(Signed(e.omegaD, 24), b[192..216]) && Copied(Signed(e.idot, 14), b[224..238])
  {
    hide Copied, U, S;
    SField(b, 48, 16); SField(b, 64, 32); SField(b, 96, 16); SField(b, 112, 32); SField(b, 144, 16);
    SField(b, 160, 32); SField(b, 192, 24); SField(b, 224, 14);
  }

  lemma EveryFieldCopied(e: Ephemeris, s1: Subframe, s2: Subframe, s3: Subframe)
    requires Holds(e, 1, s1) && Holds(e, 2, s2) && Holds(e, 3, s3) && e.sv < U64
    ensures var fs, parts := Encode1019(e), Parts1019(e.sv, s1, s2, s3);
            |fs| == |parts| && forall k :: 0 <= k < |fs| ==> Copied(fs[k], parts[k])
  {
    hide FieldBits, InRange, U, S, Bits, Fold, Copied, Holds;
    Copy1(e, s1);
    Copy2(e, s2);
    Copy3(e, s3);
    CopyNumber(1019, 12);
    CopyNumber(e.sv, 6);
    var fs, parts := Encode1019(e), Parts1019(e.sv, s1, s2, s3);
    forall k | 0 <= k < |fs| ensures Copied(fs[k], parts[k]) {
      if k < 16 {
      } else {
      }
    }
  }

  /** Every field of message 1019 is the broadcast bit slice, unchanged. */
  lemma MessageIsBroadcast(e: Ephemeris, s1: Subframe, s2: Subframe, s3: Subframe)
    requires Holds(e, 1, s1) && Holds(e, 2, s2) && Holds(e, 3, s3) && e.sv < U64
    ensures FieldsBits(Encode1019(e)) == Concat(Parts1019(e.sv, s1, s2, s3))
    ensures forall f :: f in Encode1019(e) ==> InRange(f)
  {
    hide FieldBits, InRange, Encode1019, Parts1019, Fold;
    EveryFieldCopied(e, s1, s2, s3);
    FieldsAreParts(Encode1019(e), Parts1019(e.sv, s1, s2, s3));
  }

  // ---- whole runs

  /** The assembly of satellite `sv` after a sequence of subframes with their arrival times. */
  function Run(sv: nat, ev: seq<(Subframe, int)>): State {
    if ev == [] then State(EMPTY.(sv := sv), {})
    else var (b, now) := ev[|ev| - 1]; Added(Run(sv, ev[..|ev| - 1]), b, now)
  }

  /** The most recent subframe with number `id`. */
  function Latest(ev: seq<(Subframe, int)>, id: nat): Option<Subframe> {
    if ev == [] then None
    else if SubframeId(ev[|ev| - 1].0) == id then Some(ev[|ev| - 1].0)
    else Latest(ev[..|ev| - 1], id)
  }

  /** When the most recent ephemeris subframe arrived. */
  function LatestTime(ev: seq<(Subframe, int)>): int {
    if ev == [] then 0
    else if 1 <= SubframeId(ev[|ev| - 1].0) <= 3 then ev[|ev| - 1].1
    else LatestTime(ev[..|ev| - 1])
  }

  lemma FoldKeeps(e: Ephemeris, id: nat, b: Subframe, other: nat, c: Subframe, now: int)
    requires id != other && Holds(e, other, c)
    ensures Holds(Fold(e, id, b).(updated := now), other, c)
  {
    hide U, S;
  }

  lemma FoldSets(e: Ephemeris, id: nat, b: Subframe, now: int)
    ensures Holds(Fold(e, id, b).(updated := now), id, b)
    ensures Fold(e, id, b).sv == e.sv
  {
    hide U, S;
  }

  lemma {:induction false} Tracks(sv: nat, ev: seq<(Subframe, int)>, id: nat)
    requires 1 <= id <= 3
    ensures var s := Run(sv, ev);
            && s.eph.sv == sv && s.eph.updated == LatestTime(ev)
            && (id in s.have <==> Latest(ev, id).Some?)
            && (Latest(ev, id).Some? ==> Holds(s.eph, id, Latest(ev, id).value))
  {
    hide Fold, Holds, SubframeId;
    if ev != [] {
      var (b, now) := ev[|ev| - 1];
      var before := Run(sv, ev[..|ev| - 1]);
      Tracks(sv, ev[..|ev| - 1], id);
      var k := SubframeId(b);
      FoldSets(before.eph, k, b, now);
      if k != id && Latest(ev, id).Some? {
        FoldKeeps(before.eph, k, b, id, Latest(ev, id).value, now);
      }
    }
  }

  /** The issue-of-data agreement, on the broadcast bits themselves. */
  ghost predicate Agree(s1: Subframe, s2: Subframe, s3: Subframe) {
    s2[48..56] == s3[216..224] == s1[168..176]
  }

  lemma IssueOfData(e: Ephemeris, s1: Subframe, s2: Subframe, s3: Subframe)
    requires Holds(e, 1, s1) && Holds(e, 2, s2) && Holds(e, 3, s3)
    ensures (e.iode2 == e.sv3 && e.iodc % 256 == e.iode2) <==> Agree(s1, s2, s3)
  {
    hide U, S, Copied;
    IssueFields(e, s1, s2, s3);
    Iodc(s1);
    SameField(s2, 48, s3, 216, 8);
    SameField(s2, 48, s1, 168, 8);
  }

  lemma IssueFields(e: Ephemeris, s1: Subframe, s2: Subframe, s3: Subframe)
    requires Holds(e, 1, s1) && Holds(e, 2, s2) && Holds(e, 3, s3)
    ensures e.iodc == U(s1, 70, 2) * 256 + U(s1, 168, 8)
    ensures e.iode2 == U(s2, 48, 8) && e.sv3 == U(s3, 216, 8)
  {
    hide U, S;
  }

  /** In every run, a data set is complete exactly when the latest subframes 1, 2 and 3 have all
      arrived and carry one issue of data; message 1019 is then cut from those subframes. */
  lemma ServedFromLatest(sv: nat, ev: seq<(Subframe, int)>)
    requires sv < U64
    ensures var s := Run(sv, ev);
            var l1, l2, l3 := Latest(ev, 1), Latest(ev, 2), Latest(ev, 3);
            && (Complete(s) <==> l1.Some? && l2.Some? && l3.Some? && Agree(l1.value, l2.value, l3.value))
            && s.eph.updated == LatestTime(ev)
            && (Complete(s) ==>
                  && FieldsBits(Encode1019(s.eph)) == Concat(Parts1019(sv, l1.value, l2.value, l3.value))
                  && forall f :: f in Encode1019(s.eph) ==> InRange(f))
  {
    hide Fold, Holds, Run, Encode1019, Parts1019, FieldsBits, Concat, InRange, Agree, Latest, LatestTime;
    Tracks(sv, ev, 1);
    Tracks(sv, ev, 2);
    Tracks(sv, ev, 3);
    var s := Run(sv, ev);
    var l1, l2, l3 := Latest(ev, 1), Latest(ev, 2), Latest(ev, 3);
    if l1.Some? && l2.Some? && l3.Some? {
      IssueOfData(s.eph, l1.value, l2.value, l3.value);
      MessageIsBroadcast(s.eph, l1.value, l2.value, l3.value);
    }
  }

  /** Field widths of message 1019. */
  const WIDTHS: seq<nat> := [12, 6, 10, 4, 2, 14, 8, 16, 8, 16, 22, 10, 16, 16, 32, 16,
                             32, 16, 32, 16, 16, 32, 16, 32, 16, 32, 24, 8, 6, 1, 1]

  lemma MessageLength(sv: nat, s1: Subframe, s2: Subframe, s3: Subframe)
    ensures |Concat(Parts1019(sv, s1, s2, s3))| == 488
  {
    hide Bits, Sum, Concat;
    TotalWidth(Parts1019(sv, s1, s2, s3), WIDTHS);
    Length488();
  }

  lemma Length488()
    ensures Sum(WIDTHS) == 488
  {
    hide Sum;
    SumPadded(WIDTHS, 1);
  }

  /** Subframes belong together when IODE in subframes 2 and 3 and the low byte of IODC in subframe 1
      are the same eight bits. */
  lemma AgreeMeans(s1: Subframe, s2: Subframe, s3: Subframe)
    ensures Agree(s1, s2, s3) <==> s2[48..56] == s3[216..224] && s1[168..176] == s2[48..56]
  {
  }

  // ---- where the numbers are, and which time counts

  /** The number of a subframe is written in its bits 43 to 45. */
  lemma NumberWritten(b: Subframe, id: nat)
    requires id < 8
    ensures SubframeId(b) == id <==> b[43..46] == Bits(id, 3)
  {
    hide Bits, Value, Pow2;
    assert b[43..43 + 3] == b[43..46];
    BitsOfValue(b[43..46]);
    ValueOfBits(id, 3);
    Pow2Values();
    SmallMod(id, 8);
  }

  /** The time of a data set is that of the latest subframe with a number from 1 to 3. */
  lemma {:induction false} TimeCounts(ev: seq<(Subframe, int)>, j: nat)
    requires j < |ev| && 1 <= SubframeId(ev[j].0) <= 3
    requires forall i :: j < i < |ev| ==> !(1 <= SubframeId(ev[i].0) <= 3)
    ensures LatestTime(ev) == ev[j].1
    decreases |ev|
  {
    hide SubframeId;
    if j < |ev| - 1 {
      TimeCounts(ev[..|ev| - 1], j);
    }
  }
}
