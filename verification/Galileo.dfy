/** Galileo I/NAV: page halves joined into words, five word types folded into one ephemeris
    and copied into RTCM 1046. */
module Galileo {
  import opened BitSeq
  import opened BitPacking
  import opened Navigation
  import opened Outcomes

  /** One I/NAV word: 112 bits of the even page part and 16 of the odd. */
  type Word = b: seq<bool> | |b| == 128 witness Zeros(128)

  datatype Ephemeris = Ephemeris(
    sv: nat, iodNav: nat, week: nat, sisa: nat, toe: nat, toc: nat, af0: int, af1: int, af2: int,
    m0: int, e: nat, sqrtA: nat, omega0: int, i0: int, omega: int, idot: int, omegaD: int, deltaN: int,
    cuc: int, cus: int, crc: int, crs: int, cic: int, cis: int, bgdE1E5b: int,
    e5bHS: nat, e1bHS: nat, e5bDVS: nat, e1bDVS: nat, updated: int)

  const EMPTY := Ephemeris(0, 0, 0, 0, 0, 0, 0, 0, 0, 0, 0, 0, 0, 0, 0, 0, 0, 0, 0, 0, 0, 0, 0, 0, 0, 0, 0, 0, 0, 0)

  function WordType(b: Word): nat {
    U(b, 0, 6)
  }

  function Iod(b: Word): nat {
    U(b, 6, 10)
  }

  function Fold1(e: Ephemeris, b: Word): Ephemeris {
    e.(iodNav := Iod(b), toe := U(b, 16, 14), m0 := S(b, 30, 32), e := U(b, 62, 32), sqrtA := U(b, 94, 32))
  }

  function Fold2(e: Ephemeris, b: Word): Ephemeris {
    e.(omega0 := S(b, 16, 32), i0 := S(b, 48, 32), omega := S(b, 80, 32), idot := S(b, 112, 14))
  }

  function Fold3(e: Ephemeris, b: Word): Ephemeris {
    e.(omegaD := S(b, 16, 24), deltaN := S(b, 40, 16), cuc := S(b, 56, 16), cus := S(b, 72, 16),
       crc := S(b, 88, 16), crs := S(b, 104, 16), sisa := U(b, 120, 8))
  }

  /** Word type 4 names the satellite itself; only a nonzero number counts. */
  function Fold4(e: Ephemeris, b: Word): Ephemeris {
    e.(sv := if U(b, 16, 6) > 0 then U(b, 16, 6) else e.sv,
       cic := S(b, 22, 16), cis := S(b, 38, 16), toc := U(b, 54, 14),
       af0 := S(b, 68, 31), af1 := S(b, 99, 21), af2 := S(b, 120, 6))
  }

  function Fold5(e: Ephemeris, b: Word): Ephemeris {
    e.(bgdE1E5b := S(b, 57, 10), e5bHS := U(b, 67, 2), e1bHS := U(b, 69, 2),
       e5bDVS := U(b, 71, 1), e1bDVS := U(b, 72, 1), week := U(b, 73, 12))
  }

  function Fold(e: Ephemeris, id: nat, b: Word): Ephemeris {
    if id == 1 then Fold1(e, b) else if id == 2 then Fold2(e, b) else if id == 3 then Fold3(e, b)
    else if id == 4 then Fold4(e, b) else if id == 5 then Fold5(e, b) else e
  }

  /** `iod` keeps the IODnav each of the word types 1 to 4 carried. */
  datatype State = State(eph: Ephemeris, have: set<nat>, iod: map<nat, nat>)

  function Added(s: State, b: Word, now: int): State {
    var id := WordType(b);
    if 1 <= id <= 5 then
      State(Fold(s.eph, id, b).(updated := now), s.have + {id}, if id <= 4 then s.iod[id := Iod(b)] else s.iod)
    else s
  }

  function IodOf(s: State, id: nat): nat {
    if id in s.iod then s.iod[id] else 0
  }

  predicate Complete(s: State) {
    && {1, 2, 3, 4, 5} <= s.have
    && IodOf(s, 2) == IodOf(s, 1) && IodOf(s, 3) == IodOf(s, 1) && IodOf(s, 4) == IodOf(s, 1)
  }

  // ---- joining the page halves

  function PageBits(words: seq<nat>): (b: seq<bool>)
    ensures |b| == 32 * |words|
  {
    if words == [] then [] else PageBits(words[..|words| - 1]) + Bits(words[|words| - 1], 32)
  }

  /** The two flags of each half must say: even then odd, and neither an alert page. */
  predicate Intact(page: seq<bool>)
    requires |page| == 256
  {
    !page[0] && !page[1] && page[128] && !page[129]
  }

  function Join(page: seq<bool>): Word
    requires |page| == 256
  {
    page[2..114] + page[130..146]
  }

  /** The 128-bit word of an intact page, as bytes. */
  method InavWord(words: seq<nat>) returns (r: Option<seq<Byte>>)
    ensures r.Some? <==> |words| >= 8 && Intact(PageBits(words[..8]))
    ensures r.Some? ==> DataBits(r.value) == Join(PageBits(words[..8]))
  {
    hide DataBits, Bits, Packed;
    if |words| < 8 {
      return None;
    }
    var buf := new BitWriter();
    var i := 0;
    while i < 8
      invariant 0 <= i <= 8 && buf.Valid() && fresh(buf)
      invariant buf.written == PageBits(words[..i])
    {
      assert words[..i + 1][..i] == words[..i];
      buf.Put(words[i] % 0x1_0000_0000, 32);
      Word32(words[i]);
      i := i + 1;
    }
    PackedFull(buf.buf, buf.written);
    var page := DataBits(buf.buf);
    if page[0] || page[1] || !page[128] || page[129] {
      return None;
    }
    var out := new BitWriter();
    i := 0;
    while i < 112
      invariant 0 <= i <= 112 && out.Valid() && fresh(out)
      invariant out.written == page[2..2 + i]
    {
      out.PutBit(page[2 + i]);
      i := i + 1;
    }
    i := 0;
    while i < 16
      invariant 0 <= i <= 16 && out.Valid() && fresh(out)
      invariant out.written == page[2..114] + page[130..130 + i]
    {
      out.PutBit(page[130 + i]);
      i := i + 1;
    }
    PackedFull(out.buf, out.written);
    return Some(out.buf);
  }

  lemma Word32(w: nat)
    ensures Bits(w % 0x1_0000_0000, 32) == Bits(w, 32)
  {
    hide Bits, Pow2;
    Pow2Values();
    Pow2Add(16, 16);
    BitsMod(w % 0x1_0000_0000, w, 32);
  }

  class Assembly {
    var eph: Ephemeris
    var have: set<nat>
    var iod: map<nat, nat>

    ghost function View(): State
      reads this
    {
      State(eph, have, iod)
    }

    constructor (sv: nat)
      ensures View() == State(EMPTY.(sv := sv), {}, map[])
    {
      eph, have, iod := EMPTY.(sv := sv), {}, map[];
    }

    method AddPage(words: seq<nat>, now: int) returns (wt: nat, err: bool)
      modifies this
      ensures err <==> |words| < 8 || !Intact(PageBits(words[..8]))
      ensures View() == if err then old(View()) else Added(old(View()), Join(PageBits(words[..8])), now)
      ensures !err ==> wt == WordType(Join(PageBits(words[..8])))
    {
      hide DataBits, Bits, PageBits, Join;
      var buf := InavWord(words);
      if buf.None? {
        return 0, true;
      }
      var b: Word := DataBits(buf.value);
      wt, err := WordType(b), false;
      if wt == 1 {
        iod := iod[1 := Iod(b)];
        eph := Fold1(eph, b);
      } else if wt == 2 {
        iod := iod[2 := Iod(b)];
        eph := Fold2(eph, b);
      } else if wt == 3 {
        iod := iod[3 := Iod(b)];
        eph := Fold3(eph, b);
      } else if wt == 4 {
        iod := iod[4 := Iod(b)];
        eph := Fold4(eph, b);
      } else if wt == 5 {
        eph := Fold5(eph, b);
      } else {
        return;
      }
      have := have + {wt};
      eph := eph.(updated := now);
    }
  }

  // ---- RTCM 1046

  function Encode1046(e: Ephemeris): seq<Field> {
    [Unsigned(1046, 12), Unsigned(e.sv, 6), Unsigned(e.week, 12), Unsigned(e.iodNav, 10), Unsigned(e.sisa, 8),
     Signed(e.idot, 14), Unsigned(e.toc, 14), Signed(e.af2, 6), Signed(e.af1, 21), Signed(e.af0, 31),
     Signed(e.crs, 16), Signed(e.deltaN, 16), Signed(e.m0, 32), Signed(e.cuc, 16), Unsigned(e.e, 32),
     Signed(e.cus, 16), Unsigned(e.sqrtA, 32), Unsigned(e.toe, 14), Signed(e.cic, 16), Signed(e.omega0, 32),
     Signed(e.cis, 16), Signed(e.i0, 32), Signed(e.crc, 16), Signed(e.omega, 32), Signed(e.omegaD, 24),
     Signed(e.bgdE1E5b, 10), Unsigned(e.e5bHS, 2), Unsigned(e.e5bDVS, 1), Unsigned(e.e1bHS % 4, 2),
     Unsigned(e.e1bDVS, 1)]
  }

  /** Message 1046 as slices of the five broadcast words. */
  ghost function Parts1046(sv: nat, w1: Word, w2: Word, w3: Word, w4: Word, w5: Word): seq<seq<bool>> {
    [Bits(1046, 12), Bits(sv, 6), w5[73..85], w1[6..16], w3[120..128],
     w2[112..126], w4[54..68], w4[120..126], w4[99..120], w4[68..99],
     w3[104..120], w3[40..56], w1[30..62], w3[56..72], w1[62..94],
     w3[72..88], w1[94..126], w1[16..30], w4[22..38], w2[16..48],
     w4[38..54], w2[48..80], w3[88..104], w2[80..112], w3[16..40],
     w5[57..67], w5[67..69], w5[71..72], w5[69..71],
     w5[72..73]]
  }

  /** The parts in the order of the message, each with its word and its bits there. */
  lemma Layout1046(sv: nat, w1: Word, w2: Word, w3: Word, w4: Word, w5: Word)
    ensures Parts1046(sv, w1, w2, w3, w4, w5)
            == [Bits(1046, 12), Bits(sv, 6), w5[73..85], w1[6..16], w3[120..128],
                w2[112..126], w4[54..68], w4[120..126], w4[99..120], w4[68..99],
                w3[104..120], w3[40..56], w1[30..62], w3[56..72], w1[62..94],
                w3[72..88], w1[94..126], w1[16..30], w4[22..38], w2[16..48],
                w4[38..54], w2[48..80], w3[88..104], w2[80..112], w3[16..40],
                w5[57..67], w5[67..69], w5[71..72], w5[69..71],
                w5[72..73]]
  {
  }

  /** Field widths of message 1046. */
  const WIDTHS: seq<nat> := [12, 6, 12, 10, 8, 14, 14, 6, 21, 31, 16, 16, 32, 16, 32,
                             16, 32, 14, 16, 32, 16, 32, 16, 32, 24, 10, 2, 1, 2, 1]

  ghost predicate Holds(e: Ephemeris, id: nat, b: Word) {
    Fold(e, id, b) == e
  }

  lemma Copy1(e: Ephemeris, b: Word)
    requires Holds(e, 1, b)
    ensures Copied(Unsigned(e.iodNav, 10), b[6..16]) && Copied(Unsigned(e.toe, 14), b[16..30])
    ensures Copied(Signed(e.m0, 32), b[30..62]) && Copied(Unsigned(e.e, 32), b[62..94])
    ensures Copied(Unsigned(e.sqrtA, 32), b[94..126])
  {
    hide Copied, U, S;
    UField(b, 6, 10); UField(b, 16, 14); SField(b, 30, 32); UField(b, 62, 32); UField(b, 94, 32);
  }

  lemma Copy2(e: Ephemeris, b: Word)
    requires Holds(e, 2, b)
    ensures Copied(Signed(e.omega0, 32), b[16..48]) && Copied(Signed(e.i0, 32), b[48..80])
    ensures Copied(Signed(e.omega, 32), b[80..112]) && Copied(Signed(e.idot, 14), b[112..126])
  {
    hide Copied, U, S;
    SField(b, 16, 32); SField(b, 48, 32); SField(b, 80, 32); SField(b, 112, 14);
  }

  lemma Copy3(e: Ephemeris, b: Word)
    requires Holds(e, 3, b)
    ensures Copied(Signed(e.omegaD, 24), b[16..40]) && Copied(Signed(e.deltaN, 16), b[40..56])
    ensures Copied(Signed(e.cuc, 16), b[56..72]) && Copied(Signed(e.cus, 16), b[72..88])
    ensures Copied(Signed(e.crc, 16), b[88..104]) && Copied(Signed(e.crs, 16), b[104..120])
    ensures Copied(Unsigned(e.sisa, 8), b[120..128])
  {
    hide Copied, U, S;
    SField(b, 16, 24); SField(b, 40, 16); SField(b, 56, 16); SField(b, 72, 16); SField(b, 88, 16);
    SField(b, 104, 16); UField(b, 120, 8);
  }

  lemma Copy4(e: Ephemeris, b: Word)
    requires Holds(e, 4, b)
    ensures Copied(Signed(e.cic, 16), b[22..38]) && Copied(Signed(e.cis, 16), b[38..54])
    ensures Copied(Unsigned(e.toc, 14), b[54..68]) && Copied(Signed(e.af0, 31), b[68..99])
    ensures Copied(Signed(e.af1, 21), b[99..120]) && Copied(Signed(e.af2, 6), b[120..126])
  {
    hide Copied, U, S;
    SField(b, 22, 16); SField(b, 38, 16); UField(b, 54, 14); SField(b, 68, 31); SField(b, 99, 21); SField(b, 120, 6);
  }

  lemma Copy5(e: Ephemeris, b: Word)
    requires Holds(e, 5, b)
    ensures Copied(Signed(e.bgdE1E5b, 10), b[57..67]) && Copied(Unsigned(e.e5bHS, 2), b[67..69])
    ensures Copied(Unsigned(e.e1bHS % 4, 2), b[69..71]) && Copied(Unsigned(e.e5bDVS, 1), b[71..72])
    ensures Copied(Unsigned(e.e1bDVS, 1), b[72..73]) && Copied(Unsigned(e.week, 12), b[73..85])
  {
    hide Copied, U, S;
    SField(b, 57, 10); UField(b, 67, 2); UField(b, 69, 2); UField(b, 71, 1); UField(b, 72, 1); UField(b, 73, 12);
    TwoBits(b);
  }

  lemma TwoBits(b: Word)
    ensures U(b, 69, 2) % 4 == U(b, 69, 2)
  {
    hide Value;
    ValueBound(b[69..71]);
    assert Pow2(2) == 4;
  }

  lemma EveryFieldCopied(e: Ephemeris, w1: Word, w2: Word, w3: Word, w4: Word, w5: Word)
    requires Holds(e, 1, w1) && Holds(e, 2, w2) && Holds(e, 3, w3) && Holds(e, 4, w4) && Holds(e, 5, w5)
    requires e.sv < U64
    ensures var fs, parts := Encode1046(e), Parts1046(e.sv, w1, w2, w3, w4, w5);
            |fs| == |parts| && forall k :: 0 <= k < |fs| ==> Copied(fs[k], parts[k])
  {
    hide FieldBits, InRange, U, S, Bits, Fold, Copied, Holds;
    Copy1(e, w1);
    Copy2(e, w2);
    Copy3(e, w3);
    Copy4(e, w4);
    Copy5(e, w5);
    CopyNumber(1046, 12);
    CopyNumber(e.sv, 6);
    var fs, parts := Encode1046(e), Parts1046(e.sv, w1, w2, w3, w4, w5);
    forall k | 0 <= k < |fs| ensures Copied(fs[k], parts[k]) {
      if k < 15 {
      } else {
      }
    }
  }

  /** Every field of message 1046 is the broadcast bit slice, unchanged. */
  lemma MessageIsBroadcast(e: Ephemeris, w1: Word, w2: Word, w3: Word, w4: Word, w5: Word)
    requires Holds(e, 1, w1) && Holds(e, 2, w2) && Holds(e, 3, w3) && Holds(e, 4, w4) && Holds(e, 5, w5)
    requires e.sv < U64
    ensures FieldsBits(Encode1046(e)) == Concat(Parts1046(e.sv, w1, w2, w3, w4, w5))
    ensures forall f :: f in Encode1046(e) ==> InRange(f)
  {
    hide FieldBits, InRange, Encode1046, Parts1046, Fold;
    EveryFieldCopied(e, w1, w2, w3, w4, w5);
    FieldsAreParts(Encode1046(e), Parts1046(e.sv, w1, w2, w3, w4, w5));
  }

  lemma MessageLength(sv: nat, w1: Word, w2: Word, w3: Word, w4: Word, w5: Word)
    ensures |Concat(Parts1046(sv, w1, w2, w3, w4, w5))| == 492
  {
    hide Bits, Sum, Concat;
    TotalWidth(Parts1046(sv, w1, w2, w3, w4, w5), WIDTHS);
    Length492();
  }

  lemma Length492()
    ensures Sum(WIDTHS) == 492
  {
    hide Sum;
    SumPadded(WIDTHS, 2);
  }

  // ---- whole runs

  /** The assembly filed under `sv` after a sequence of words with their arrival times. */
  function Run(sv: nat, ev: seq<(Word, int)>): State {
    if ev == [] then State(EMPTY.(sv := sv), {}, map[])
    else var (b, now) := ev[|ev| - 1]; Added(Run(sv, ev[..|ev| - 1]), b, now)
  }

  /** The most recent word of type `id`. */
  function Latest(ev: seq<(Word, int)>, id: nat): Option<Word> {
    if ev == [] then None
    else if WordType(ev[|ev| - 1].0) == id then Some(ev[|ev| - 1].0)
    else Latest(ev[..|ev| - 1], id)
  }

  function LatestTime(ev: seq<(Word, int)>): int {
    if ev == [] then 0
    else if 1 <= WordType(ev[|ev| - 1].0) <= 5 then ev[|ev| - 1].1
    else LatestTime(ev[..|ev| - 1])
  }

  /** The satellite number in force: the last nonzero one a word of type 4 carried, and the
      number the assembly is filed under before that. */
  function Satellite(sv: nat, ev: seq<(Word, int)>): nat {
    if ev == [] then sv
    else
      var b := ev[|ev| - 1].0;
      if WordType(b) == 4 && U(b, 16, 6) > 0 then U(b, 16, 6) else Satellite(sv, ev[..|ev| - 1])
  }

  lemma FoldKeeps(e: Ephemeris, id: nat, b: Word, other: nat, c: Word, now: int)
    requires id != other && Holds(e, other, c)
    ensures Holds(Fold(e, id, b).(updated := now), other, c)
  {
    hide U, S;
  }

  lemma FoldSets(e: Ephemeris, id: nat, b: Word, now: int)
    ensures Holds(Fold(e, id, b).(updated := now), id, b)
    ensures Fold(e, id, b).sv == if id == 4 && U(b, 16, 6) > 0 then U(b, 16, 6) else e.sv
  {
    hide U, S;
  }

  lemma {:induction false} Tracks(sv: nat, ev: seq<(Word, int)>, id: nat)
    requires 1 <= id <= 5
    ensures var s := Run(sv, ev);
            && s.eph.sv == Satellite(sv, ev) && s.eph.updated == LatestTime(ev)
            && (id in s.have <==> Latest(ev, id).Some?)
            && (Latest(ev, id).Some? ==> Holds(s.eph, id, Latest(ev, id).value))
            && (Latest(ev, id).Some? && id <= 4 ==> IodOf(s, id) == Iod(Latest(ev, id).value))
  {
    hide Fold, Holds, WordType, U, Iod;
    if ev != [] {
      var (b, now) := ev[|ev| - 1];
      var before := Run(sv, ev[..|ev| - 1]);
      Tracks(sv, ev[..|ev| - 1], id);
      var k := WordType(b);
      FoldSets(before.eph, k, b, now);
      if k != id && Latest(ev, id).Some? {
        FoldKeeps(before.eph, k, b, id, Latest(ev, id).value, now);
      }
    }
  }

  /** Word types 1 to 4 carry one IODnav. */
  ghost predicate Agree(w1: Word, w2: Word, w3: Word, w4: Word) {
    w1[6..16] == w2[6..16] == w3[6..16] == w4[6..16]
  }

  lemma IssueOfData(w1: Word, w2: Word, w3: Word, w4: Word)
    ensures (Iod(w2) == Iod(w1) && Iod(w3) == Iod(w1) && Iod(w4) == Iod(w1)) <==> Agree(w1, w2, w3, w4)
  {
    hide U;
    SameField(w2, 6, w1, 6, 10);
    SameField(w3, 6, w1, 6, 10);
    SameField(w4, 6, w1, 6, 10);
  }

  /** In every run, a data set is complete exactly when the latest words 1 to 5 have all arrived
      and the first four share one IODnav; message 1046 is then cut from those words. */
  lemma ServedFromLatest(sv: nat, ev: seq<(Word, int)>)
    requires sv < U64
    ensures var s := Run(sv, ev);
            var l1, l2, l3, l4, l5 := Latest(ev, 1), Latest(ev, 2), Latest(ev, 3), Latest(ev, 4), Latest(ev, 5);
            && (Complete(s) <==> l1.Some? && l2.Some? && l3.Some? && l4.Some? && l5.Some?
                                 && Agree(l1.value, l2.value, l3.value, l4.value))
            && s.eph.updated == LatestTime(ev)
            && (Complete(s) ==>
                  && FieldsBits(Encode1046(s.eph))
                     == Concat(Parts1046(Satellite(sv, ev), l1.value, l2.value, l3.value, l4.value, l5.value))
                  && forall f :: f in Encode1046(s.eph) ==> InRange(f))
  {
    hide Fold, Holds, Run, Encode1046, Parts1046, FieldsBits, Concat, InRange, Agree, Latest, LatestTime, Satellite;
    hide IodOf, Iod;
    Tracks(sv, ev, 1);
    Tracks(sv, ev, 2);
    Tracks(sv, ev, 3);
    Tracks(sv, ev, 4);
    Tracks(sv, ev, 5);
    SatelliteSmall(sv, ev);
    var s := Run(sv, ev);
    var l1, l2, l3, l4, l5 := Latest(ev, 1), Latest(ev, 2), Latest(ev, 3), Latest(ev, 4), Latest(ev, 5);
    if l1.Some? && l2.Some? && l3.Some? && l4.Some? && l5.Some? {
      IssueOfData(l1.value, l2.value, l3.value, l4.value);
      MessageIsBroadcast(s.eph, l1.value, l2.value, l3.value, l4.value, l5.value);
    }
  }

  lemma {:induction false} SatelliteSmall(sv: nat, ev: seq<(Word, int)>)
    requires sv < U64
    ensures Satellite(sv, ev) < U64
  {
    hide Value, WordType;
    if ev != [] {
      UnsignedFits(ev[|ev| - 1].0[16..22]);
      SatelliteSmall(sv, ev[..|ev| - 1]);
    }
  }

  /** Words belong together when the ten bits of IODnav after the number of words 1 to 4 are the same. */
  lemma AgreeMeans(w1: Word, w2: Word, w3: Word, w4: Word)
    ensures Agree(w1, w2, w3, w4) <==> w2[6..16] == w1[6..16] && w3[6..16] == w1[6..16] && w4[6..16] == w1[6..16]
  {
  }

  // ---- where the numbers are, and which time counts

  /** The number of a word is written in its bits 0 to 5. */
  lemma NumberWritten(b: Word, id: nat)
    requires id < 64
    ensures WordType(b) == id <==> b[0..6] == Bits(id, 6)
  {
    hide Bits, Value, Pow2;
    assert b[0..0 + 6] == b[0..6];
    BitsOfValue(b[0..6]);
    ValueOfBits(id, 6);
    Pow2Values();
    SmallMod(id, 64);
  }

  /** The time of a data set is that of the latest word with a number from 1 to 5. */
  lemma {:induction false} TimeCounts(ev: seq<(Word, int)>, j: nat)
    requires j < |ev| && 1 <= WordType(ev[j].0) <= 5
    requires forall i :: j < i < |ev| ==> !(1 <= WordType(ev[i].0) <= 5)
    ensures LatestTime(ev) == ev[j].1
    decreases |ev|
  {
    hide WordType;
    if j < |ev| - 1 {
      TimeCounts(ev[..|ev| - 1], j);
    }
  }
}
