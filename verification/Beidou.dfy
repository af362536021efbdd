/** BeiDou D1 NAV: three subframes folded into one ephemeris and copied into RTCM 1042.
    Nothing ties the three together except that each has arrived, and the time of ephemeris
    is joined from two subframes at the moment the third one is folded. */
module Beidou {
  import opened BitSeq
  import opened BitPacking
  import opened Navigation
  import opened Outcomes

  /** The information bits of one subframe: 26 of word 1 and 22 of each of words 2 to 10. */
  type Subframe = b: seq<bool> | |b| == 224 witness Zeros(224)

  const PREAMBLE: nat := 0x712

  datatype Ephemeris = Ephemeris(
    sv: nat, week: nat, urai: nat, satH1: nat, aode: nat, aodc: nat, toc: nat, toe: nat,
    a0: int, a1: int, a2: int, tgd1: int, tgd2: int, deltaN: int, m0: int, e: nat, sqrtA: nat,
    cuc: int, cus: int, crc: int, crs: int, cic: int, cis: int, i0: int, idot: int,
    omega0: int, omega: int, omegaD: int, updated: int)

  const EMPTY := Ephemeris(0, 0, 0, 0, 0, 0, 0, 0, 0, 0, 0, 0, 0, 0, 0, 0, 0, 0, 0, 0, 0, 0, 0, 0, 0, 0, 0, 0, 0)

  function SubframeId(b: Subframe): nat {
    U(b, 15, 3)
  }

  predicate HasPreamble(b: Subframe) {
    U(b, 0, 11) == PREAMBLE
  }

  function Fold1(e: Ephemeris, b: Subframe): Ephemeris {
    e.(satH1 := U(b, 38, 1), aodc := U(b, 39, 5), urai := U(b, 44, 4), week := U(b, 48, 13), toc := U(b, 61, 17),
       tgd1 := S(b, 78, 10), tgd2 := S(b, 88, 10), a2 := S(b, 162, 11), a0 := S(b, 173, 24),
       a1 := S(b, 197, 22), aode := U(b, 219, 5))
  }

  function Fold2(e: Ephemeris, b: Subframe): Ephemeris {
    e.(deltaN := S(b, 38, 16), cuc := S(b, 54, 18), m0 := S(b, 72, 32), e := U(b, 104, 32), cus := S(b, 136, 18),
       crc := S(b, 154, 18), crs := S(b, 172, 18), sqrtA := U(b, 190, 32))
  }

  /** Everything subframe 3 sets except the time of ephemeris. */
  function Fold3(e: Ephemeris, b: Subframe): Ephemeris {
    e.(i0 := S(b, 53, 32), cic := S(b, 85, 18), omegaD := S(b, 103, 24), cis := S(b, 127, 18),
       idot := S(b, 145, 14), omega0 := S(b, 159, 32), omega := S(b, 191, 32))
  }

  function Fold(e: Ephemeris, id: nat, b: Subframe): Ephemeris {
    if id == 1 then Fold1(e, b) else if id == 2 then Fold2(e, b) else if id == 3 then Fold3(e, b) else e
  }

  /** Puts a split parameter back together: `hi << loBits | lo`. */
  function Joined(hi: nat, loBits: nat, lo: nat): nat {
    hi * Pow2(loBits) + lo
  }

  datatype State = State(eph: Ephemeris, have: set<nat>, toeHi: nat)

  function Added(s: State, b: Subframe, now: int): State {
    var id := SubframeId(b);
    var eph := Fold(s.eph, id, b).(updated := now);
    if id == 3 then State(eph.(toe := Joined(s.toeHi, 15, U(b, 38, 15))), s.have + {id}, s.toeHi)
    else if id == 2 then State(eph, s.have + {id}, U(b, 222, 2))
    else if id == 1 then State(eph, s.have + {id}, s.toeHi)
    else s
  }

  predicate Complete(s: State) {
    {1, 2, 3} <= s.have
  }

  // ---- recovering the information bits

  function InfoBits(words: seq<nat>): (b: seq<bool>)
    ensures words != [] ==> |b| == 4 + 22 * |words|
  {
    if words == [] then []
    else if |words| == 1 then Bits(words[0], 30)[..26]
    else InfoBits(words[..|words| - 1]) + Bits(words[|words| - 1], 30)[..22]
  }

  method WordBits(words: seq<nat>) returns (r: Option<seq<Byte>>)
    ensures r.Some? <==> |words| >= 10
    ensures r.Some? ==> DataBits(r.value) == InfoBits(words[..10])
  {
    hide DataBits, Bits, Packed;
    if |words| < 10 {
      return None;
    }
    var out := new BitWriter();
    PutTop(out, words[0], 26);
    var w := 1;
    while w < 10
      invariant 1 <= w <= 10 && out.Valid() && fresh(out)
      invariant out.written == InfoBits(words[..w])
    {
      assert words[..w + 1][..w] == words[..w];
      PutTop(out, words[w], 22);
      w := w + 1;
    }
    PackedFull(out.buf, out.written);
    return Some(out.buf);
  }

  /** The top `n` bits of a 30-bit word. */
  method PutTop(out: BitWriter, word: nat, n: nat)
    requires out.Valid() && n <= 30
    modifies out
    ensures out.Valid() && out.written == old(out.written) + Bits(word, 30)[..n]
  {
    hide DataBits, Bits, Packed;
    var v := word % 0x4000_0000;
    Word30(word);
    ghost var f := Bits(word, 30);
    var i := 29;
    while i >= 30 - n
      invariant 29 - n <= i <= 29 && out.Valid()
      invariant out.written == old(out.written) + f[..29 - i]
    {
      BitsAt(v, 30, 29 - i);
      out.PutBit(Shr(v, i) % 2 == 1);
      assert f[..30 - i] == f[..29 - i] + [f[29 - i]];
      i := i - 1;
    }
  }

  lemma Word30(w: nat)
    ensures Bits(w % 0x4000_0000, 30) == Bits(w, 30)
  {
    hide Bits, Pow2;
    Pow2Values();
    BitsMod(w % 0x4000_0000, w, 30);
  }

  class Assembly {
    var eph: Ephemeris
    var have: set<nat>
    var toeHi: nat

    ghost function View(): State
      reads this
    {
      State(eph, have, toeHi)
    }

    constructor (sv: nat)
      ensures View() == State(EMPTY.(sv := sv), {}, 0)
    {
      eph, have, toeHi := EMPTY.(sv := sv), {}, 0;
    }

    method AddSubframe(words: seq<nat>, now: int) returns (id: nat, err: bool)
      modifies this
      ensures err <==> |words| < 10 || !HasPreamble(InfoBits(words[..10]))
      ensures View() == if err then old(View()) else Added(old(View()), InfoBits(words[..10]), now)
      ensures !err ==> id == SubframeId(InfoBits(words[..10]))
    {
      hide DataBits, Bits, InfoBits, U, S, Pow2;
      var buf := WordBits(words);
      if buf.None? {
        return 0, true;
      }
      var b: Subframe := DataBits(buf.value);
      if U(b, 0, 11) != PREAMBLE {
        return 0, true;
      }
      id, err := SubframeId(b), false;
      if id == 1 {
        eph := Fold1(eph, b);
      } else if id == 2 {
        eph := Fold2(eph, b);
        toeHi := U(b, 222, 2);
      } else if id == 3 {
        eph := Fold3(eph, b).(toe := Joined(toeHi, 15, U(b, 38, 15)));
      } else {
        return;
      }
      have := have + {id};
      eph := eph.(updated := now);
    }
  }

  // ---- RTCM 1042

  function Encode1042(e: Ephemeris): seq<Field> {
    [Unsigned(1042, 12), Unsigned(e.sv, 6), Unsigned(e.week, 13), Unsigned(e.urai, 4), Signed(e.idot, 14),
     Unsigned(e.aode, 5), Unsigned(e.toc, 17), Signed(e.a2, 11), Signed(e.a1, 22), Signed(e.a0, 24),
     Unsigned(e.aodc, 5), Signed(e.crs, 18), Signed(e.deltaN, 16), Signed(e.m0, 32), Signed(e.cuc, 18),
     Unsigned(e.e, 32), Signed(e.cus, 18), Unsigned(e.sqrtA, 32), Unsigned(e.toe, 17), Signed(e.cic, 18),
     Signed(e.omega0, 32), Signed(e.cis, 18), Signed(e.i0, 32), Signed(e.crc, 18), Signed(e.omega, 32),
     Signed(e.omegaD, 24), Signed(e.tgd1, 10), Signed(e.tgd2, 10), Unsigned(e.satH1, 1)]
  }

  /** Message 1042 as slices of the broadcast subframes; `hi` are the two leading bits of the
      time of ephemeris. */
  ghost function Parts1042(sv: nat, s1: Subframe, s2: Subframe, s3: Subframe, hi: seq<bool>): seq<seq<bool>> {
    [Bits(1042, 12), Bits(sv, 6), s1[48..61], s1[44..48], s3[145..159],
     s1[219..224], s1[61..78], s1[162..173], s1[197..219], s1[173..197],
     s1[39..44], s2[172..190], s2[38..54], s2[72..104], s2[54..72],
     s2[104..136], s2[136..154], s2[190..222], hi + s3[38..53], s3[85..103],
     s3[159..191], s3[127..145], s3[53..85], s2[154..172], s3[191..223],
     s3[103..127], s1[78..88], s1[88..98], s1[38..39]]
  }

  /** The parts in the order of the message, each with its subframe and its bits there. */
  lemma Layout1042(sv: nat, s1: Subframe, s2: Subframe, s3: Subframe, hi: seq<bool>)
    ensures Parts1042(sv, s1, s2, s3, hi)
            == [Bits(1042, 12), Bits(sv, 6), s1[48..61], s1[44..48], s3[145..159],
                s1[219..224], s1[61..78], s1[162..173], s1[197..219], s1[173..197],
                s1[39..44], s2[172..190], s2[38..54], s2[72..104], s2[54..72],
                s2[104..136], s2[136..154], s2[190..222], hi + s3[38..53], s3[85..103],
                s3[159..191], s3[127..145], s3[53..85], s2[154..172], s3[191..223],
                s3[103..127], s1[78..88], s1[88..98], s1[38..39]]
  {
  }

  /** Field widths of message 1042. */
  const WIDTHS: seq<nat> := [12, 6, 13, 4, 14, 5, 17, 11, 22, 24, 5, 18, 16, 32, 18,
                             32, 18, 32, 17, 18, 32, 18, 32, 18, 32, 24, 10, 10, 1]

  ghost predicate Holds(e: Ephemeris, id: nat, b: Subframe) {
    Fold(e, id, b) == e
  }

  lemma Copy1(e: Ephemeris, b: Subframe)
    requires Holds(e, 1, b)
    ensures Copied(Unsigned(e.satH1, 1), b[38..39]) && Copied(Unsigned(e.aodc, 5), b[39..44])
    ensures Copied(Unsigned(e.urai, 4), b[44..48]) && Copied(Unsigned(e.week, 13), b[48..61])
    ensures Copied(Unsigned(e.toc, 17), b[61..78]) && Copied(Signed(e.tgd1, 10), b[78..88])
    ensures Copied(Signed(e.tgd2, 10), b[88..98]) && Copied(Signed(e.a2, 11), b[162..173])
    ensures Copied(Signed(e.a0, 24), b[173..197]) && Copied(Signed(e.a1, 22), b[197..219])
    ensures Copied(Unsigned(e.aode, 5), b[219..224])
  {
    hide Copied, U, S;
    UField(b, 38, 1); UField(b, 39, 5); UField(b, 44, 4); UField(b, 48, 13); UField(b, 61, 17); SField(b, 78, 10);
    SField(b, 88, 10); SField(b, 162, 11); SField(b, 173, 24); SField(b, 197, 22); UField(b, 219, 5);
  }

  lemma Copy2(e: Ephemeris, b: Subframe)
    requires Holds(e, 2, b)
    ensures Copied(Signed(e.deltaN, 16), b[38..54]) && Copied(Signed(e.cuc, 18), b[54..72])
    ensures Copied(Signed(e.m0, 32), b[72..104]) && Copied(Unsigned(e.e, 32), b[104..136])
    ensures Copied(Signed(e.cus, 18), b[136..154]) && Copied(Signed(e.crc, 18), b[154..172])
    ensures Copied(Signed(e.crs, 18), b[172..190]) && Copied(Unsigned(e.sqrtA, 32), b[190..222])
  {
    hide Copied, U, S;
    SField(b, 38, 16); SField(b, 54, 18); SField(b, 72, 32); UField(b, 104, 32); SField(b, 136, 18);
    SField(b, 154, 18); SField(b, 172, 18); UField(b, 190, 32);
  }

  lemma Copy3(e: Ephemeris, b: Subframe)
    requires Holds(e, 3, b)
    ensures Copied(Signed(e.i0, 32), b[53..85]) && Copied(Signed(e.cic, 18), b[85..103])
    ensures Copied(Signed(e.omegaD, 24), b[103..127]) && Copied(Signed(e.cis, 18), b[127..145])
    ensures Copied(Signed(e.idot, 14), b[145..159]) && Copied(Signed(e.omega0, 32), b[159..191])
    ensures Copied(Signed(e.omega, 32), b[191..223])
  {
    hide Copied, U, S;
    SField(b, 53, 32); SField(b, 85, 18); SField(b, 103, 24); SField(b, 127, 18); SField(b, 145, 14);
    SField(b, 159, 32); SField(b, 191, 32);
  }

  lemma CopyToe(hi: seq<bool>, b: Subframe)
    requires |hi| == 2
    ensures Copied(Unsigned(Joined(Value(hi), 15, U(b, 38, 15)), 17), hi + b[38..53])
  {
    hide Value, Pow2, Bits;
    ValueConcat(hi, b[38..53]);
    UnsignedCopied(hi + b[38..53]);
    UnsignedFits(hi + b[38..53]);
  }

  lemma EveryFieldCopied(e: Ephemeris, s1: Subframe, s2: Subframe, s3: Subframe, hi: seq<bool>)
    requires Holds(e, 1, s1) && Holds(e, 2, s2) && Holds(e, 3, s3) && e.sv < U64
    requires |hi| == 2 && e.toe == Joined(Value(hi), 15, U(s3, 38, 15))
    ensures var fs, parts := Encode1042(e), Parts1042(e.sv, s1, s2, s3, hi);
            |fs| == |parts| && forall k :: 0 <= k < |fs| ==> Copied(fs[k], parts[k])
  {
    hide FieldBits, InRange, U, S, Bits, Fold, Copied, Holds, Joined, Value;
    Copy1(e, s1);
    Copy2(e, s2);
    Copy3(e, s3);
    CopyToe(hi, s3);
    CopyNumber(1042, 12);
    CopyNumber(e.sv, 6);
    var fs, parts := Encode1042(e), Parts1042(e.sv, s1, s2, s3, hi);
    forall k | 0 <= k < |fs| ensures Copied(fs[k], parts[k]) {
      if k < 15 {
      } else {
      }
    }
  }

  lemma MessageIsBroadcast(e: Ephemeris, s1: Subframe, s2: Subframe, s3: Subframe, hi: seq<bool>)
    requires Holds(e, 1, s1) && Holds(e, 2, s2) && Holds(e, 3, s3) && e.sv < U64
    requires |hi| == 2 && e.toe == Joined(Value(hi), 15, U(s3, 38, 15))
    ensures FieldsBits(Encode1042(e)) == Concat(Parts1042(e.sv, s1, s2, s3, hi))
    ensures forall f :: f in Encode1042(e) ==> InRange(f)
  {
    hide FieldBits, InRange, Encode1042, Parts1042, Fold, Joined;
    EveryFieldCopied(e, s1, s2, s3, hi);
    FieldsAreParts(Encode1042(e), Parts1042(e.sv, s1, s2, s3, hi));
  }

  lemma MessageLength(sv: nat, s1: Subframe, s2: Subframe, s3: Subframe, hi: seq<bool>)
    requires |hi| == 2
    ensures |Concat(Parts1042(sv, s1, s2, s3, hi))| == 511
  {
    hide Bits, Sum, Concat;
    TotalWidth(Parts1042(sv, s1, s2, s3, hi), WIDTHS);
    Length511();
  }

  lemma Length511()
    ensures Sum(WIDTHS) == 511
  {
    hide Sum;
    SumPadded(WIDTHS, 3);
  }

  // ---- whole runs

  function Run(sv: nat, ev: seq<(Subframe, int)>): State {
    if ev == [] then State(EMPTY.(sv := sv), {}, 0)
    else var (b, now) := ev[|ev| - 1]; Added(Run(sv, ev[..|ev| - 1]), b, now)
  }

  function Latest(ev: seq<(Subframe, int)>, id: nat): Option<Subframe> {
    if ev == [] then None
    else if SubframeId(ev[|ev| - 1].0) == id then Some(ev[|ev| - 1].0)
    else Latest(ev[..|ev| - 1], id)
  }

  function LatestTime(ev: seq<(Subframe, int)>): int {
    if ev == [] then 0
    else if 1 <= SubframeId(ev[|ev| - 1].0) <= 3 then ev[|ev| - 1].1
    else LatestTime(ev[..|ev| - 1])
  }

  /** The leading bits of the time of ephemeris that the latest subframe 2 carries. */
  function ToeTop(ev: seq<(Subframe, int)>): (hi: seq<bool>)
    ensures |hi| == 2
  {
    match Latest(ev, 2)
    case Some(b) => b[222..224]
    case None => Zeros(2)
  }

  /** The leading bits that were in force when the latest subframe 3 was folded. */
  function ToeTopUsed(ev: seq<(Subframe, int)>): (hi: seq<bool>)
    ensures |hi| == 2
  {
    if ev == [] then Zeros(2)
    else if SubframeId(ev[|ev| - 1].0) == 3 then ToeTop(ev[..|ev| - 1])
    else ToeTopUsed(ev[..|ev| - 1])
  }

  lemma FoldKeeps(e: Ephemeris, id: nat, b: Subframe, other: nat, c: Subframe, now: int, toe: nat)
    requires id != other && Holds(e, other, c)
    ensures Holds(Fold(e, id, b).(updated := now), other, c)
    ensures Holds(Fold(e, id, b).(updated := now).(toe := toe), other, c)
  {
    hide U, S;
  }

  lemma FoldSets(e: Ephemeris, id: nat, b: Subframe, now: int, toe: nat)
    ensures Holds(Fold(e, id, b).(updated := now), id, b)
    ensures Holds(Fold(e, id, b).(updated := now).(toe := toe), id, b)
    ensures Fold(e, id, b).sv == e.sv && Fold(e, id, b).toe == e.toe
  {
    hide U, S;
  }

  lemma {:induction false} Tracks(sv: nat, ev: seq<(Subframe, int)>, id: nat)
    requires 1 <= id <= 3
    ensures var s := Run(sv, ev);
            && s.eph.sv == sv && s.eph.updated == LatestTime(ev)
            && (id in s.have <==> Latest(ev, id).Some?)
            && (Latest(ev, id).Some? ==> Holds(s.eph, id, Latest(ev, id).value))
  {
    hide Fold, Holds, SubframeId, U, Joined;
    if ev != [] {
      var (b, now) := ev[|ev| - 1];
      var before := Run(sv, ev[..|ev| - 1]);
      Tracks(sv, ev[..|ev| - 1], id);
      var k, toe := SubframeId(b), Joined(before.toeHi, 15, U(b, 38, 15));
      FoldSets(before.eph, k, b, now, toe);
      if k != id && Latest(ev, id).Some? {
        FoldKeeps(before.eph, k, b, id, Latest(ev, id).value, now, toe);
      }
    }
  }

  lemma {:induction false} TracksToe(sv: nat, ev: seq<(Subframe, int)>)
    ensures var s := Run(sv, ev);
            && s.toeHi == Value(ToeTop(ev))
            && (Latest(ev, 3).Some? ==> s.eph.toe == Joined(Value(ToeTopUsed(ev)), 15, U(Latest(ev, 3).value, 38, 15)))
  {
    hide Fold, Holds, SubframeId, Joined, Value;
    if ev == [] {
      ZerosValue(2);
    } else {
      var (b, now) := ev[|ev| - 1];
      var before := Run(sv, ev[..|ev| - 1]);
      TracksToe(sv, ev[..|ev| - 1]);
      FoldSets(before.eph, SubframeId(b), b, now, 0);
    }
  }

  /** In every run, a data set is served as soon as the latest subframes 1, 2 and 3 have arrived,
      whatever issue of data they belong to, and message 1042 is cut from them, except that the
      time of ephemeris starts with the bits in force when subframe 3 was folded. */
  lemma ServedFromLatest(sv: nat, ev: seq<(Subframe, int)>)
    requires sv < U64
    ensures var s := Run(sv, ev);
            var l1, l2, l3 := Latest(ev, 1), Latest(ev, 2), Latest(ev, 3);
            && (Complete(s) <==> l1.Some? && l2.Some? && l3.Some?)
            && s.eph.updated == LatestTime(ev)
            && (Complete(s) ==>
                  && FieldsBits(Encode1042(s.eph))
                     == Concat(Parts1042(sv, l1.value, l2.value, l3.value, ToeTopUsed(ev)))
                  && forall f :: f in Encode1042(s.eph) ==> InRange(f))
  {
    hide Fold, Holds, Run, Encode1042, Parts1042, FieldsBits, Concat, InRange, Latest, LatestTime, Joined, ToeTopUsed;
    Tracks(sv, ev, 1);
    Tracks(sv, ev, 2);
    Tracks(sv, ev, 3);
    TracksToe(sv, ev);
    var s := Run(sv, ev);
    var l1, l2, l3 := Latest(ev, 1), Latest(ev, 2), Latest(ev, 3);
    if l1.Some? && l2.Some? && l3.Some? {
      MessageIsBroadcast(s.eph, l1.value, l2.value, l3.value, ToeTopUsed(ev));
    }
  }

  /** `j` is the last subframe with number `id`. */
  ghost predicate LastAt(ev: seq<(Subframe, int)>, id: nat, j: nat) {
    j < |ev| && SubframeId(ev[j].0) == id && forall i :: j < i < |ev| ==> SubframeId(ev[i].0) != id
  }

  /** In every run, the leading bits used are those of the latest subframe 2 before the latest
      subframe 3, whatever came after. */
  lemma {:induction false} ToeTopAt(ev: seq<(Subframe, int)>, j: nat)
    requires LastAt(ev, 3, j)
    ensures ToeTopUsed(ev) == ToeTop(ev[..j])
    decreases |ev|
  {
    hide SubframeId, ToeTop;
    var n := |ev| - 1;
    if j < n {
      assert ev[..n][..j] == ev[..j];
      ToeTopAt(ev[..n], j);
    }
  }

  /** With no subframe 2 after it, the latest subframe 3 was joined with the latest subframe 2. */
  lemma {:induction false} ToeInOrder(ev: seq<(Subframe, int)>, j: nat)
    requires j <= |ev| && forall i :: j <= i < |ev| ==> SubframeId(ev[i].0) != 2
    ensures ToeTop(ev[..j]) == ToeTop(ev)
    decreases |ev|
  {
    hide SubframeId;
    var n := |ev| - 1;
    if j == |ev| {
      assert ev[..j] == ev;
    } else {
      assert ev[..n][..j] == ev[..j];
      ToeInOrder(ev[..n], j);
    }
  }

  /** In every run, the message served is the one of the latest subframes 1, 2 and 3, their time of
      ephemeris included, exactly when the leading bits have not changed since the latest
      subframe 3; otherwise it joins two broadcasts. */
  lemma ToeMixed(sv: nat, ev: seq<(Subframe, int)>, j: nat)
    requires sv < U64 && LastAt(ev, 3, j) && Complete(Run(sv, ev))
    ensures Latest(ev, 1).Some? && Latest(ev, 2).Some? && Latest(ev, 3).Some?
    ensures FieldsBits(Encode1042(Run(sv, ev).eph))
         == Concat(Parts1042(sv, Latest(ev, 1).value, Latest(ev, 2).value, Latest(ev, 3).value, ToeTop(ev)))
       <==> ToeTop(ev[..j]) == ToeTop(ev)
  {
    hide Run, Encode1042, Parts1042, FieldsBits, Concat, Latest, ToeTop, ToeTopUsed, InRange, LatestTime, SubframeId;
    ServedFromLatest(sv, ev);
    ToeTopAt(ev, j);
    TopShows(sv, Latest(ev, 1).value, Latest(ev, 2).value, Latest(ev, 3).value, ToeTop(ev[..j]), ToeTop(ev));
  }

  /** The message shows the leading bits. */
  lemma TopShows(sv: nat, s1: Subframe, s2: Subframe, s3: Subframe, hi: seq<bool>, lo: seq<bool>)
    requires |hi| == |lo| == 2
    ensures Concat(Parts1042(sv, s1, s2, s3, hi)) == Concat(Parts1042(sv, s1, s2, s3, lo)) <==> hi == lo
  {
    hide Concat, Bits;
    var p, q := Parts1042(sv, s1, s2, s3, hi), Parts1042(sv, s1, s2, s3, lo);
    var m, n := hi + s3[38..53], lo + s3[38..53];
    assert p == p[..18] + [m] + p[19..] && q == p[..18] + [n] + p[19..];
    SameMiddle(p[..18], m, n, p[19..]);
    assert m[..2] == hi && n[..2] == lo;
  }

  /** A subframe with a number and leading bits of the time of ephemeris, and zeros otherwise. */
  function Sample(id: nat, hi: bool): Subframe {
    Bits(PREAMBLE, 11) + Zeros(4) + Bits(id, 3) + Zeros(204) + [hi, hi]
  }

  lemma SampleIs(id: nat, hi: bool)
    requires id < 8
    ensures HasPreamble(Sample(id, hi)) && SubframeId(Sample(id, hi)) == id && Sample(id, hi)[222..224] == [hi, hi]
  {
    hide Bits, Zeros, Value;
    var b := Sample(id, hi);
    assert b[0..11] == Bits(PREAMBLE, 11) && b[15..15 + 3] == Bits(id, 3);
    ValueOfBits(id, 3);
    ValueOfBits(PREAMBLE, 11);
    Pow2Values();
    SmallMod(id, 8);
    SmallMod(PREAMBLE, 2048);
  }

  /** Subframes 1 to 5 of one data set, then 1 and 2 of the next. */
  function NextSet(): (ev: seq<(Subframe, int)>)
    ensures |ev| == 7
  {
    [(Sample(1, false), 0), (Sample(2, false), 0), (Sample(3, false), 0), (Sample(4, false), 0),
     (Sample(5, false), 0), (Sample(1, false), 0), (Sample(2, true), 0)]
  }

  /** The broadcast order mixes: once subframe 2 of a new data set has arrived, the message served
      has its orbit terms but the old leading bits of the time of ephemeris. */
  lemma MixedBroadcast(sv: nat)
    requires sv < U64
    ensures var ev := NextSet();
            && (forall i :: 0 <= i < 7 ==> HasPreamble(ev[i].0) && SubframeId(ev[i].0) == [1, 2, 3, 4, 5, 1, 2][i])
            && LastAt(ev, 3, 2) && ToeTop(ev[..2]) != ToeTop(ev) && Complete(Run(sv, ev))
            && Latest(ev, 1).Some? && Latest(ev, 2).Some? && Latest(ev, 3).Some?
            && FieldsBits(Encode1042(Run(sv, ev).eph))
               != Concat(Parts1042(sv, Latest(ev, 1).value, Latest(ev, 2).value, Latest(ev, 3).value, ToeTop(ev)))
  {
    hide Run, Encode1042, Parts1042, FieldsBits, Concat, SubframeId, Sample, InRange, HasPreamble;
    SampleIs(1, false);
    SampleIs(2, false);
    SampleIs(3, false);
    SampleIs(4, false);
    SampleIs(5, false);
    SampleIs(2, true);
    LatestSeven(NextSet());
    ServedFromLatest(sv, NextSet());
    ToeMixed(sv, NextSet(), 2);
  }

  /** The latest subframes of a run in broadcast order. */
  lemma LatestSeven(ev: seq<(Subframe, int)>)
    requires |ev| == 7 && SubframeId(ev[6].0) == 2 && SubframeId(ev[5].0) == 1 && SubframeId(ev[4].0) == 5
    requires SubframeId(ev[3].0) == 4 && SubframeId(ev[2].0) == 3 && SubframeId(ev[1].0) == 2
    ensures Latest(ev, 1) == Some(ev[5].0) && Latest(ev, 2) == Some(ev[6].0) && Latest(ev, 3) == Some(ev[2].0)
    ensures LastAt(ev, 3, 2) && ToeTop(ev) == ev[6].0[222..224] && ToeTop(ev[..2]) == ev[1].0[222..224]
  {
    hide SubframeId;
    LatestAt(ev, 1, 5);
    LatestAt(ev, 2, 6);
    LatestAt(ev, 3, 2);
    LatestAt(ev[..2], 2, 1);
  }

  lemma {:induction false} LatestAt(ev: seq<(Subframe, int)>, id: nat, j: nat)
    requires LastAt(ev, id, j)
    ensures Latest(ev, id) == Some(ev[j].0)
    decreases |ev|
  {
    hide SubframeId;
    var n := |ev| - 1;
    if j < n {
      LatestAt(ev[..n], id, j);
    }
  }

  // ---- where the numbers are, and which time counts

  /** The number of a subframe is written in its bits 15 to 17. */
  lemma NumberWritten(b: Subframe, id: nat)
    requires id < 8
    ensures SubframeId(b) == id <==> b[15..18] == Bits(id, 3)
  {
    hide Bits, Value, Pow2;
    assert b[15..15 + 3] == b[15..18];
    BitsOfValue(b[15..18]);
    ValueOfBits(id, 3);
    Pow2Values();
    SmallMod(id, 8);
  }

  /** The time of a data set is that of the latest subframe with a number from 1 to 3. */
  lemma {:induction false} TimeCounts(ev: seq<(Subframe, int)>, j: nat)
    requires j < |ev| && 1 <= SubframeId(ev[j].0) <= 3
    requires forall i :: j < i < |ev| ==> !(1 <= SubframeId(ev[i].0) <= 3)
    ensures LatestTime(ev) == ev[j].1
    decreases |ev|
  {
    hide SubframeId;
    if j < |ev| - 1 {
      TimeCounts(ev[..|ev| - 1], j);
    }
  }
}
