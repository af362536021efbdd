/** The frame filter of an output: selection by protocol and type, and decimation. Times are
    nanoseconds. */
module Filtering {
  import opened Streams
  import opened Outcomes

  const SECOND: nat := 1_000_000_000

  datatype Spec = Spec(typ: int, interval: int)

  /** A filter's settings and, for each decimated type, when it last let one through. */
  datatype FilterState = FilterState(proto: Proto, allow: Option<map<int, int>>, last: map<int, int>)

  datatype Seen = Seen(frame: Frame, now: int)

  predicate Selects(f: FilterState, fr: Frame) {
    (f.proto == Unknown || fr.proto == f.proto) && (f.allow.Some? ==> fr.typ in f.allow.value)
  }

  /** The spacing asked for a frame's type; 0 for none. */
  function Spacing(f: FilterState, fr: Frame): int {
    if f.allow.Some? && fr.typ in f.allow.value then f.allow.value[fr.typ] else 0
  }

  predicate Passes(f: FilterState, e: Seen) {
    && Selects(f, e.frame)
    && (Spacing(f, e.frame) != 0 && e.frame.typ in f.last ==>
          e.now - f.last[e.frame.typ] >= Spacing(f, e.frame))
  }

  function Noted(f: FilterState, e: Seen): FilterState {
    if Passes(f, e) && Spacing(f, e.frame) != 0 then f.(last := f.last[e.frame.typ := e.now]) else f
  }

  function NotedAll(f: FilterState, es: seq<Seen>): FilterState {
    if es == [] then f else Noted(NotedAll(f, es[..|es| - 1]), es[|es| - 1])
  }

  /** Whether the filter lets the i-th frame of a run through. */
  predicate PassedAt(f: FilterState, es: seq<Seen>, i: nat)
    requires i < |es|
  {
    Passes(NotedAll(f, es[..i]), es[i])
  }

  ghost predicate InTime(es: seq<Seen>) {
    forall i, j :: 0 <= i <= j < |es| ==> es[i].now <= es[j].now
  }

  lemma {:induction false} SettingsKept(f: FilterState, es: seq<Seen>)
    ensures NotedAll(f, es).proto == f.proto && NotedAll(f, es).allow == f.allow
    decreases |es|
  {
    if es != [] {
      SettingsKept(f, es[..|es| - 1]);
    }
  }

  /** The last emission of a decimated type is on record, and it is the latest. */
  lemma {:induction false} LastNoted(f: FilterState, es: seq<Seen>, typ: int, n: nat) returns (i: int)
    requires n <= |es| && InTime(es)
    ensures i < n
    ensures i < 0 ==> (typ in NotedAll(f, es[..n]).last <==> typ in f.last)
    ensures i < 0 && typ in f.last ==> NotedAll(f, es[..n]).last[typ] == f.last[typ]
    ensures i >= 0 ==> && es[i].frame.typ == typ && PassedAt(f, es, i) && Spacing(f, es[i].frame) != 0
                       && typ in NotedAll(f, es[..n]).last && NotedAll(f, es[..n]).last[typ] == es[i].now
    ensures forall j: nat :: j < n && es[j].frame.typ == typ && PassedAt(f, es, j) && Spacing(f, es[j].frame) != 0 ==>
            j <= i
    decreases n
  {
    hide Passes, Spacing;
    if n == 0 {
      i := -1;
    } else {
      i := LastNoted(f, es, typ, n - 1);
      assert es[..n][..n - 1] == es[..n - 1];
      SettingsKept(f, es[..n - 1]);
      SpacingKept(f, NotedAll(f, es[..n - 1]), es[n - 1].frame);
      if es[n - 1].frame.typ == typ && PassedAt(f, es, n - 1) && Spacing(f, es[n - 1].frame) != 0 {
        i := n - 1;
      }
    }
  }

  lemma SpacingKept(f: FilterState, g: FilterState, fr: Frame)
    requires f.proto == g.proto && f.allow == g.allow
    ensures Spacing(f, fr) == Spacing(g, fr) && Selects(f, fr) == Selects(g, fr)
  {
  }

  /** Two emissions of one decimated type are at least its interval apart. */
  lemma SpacedApart(f: FilterState, es: seq<Seen>, i: nat, j: nat)
    requires i < j < |es| && InTime(es)
    requires es[i].frame.typ == es[j].frame.typ && PassedAt(f, es, i) && PassedAt(f, es, j)
    requires Spacing(f, es[j].frame) > 0
    ensures es[j].now - es[i].now >= Spacing(f, es[j].frame)
  {
    assert Spacing(f, es[i].frame) == Spacing(f, es[j].frame);
    var k := LastNoted(f, es, es[j].frame.typ, j);
    SettingsKept(f, es[..j]);
    SpacingKept(f, NotedAll(f, es[..j]), es[j].frame);
    assert i <= k;
    assert es[i].now <= es[k].now;
  }

  /** A selected frame is held back only when one of its type went out less than its interval
      before. */
  lemma NoneDueSkipped(f: FilterState, es: seq<Seen>, j: nat) returns (i: nat)
    requires j < |es| && InTime(es) && f.last == map[]
    requires Selects(f, es[j].frame) && !PassedAt(f, es, j)
    ensures i < j && es[i].frame.typ == es[j].frame.typ && PassedAt(f, es, i)
    ensures es[j].now - es[i].now < Spacing(f, es[j].frame)
  {
    var k := LastNoted(f, es, es[j].frame.typ, j);
    SettingsKept(f, es[..j]);
    SpacingKept(f, NotedAll(f, es[..j]), es[j].frame);
    i := k;
  }

  // ---- building a filter

  predicate Wrong(s: Spec) { s.typ == 0 || s.interval < 0 }

  function Interval(s: Spec): int { if s.interval <= 1 then 0 else s.interval * SECOND }

  /** An interval of one second or less is no decimation; otherwise it counts nanoseconds. */
  lemma Intervals(s: Spec)
    ensures s.interval <= 1 ==> Interval(s) == 0
    ensures s.interval > 1 ==> Interval(s) == s.interval * 1_000_000_000
  {
  }

  /** The last specification of a type wins. */
  ghost predicate Allows(allow: map<int, int>, specs: seq<Spec>) {
    && (forall t :: t in allow <==> exists i :: 0 <= i < |specs| && specs[i].typ == t)
    && (forall i :: 0 <= i < |specs| && (forall j :: i < j < |specs| ==> specs[j].typ != specs[i].typ) ==>
          specs[i].typ in allow && allow[specs[i].typ] == Interval(specs[i]))
  }

  class Filter {
    const proto: Proto
    const allow: Option<map<int, int>>
    var last: map<int, int>

    function State(): FilterState
      reads this
    {
      FilterState(proto, allow, last)
    }

    constructor (p: Proto, a: Option<map<int, int>>)
      ensures State() == FilterState(p, a, map[])
    {
      proto, allow, last := p, a, map[];
    }

    /** Whether to forward the frame; an emission of a decimated type is remembered. */
    method Pass(fr: Frame, now: int) returns (ok: bool)
      modifies this`last
      ensures ok == Passes(old(State()), Seen(fr, now))
      ensures ok <==>
              && (proto == Unknown || fr.proto == proto)
              && (allow.None?
                  || (fr.typ in allow.value
                      && (allow.value[fr.typ] == 0 || fr.typ !in old(last)
                          || now - old(last)[fr.typ] >= allow.value[fr.typ])))
      ensures last == if ok && allow.Some? && allow.value[fr.typ] != 0 then old(last)[fr.typ := now] else old(last)
      ensures State() == Noted(old(State()), Seen(fr, now))
    {
      if proto != Unknown && fr.proto != proto {
        return false;
      }
      if allow.None? {
        return true;
      }
      if fr.typ !in allow.value {
        return false;
      }
      var iv := allow.value[fr.typ];
      if iv == 0 {
        return true;
      }
      if fr.typ in last && now - last[fr.typ] < iv {
        return false;
      }
      last := last[fr.typ := now];
      return true;
    }
  }

  /** Builds a filter from message selections, refusing a zero type or a negative interval. */
  method NewFilter(p: Proto, specs: seq<Spec>) returns (f: Filter?)
    ensures f == null <==> exists i :: 0 <= i < |specs| && Wrong(specs[i])
    ensures f != null ==> fresh(f) && f.proto == p && f.last == map[] && f.allow.Some? && Allows(f.allow.value, specs)
    ensures f != null ==> forall t :: t in f.allow.value ==> f.allow.value[t] >= 0
  {
    var a: map<int, int> := map[];
    var i := 0;
    while i < |specs|
      invariant 0 <= i <= |specs| && Allows(a, specs[..i])
      invariant forall j :: 0 <= j < i ==> !Wrong(specs[j])
      invariant forall t :: t in a ==> a[t] >= 0
    {
      if Wrong(specs[i]) {
        return null;
      }
      AllowsMore(a, specs, i);
      a := a[specs[i].typ := Interval(specs[i])];
      i := i + 1;
    }
    assert specs[..i] == specs;
    f := new Filter(p, Some(a));
  }

  lemma AllowsMore(a: map<int, int>, specs: seq<Spec>, n: nat)
    requires n < |specs| && Allows(a, specs[..n])
    ensures Allows(a[specs[n].typ := Interval(specs[n])], specs[..n + 1])
  {
    hide Interval;
    var b, old', new' := a[specs[n].typ := Interval(specs[n])], specs[..n], specs[..n + 1];
    forall t ensures t in b <==> exists i :: 0 <= i < n + 1 && new'[i].typ == t {
      if t in a {
        var i :| 0 <= i < n && old'[i].typ == t;
        assert new'[i].typ == t;
      }
      if t == specs[n].typ {
        assert new'[n].typ == t;
      }
      if i :| 0 <= i < n + 1 && new'[i].typ == t {
        if i < n {
          assert old'[i].typ == t;
        }
      }
    }
    forall i | 0 <= i < n + 1 && (forall j :: i < j < n + 1 ==> new'[j].typ != new'[i].typ)
      ensures new'[i].typ in b && b[new'[i].typ] == Interval(new'[i])
    {
      if i < n {
        assert new'[n].typ != new'[i].typ;
        forall j | i < j < n ensures old'[j].typ != old'[i].typ {
          assert new'[j].typ != new'[i].typ;
        }
      }
    }
  }
}
