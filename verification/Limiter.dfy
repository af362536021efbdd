/** The swept token-bucket table of the web front end against plain buckets that are never
    deleted. Times are seconds. */
module Limiter {
  datatype Bucket = Bucket(tokens: real, at: real)

  datatype Rates = Rates(rate: real, burst: real)

  predicate Sensible(r: Rates) { r.rate > 0.0 && r.burst > 0.0 }

  function Capped(x: real, cap: real): real { if x > cap then cap else x }

  function Inflow(r: Rates, from: real, to: real): real { (to - from) * r.rate }

  /** What a bucket holds at a later time. */
  function Level(r: Rates, b: Bucket, now: real): real {
    Capped(b.tokens + Inflow(r, b.at, now), r.burst)
  }

  /** A bucket fills at the rate, and no further than the burst. */
  lemma Fills(r: Rates, b: Bucket, now: real)
    ensures Level(r, b, now) == if b.tokens + (now - b.at) * r.rate > r.burst then r.burst
                                else b.tokens + (now - b.at) * r.rate
  {
    hide Inflow;
    FlowIs(r, b.at, now);
  }

  lemma FlowIs(r: Rates, from: real, to: real)
    ensures Inflow(r, from, to) == (to - from) * r.rate
  {
  }

  /** A key that has been left alone for long enough has the whole burst again. */
  lemma FullAgain(r: Rates, b: Bucket, now: real)
    requires Sensible(r) && b.tokens >= 0.0 && now - b.at >= r.burst / r.rate
    ensures Level(r, b, now) == r.burst
  {
    hide Inflow;
    Filled(r, b, now);
  }

  lemma Filled(r: Rates, b: Bucket, now: real)
    requires Sensible(r) && b.tokens >= 0.0 && now - b.at >= r.burst / r.rate
    ensures b.tokens + Inflow(r, b.at, now) >= r.burst
  {
    hide Inflow;
    FlowIs(r, b.at, now);
    var q := r.burst / r.rate;
    Quotient(r.burst, r.rate);
    Scaled(q, now - b.at, r.rate);
    Adds(b.tokens, r.burst, (now - b.at) * r.rate);
  }

  lemma Adds(t: real, x: real, y: real)
    requires t >= 0.0 && x <= y
    ensures t + y >= x
  {
  }

  lemma Quotient(x: real, y: real)
    requires y > 0.0
    ensures x / y * y == x
  {
  }

  lemma Scaled(x: real, y: real, z: real)
    requires x <= y && z > 0.0
    ensures x * z <= y * z
  {
  }

  // ---- the plain table: one bucket per key for ever, a missing one being full

  type Plain = map<string, Bucket>

  function Holding(r: Rates, p: Plain, k: string, now: real): real {
    if k in p then Level(r, p[k], now) else r.burst
  }

  datatype Entry =
    | Asked(key: string, n: real, now: real, granted: bool)
    | TurnedAway(key: string, now: real)
    | Refunded(key: string, n: real, now: real)

  function Decides(r: Rates, p: Plain, k: string, n: real, now: real): bool {
    Holding(r, p, k, now) >= n
  }

  function PlainStep(r: Rates, p: Plain, e: Entry): Plain {
    match e
    case Asked(k, n, now, _) =>
      var h := Holding(r, p, k, now);
      p[k := Bucket(if h >= n then h - n else h, now)]
    case TurnedAway(_, _) => p
    case Refunded(k, n, _) =>
      if k in p then p[k := Bucket(Capped(p[k].tokens + n, r.burst), p[k].at)] else p
  }

  function Replay(r: Rates, es: seq<Entry>): Plain {
    if es == [] then map[] else PlainStep(r, Replay(r, es[..|es| - 1]), es[|es| - 1])
  }

  /** A grant costs what was asked for, a refusal costs nothing, a refund gives back up to the
      burst, and no other bucket changes. */
  lemma Charged(r: Rates, p: Plain, e: Entry)
    ensures var q := PlainStep(r, p, e);
            && (forall k :: k != e.key ==> (k in q <==> k in p) && (k in p ==> q[k] == p[k]))
            && (e.Asked? ==>
                  var h := Holding(r, p, e.key, e.now);
                  e.key in q && q[e.key].at == e.now && q[e.key].tokens == if h >= e.n then h - e.n else h)
            && (e.Refunded? && e.key in p ==>
                  && e.key in q && q[e.key].at == p[e.key].at
                  && q[e.key].tokens == if p[e.key].tokens + e.n > r.burst then r.burst else p[e.key].tokens + e.n)
            && (e.TurnedAway? || (e.Refunded? && e.key !in p) ==> q == p)
  {
    hide Holding;
  }

  function NowOf(e: Entry): real { e.now }

  /** A run of requests in time order whose decisions are those of the plain buckets. */
  ghost predicate Right(r: Rates, es: seq<Entry>) {
    && (forall i :: 0 < i < |es| ==> NowOf(es[i - 1]) <= NowOf(es[i]))
    && (forall i :: 0 <= i < |es| && !es[i].TurnedAway? ==> es[i].n >= 0.0)
    && (forall i :: 0 <= i < |es| && es[i].Asked? ==>
          es[i].granted == Decides(r, Replay(r, es[..i]), es[i].key, es[i].n, NowOf(es[i])))
  }

  function GrantedTo(es: seq<Entry>, k: string): real {
    if es == [] then 0.0
    else
      var e := es[|es| - 1];
      GrantedTo(es[..|es| - 1], k) + Grant(e, k)
  }

  function RefundedTo(es: seq<Entry>, k: string): real {
    if es == [] then 0.0
    else
      var e := es[|es| - 1];
      RefundedTo(es[..|es| - 1], k) + Refund(e, k)
  }

  lemma Inflows(r: Rates, a: real, b: real, c: real)
    requires Sensible(r)
    ensures Inflow(r, a, c) == Inflow(r, a, b) + Inflow(r, b, c)
    ensures Inflow(r, a, a) == Inflow(r, b, b) == Inflow(r, c, c) == 0.0
    ensures a <= b ==> Inflow(r, a, b) >= 0.0
  {
    Distributes(b - a, c - b, r.rate);
    assert (c - a) == (b - a) + (c - b);
  }

  lemma Distributes(x: real, y: real, z: real)
    ensures (x + y) * z == x * z + y * z
  {
  }

  ghost predicate Ordered(r: Rates, p: Plain, now: real) {
    forall k :: k in p ==> p[k].at <= now && 0.0 <= p[k].tokens <= r.burst
  }

  lemma StepOrdered(r: Rates, p: Plain, e: Entry, was: real)
    requires Sensible(r) && Ordered(r, p, was) && was <= NowOf(e) && (e.TurnedAway? || e.n >= 0.0)
    ensures Ordered(r, PlainStep(r, p, e), NowOf(e))
  {
    hide Inflow;
    var q, now := PlainStep(r, p, e), NowOf(e);
    if !e.TurnedAway? {
      if e.key in p {
        Inflows(r, p[e.key].at, now, now);
        assert Inflow(r, p[e.key].at, now) >= 0.0;
      }
      if e.key in q {
        assert q[e.key].at <= now && 0.0 <= q[e.key].tokens <= r.burst;
      }
    }
    forall k | k in q ensures q[k].at <= now && 0.0 <= q[k].tokens <= r.burst {
      assert e.TurnedAway? || k != e.key ==> k in p && q[k] == p[k];
    }
  }

  /** A bucket gains at most its rate over time. */
  lemma HoldingGrows(r: Rates, p: Plain, k: string, a: real, b: real)
    requires Sensible(r) && a <= b
    ensures Holding(r, p, k, a) <= Holding(r, p, k, b) <= Holding(r, p, k, a) + Inflow(r, a, b)
    ensures Holding(r, p, k, a) <= r.burst
  {
    hide Inflow;
    if k in p {
      Inflows(r, p[k].at, a, b);
    }
    Inflows(r, a, b, b);
  }

  lemma HoldingPositive(r: Rates, p: Plain, k: string, now: real)
    requires Sensible(r) && Ordered(r, p, now)
    ensures Holding(r, p, k, now) >= 0.0
  {
    hide Inflow;
    if k in p {
      Inflows(r, p[k].at, now, now);
    }
  }

  lemma HoldingAfter(r: Rates, p: Plain, e: Entry, k: string)
    requires Sensible(r) && Ordered(r, p, NowOf(e)) && (e.TurnedAway? || e.n >= 0.0)
    ensures var q, now := PlainStep(r, p, e), NowOf(e);
            Holding(r, q, k, now) <=
              Holding(r, p, k, now)
              - (if e.Asked? && Decides(r, p, e.key, e.n, now) && e.key == k then e.n else 0.0)
              + (if e.Refunded? && e.key == k then e.n else 0.0)
  {
    hide Inflow;
    var now := NowOf(e);
    Inflows(r, now, now, now);
  }

  lemma {:induction false} ReplayOrdered(r: Rates, es: seq<Entry>)
    requires Sensible(r) && Right(r, es) && es != []
    ensures Ordered(r, Replay(r, es), NowOf(es[|es| - 1]))
    decreases |es|
  {
    var a, e := es[..|es| - 1], es[|es| - 1];
    RightPrefix(r, es, |es| - 1);
    if a == [] {
      StepOrdered(r, map[], e, NowOf(e));
    } else {
      ReplayOrdered(r, a);
      StepOrdered(r, Replay(r, a), e, NowOf(a[|a| - 1]));
    }
  }

  lemma RightPrefix(r: Rates, es: seq<Entry>, i: nat)
    requires Right(r, es) && i <= |es|
    ensures Right(r, es[..i])
  {
    hide Replay, Decides;
    forall j | 0 <= j < i && es[j].Asked?
      ensures es[j].granted == Decides(r, Replay(r, es[..i][..j]), es[j].key, es[j].n, NowOf(es[j]))
    {
      assert es[..i][..j] == es[..j];
    }
  }

  /** Between any two requests of a run, a key is granted at most one burst, plus the rate times
      the time between them, plus what was refunded. */
  lemma WindowBound(r: Rates, es: seq<Entry>, i: nat, j: nat, k: string)
    requires Sensible(r) && Right(r, es) && i < j <= |es|
    ensures GrantedTo(es[i..j], k)
         <= r.burst + (NowOf(es[j - 1]) - NowOf(es[i])) * r.rate + RefundedTo(es[i..j], k)
  {
    hide Right, Ordered, Holding, GrantedTo, RefundedTo, Replay, PlainStep, Decides;
    Potential(r, es, i, j, k);
    HoldingGrows(r, Replay(r, es[..i]), k, NowOf(es[i]), NowOf(es[i]));
    RightPrefix(r, es, j);
    ReplayOrdered(r, es[..j]);
    HoldingPositive(r, Replay(r, es[..j]), k, NowOf(es[j - 1]));
  }

  /** Tokens granted and tokens left are covered by those there were, the inflow and refunds. */
  lemma {:induction false} Potential(r: Rates, es: seq<Entry>, i: nat, j: nat, k: string)
    requires Sensible(r) && Right(r, es) && i < j <= |es|
    ensures GrantedTo(es[i..j], k) + Holding(r, Replay(r, es[..j]), k, NowOf(es[j - 1]))
         <= Holding(r, Replay(r, es[..i]), k, NowOf(es[i])) + Inflow(r, NowOf(es[i]), NowOf(es[j - 1]))
             + RefundedTo(es[i..j], k)
    decreases j
  {
    hide Right, Ordered, Holding, GrantedTo, RefundedTo, Inflow, Replay, PlainStep, Decides;
    var p, e := Replay(r, es[..j - 1]), es[j - 1];
    var before := if j == i + 1 then NowOf(e) else NowOf(es[j - 2]);
    PrefixStep(r, es, j);
    HoldingGrows(r, p, k, before, NowOf(e));
    HoldingAfter(r, p, e, k);
    if j == i + 1 {
      WindowOne(es, i, k);
      Inflows(r, NowOf(e), NowOf(e), NowOf(e));
    } else {
      Potential(r, es, i, j - 1, k);
      WindowMore(es, i, j, k);
      InOrder(r, es, i, j - 1);
      Inflows(r, NowOf(es[i]), before, NowOf(e));
    }
  }

  /** What one more entry does to the replayed table. */
  lemma PrefixStep(r: Rates, es: seq<Entry>, j: nat)
    requires Sensible(r) && Right(r, es) && 0 < j <= |es|
    ensures var p, e := Replay(r, es[..j - 1]), es[j - 1];
            && Replay(r, es[..j]) == PlainStep(r, p, e)
            && Ordered(r, p, NowOf(e))
            && (e.Asked? ==> e.granted == Decides(r, p, e.key, e.n, NowOf(e)))
            && (e.TurnedAway? || e.n >= 0.0)
            && (j > 1 ==> NowOf(es[j - 2]) <= NowOf(e))
  {
    hide Decides, PlainStep, Sensible;
    var a := es[..j - 1];
    assert es[..j][..j - 1] == a;
    RightPrefix(r, es, j - 1);
    if a == [] {
      assert Ordered(r, map[], NowOf(es[j - 1]));
    } else {
      ReplayOrdered(r, a);
      OrderedLater(r, Replay(r, a), NowOf(a[|a| - 1]), NowOf(es[j - 1]));
    }
  }

  lemma OrderedLater(r: Rates, p: Plain, was: real, now: real)
    requires Ordered(r, p, was) && was <= now
    ensures Ordered(r, p, now)
  {
  }

  lemma {:induction false} InOrder(r: Rates, es: seq<Entry>, i: nat, j: nat)
    requires Right(r, es) && i < j <= |es|
    ensures NowOf(es[i]) <= NowOf(es[j - 1])
    decreases j
  {
    if j > i + 1 {
      InOrder(r, es, i, j - 1);
    }
  }

  function Grant(e: Entry, k: string): real { if e.Asked? && e.granted && e.key == k then e.n else 0.0 }

  function Refund(e: Entry, k: string): real { if e.Refunded? && e.key == k then e.n else 0.0 }

  lemma WindowOne(es: seq<Entry>, i: nat, k: string)
    requires i < |es|
    ensures GrantedTo(es[i..i + 1], k) == Grant(es[i], k) && RefundedTo(es[i..i + 1], k) == Refund(es[i], k)
  {
    assert es[i..i + 1] == [es[i]] && [es[i]][..0] == [];
  }

  lemma WindowMore(es: seq<Entry>, i: nat, j: nat, k: string)
    requires i < j <= |es|
    ensures GrantedTo(es[i..j], k) == GrantedTo(es[i..j - 1], k) + Grant(es[j - 1], k)
    ensures RefundedTo(es[i..j], k) == RefundedTo(es[i..j - 1], k) + Refund(es[j - 1], k)
  {
    assert es[i..j][..j - 1 - i] == es[i..j - 1];
  }

  // ---- the swept table

  ghost predicate Full(r: Rates, b: Bucket, now: real) {
    b.tokens + Inflow(r, b.at, now) >= r.burst
  }

  /** Full, and idle for longer than filling takes, in whole seconds. */
  predicate Idle(r: Rates, b: Bucket, now: real)
    requires r.rate > 0.0
  {
    b.tokens + Inflow(r, b.at, now) >= r.burst && now - b.at > (r.burst / r.rate).Floor as real
  }

  /** A bucket that has been idle for at least a second longer than filling takes is always dropped,
      one used within the whole seconds that filling takes never is. */
  lemma IdleMeans(r: Rates, b: Bucket, now: real)
    requires Sensible(r) && 0.0 <= b.tokens
    ensures Idle(r, b, now) ==> Level(r, b, now) == r.burst
    ensures now - b.at >= r.burst / r.rate + 1.0 ==> Idle(r, b, now)
    ensures now - b.at <= (r.burst / r.rate).Floor as real ==> !Idle(r, b, now)
  {
    hide Inflow;
    if now - b.at >= r.burst / r.rate {
      Filled(r, b, now);
    }
  }

  /** The swept table has the plain bucket of every key it still knows; every other plain bucket
      is full. */
  ghost predicate Tracks(r: Rates, t: map<string, Bucket>, p: Plain, now: real) {
    && (forall k :: k in t ==> k in p && t[k] == p[k])
    && (forall k :: k in p && k !in t ==> Full(r, p[k], now))
  }

  /** Only full buckets have gone. */
  ghost predicate Thinned(r: Rates, t: map<string, Bucket>, u: map<string, Bucket>, now: real) {
    && (forall k :: k in u ==> k in t && u[k] == t[k])
    && (forall k :: k in t && k !in u ==> Full(r, t[k], now))
  }

  lemma TracksLater(r: Rates, t: map<string, Bucket>, u: map<string, Bucket>, p: Plain, was: real, now: real)
    requires Sensible(r) && was <= now && Tracks(r, t, p, was) && Thinned(r, t, u, now) && Ordered(r, p, was)
    ensures Tracks(r, u, p, now) && Ordered(r, p, now)
  {
    hide Inflow;
    forall k | k in p && k !in u ensures Full(r, p[k], now) {
      Inflows(r, p[k].at, was, now);
      Inflows(r, was, now, now);
    }
  }

  /** The swept table decides as the plain one, a missing bucket being as good as a full one. */
  lemma SameLevel(r: Rates, t: map<string, Bucket>, p: Plain, k: string, now: real)
    requires Tracks(r, t, p, now)
    ensures Holding(r, p, k, now) == (if k in t then Level(r, t[k], now) else r.burst)
  {
    hide Inflow;
  }

  lemma TracksAsked(r: Rates, t: map<string, Bucket>, p: Plain, k: string, n: real, now: real, granted: bool)
    requires Sensible(r) && Tracks(r, t, p, now)
    ensures var h := Holding(r, p, k, now);
            Tracks(r, t[k := Bucket(if h >= n then h - n else h, now)], PlainStep(r, p, Asked(k, n, now, granted)), now)
  {
    hide Inflow, Holding;
  }

  lemma TracksRefund(r: Rates, t: map<string, Bucket>, p: Plain, k: string, n: real, now: real)
    requires Sensible(r) && Tracks(r, t, p, now) && Ordered(r, p, now) && n >= 0.0
    ensures Tracks(r, if k in t then t[k := Bucket(Capped(t[k].tokens + n, r.burst), t[k].at)] else t,
                   PlainStep(r, p, Refunded(k, n, now)), now)
  {
    hide Inflow;
    if k in p {
      Inflows(r, p[k].at, now, now);
    }
  }

  lemma ReplayMore(r: Rates, es: seq<Entry>, e: Entry)
    ensures Replay(r, es + [e]) == PlainStep(r, Replay(r, es), e)
  {
    hide PlainStep;
    assert (es + [e])[..|es|] == es;
  }

  lemma RightMore(r: Rates, es: seq<Entry>, e: Entry)
    requires Right(r, es) && (es == [] || NowOf(es[|es| - 1]) <= NowOf(e)) && (e.TurnedAway? || e.n >= 0.0)
    requires e.Asked? ==> e.granted == Decides(r, Replay(r, es), e.key, e.n, NowOf(e))
    ensures Right(r, es + [e]) && Replay(r, es + [e]) == PlainStep(r, Replay(r, es), e)
  {
    hide Decides, PlainStep, Replay, Sensible;
    var all := es + [e];
    ReplayMore(r, es, e);
    assert all[..|es|] == es;
    forall i | 0 <= i < |all| && all[i].Asked?
      ensures all[i].granted == Decides(r, Replay(r, all[..i]), all[i].key, all[i].n, NowOf(all[i]))
    {
      assert all[..i] == es[..i];
      if i == |es| {
        assert es[..i] == es;
      }
    }
  }

  lemma SubmapSize(t: map<string, Bucket>, u: map<string, Bucket>)
    requires u.Keys <= t.Keys
    ensures |u| <= |t|
  {
    assert |u| == |u.Keys| && |t| == |t.Keys|;
    SubsetSize(u.Keys, t.Keys);
  }

  lemma {:induction false} SubsetSize(a: set<string>, b: set<string>)
    requires a <= b
    ensures |a| <= |b|
    decreases |a|
  {
    if a != {} {
      var x :| x in a;
      SubsetSize(a - {x}, b - {x});
    }
  }

  class Table {
    const rates: Rates
    const maxLen: nat
    var keys: map<string, Bucket>
    var swept: real
    /** What has been asked of the table so far, and the time of the last request. */
    ghost var log: seq<Entry>
    ghost var clock: real

    ghost predicate Valid()
      reads this
    {
      && Sensible(rates) && Right(rates, log) && (log != [] ==> NowOf(log[|log| - 1]) <= clock)
      && Tracks(rates, keys, Replay(rates, log), clock) && Ordered(rates, Replay(rates, log), clock)
      && |keys| <= maxLen
    }

    constructor (rate: real, burst: real, now: real)
      requires rate > 0.0 && burst > 0.0
      ensures Valid() && log == [] && clock == now && maxLen == 4096 && rates == Rates(rate, burst)
    {
      rates, maxLen, keys, swept := Rates(rate, burst), 4096, map[], now;
      log, clock := [], now;
    }

    /** Drops buckets that are full and have been idle; looks at most once a minute. */
    method Sweep(now: real)
      requires Valid() && clock <= now
      modifies this`keys, this`swept
      ensures Thinned(rates, old(keys), keys, now)
      ensures now - old(swept) < 60.0 ==> keys == old(keys) && swept == old(swept)
      ensures now - old(swept) >= 60.0 ==>
                swept == now && forall k :: k in keys <==> k in old(keys) && !Idle(rates, old(keys)[k], now)
    {
      if now - swept < 60.0 {
        return;
      }
      swept := now;
      hide Inflow, Tracks, Right, Ordered;
      var full := rates.burst / rates.rate;
      var idle := full.Floor as real;
      var left := keys.Keys;
      while left != {}
        invariant swept == now && left <= keys.Keys && Thinned(rates, old(keys), keys, now)
        invariant forall k :: k in keys <==> k in old(keys) && (k in left || !Idle(rates, old(keys)[k], now))
        decreases |left|
      {
        var k :| k in left;
        var b := keys[k];
        if b.tokens + Inflow(rates, b.at, now) >= rates.burst && now - b.at > idle {
          keys := keys - {k};
        }
        left := left - {k};
      }
    }

    /** Takes `n` tokens from a key's bucket; a new key is turned away when the table is full. */
    method AllowN(key: string, n: real, now: real) returns (ok: bool)
      requires Valid() && clock <= now && n >= 0.0
      modifies this
      ensures Valid() && clock == now
      ensures log == old(log) + [Asked(key, n, now, ok)]
           || (log == old(log) + [TurnedAway(key, now)] && !ok && key !in keys && |keys| >= maxLen)
      ensures |old(keys)| < maxLen ==> log == old(log) + [Asked(key, n, now, ok)]
    {
      hide Inflow, Tracks, Right, Ordered, Replay, PlainStep, Thinned;
      ghost var t, p := keys, Replay(rates, log);
      Sweep(now);
      TracksLater(rates, t, keys, p, clock, now);
      ThinnedSize(rates, t, keys, now);
      SameLevel(rates, keys, p, key, now);
      clock := now;
      if key !in keys && |keys| >= maxLen {
        RightMore(rates, log, TurnedAway(key, now));
        SameAfter(rates, p, TurnedAway(key, now));
        log := log + [TurnedAway(key, now)];
        return false;
      }
      var b := if key in keys then keys[key] else Bucket(rates.burst, now);
      var tokens := b.tokens + Inflow(rates, b.at, now);
      if tokens > rates.burst {
        tokens := rates.burst;
      }
      Inflows(rates, now, now, now);
      assert tokens == Holding(rates, p, key, now);
      ok := !(tokens < n);
      TracksAsked(rates, keys, p, key, n, now, ok);
      RightMore(rates, log, Asked(key, n, now, ok));
      StepOrdered(rates, p, Asked(key, n, now, ok), now);
      keys := keys[key := Bucket(if ok then tokens - n else tokens, now)];
      log := log + [Asked(key, n, now, ok)];
    }

    /** Gives tokens back. */
    method Refund(key: string, n: real)
      requires Valid() && n >= 0.0
      modifies this`keys, this`log
      ensures Valid() && log == old(log) + [Refunded(key, n, clock)]
    {
      hide Inflow, Tracks, Right, Ordered, Replay, PlainStep;
      ghost var p, e := Replay(rates, log), Refunded(key, n, clock);
      TracksRefund(rates, keys, p, key, n, clock);
      RightMore(rates, log, e);
      StepOrdered(rates, p, e, clock);
      if key in keys {
        var tokens := keys[key].tokens + n;
        if tokens > rates.burst {
          tokens := rates.burst;
        }
        keys := keys[key := Bucket(tokens, keys[key].at)];
      }
      log := log + [e];
    }
  }

  lemma ThinnedSize(r: Rates, t: map<string, Bucket>, u: map<string, Bucket>, now: real)
    requires Thinned(r, t, u, now)
    ensures |u| <= |t|
  {
    SubmapSize(t, u);
  }

  lemma SameAfter(r: Rates, p: Plain, e: Entry)
    requires e.TurnedAway?
    ensures PlainStep(r, p, e) == p
  {
  }
}
