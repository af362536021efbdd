/** Fan-out of frames to subscribers with bounded queues and their own filters. */
module FanOut {
  import opened BitSeq
  import opened Streams
  import opened Outcomes
  import opened Filtering

  /** One subscriber: its filter as it was, what it has been offered, what waits for it, what it
      has received. */
  datatype SubState = SubState(
    initial: FilterState, seen: seq<Seen>, queue: seq<seq<Byte>>, cap: nat,
    received: seq<seq<Byte>>, sent: nat, dropped: nat)

  /** What the subscriber's own filter lets through, in order. */
  function Passed(f: FilterState, es: seq<Seen>): seq<seq<Byte>> {
    if es == [] then []
    else
      var before := es[..|es| - 1];
      Passed(f, before) + if Passes(NotedAll(f, before), es[|es| - 1]) then [es[|es| - 1].frame.raw] else []
  }

  /** Offering a frame to one subscriber. */
  function Offered(s: SubState, e: Seen): SubState {
    var t := s.(seen := s.seen + [e]);
    if !Passes(NotedAll(s.initial, s.seen), e) then t
    else if |s.queue| < s.cap then t.(queue := s.queue + [e.frame.raw], sent := s.sent + 1)
    else t.(dropped := s.dropped + 1)
  }

  /** `a` is `b` with some elements left out. */
  ghost predicate Subsequence<T>(a: seq<T>, b: seq<T>) {
    if a == [] then true
    else
      b != []
      && (Subsequence(a, b[..|b| - 1]) || (a[|a| - 1] == b[|b| - 1] && Subsequence(a[..|a| - 1], b[..|b| - 1])))
  }

  lemma {:induction false} Skipping<T>(a: seq<T>, b: seq<T>, x: T)
    requires Subsequence(a, b)
    ensures Subsequence(a, b + [x]) && Subsequence(a + [x], b + [x])
  {
    assert (b + [x])[..|b|] == b;
    assert (a + [x])[..|a|] == a;
  }

  /** What holds of every subscriber at every moment. */
  ghost predicate Fair(s: SubState) {
    var passed := Passed(s.initial, s.seen);
    && |s.queue| <= s.cap
    && s.sent + s.dropped == |passed|
    && s.sent == |s.received| + |s.queue|
    && Subsequence(s.received + s.queue, passed)
    && (s.dropped == 0 ==> s.received + s.queue == passed)
  }

  lemma OfferedFair(s: SubState, e: Seen)
    requires Fair(s)
    ensures Fair(Offered(s, e))
  {
    hide Passed, Subsequence, Passes, NotedAll;
    var passed, raw := Passed(s.initial, s.seen), e.frame.raw;
    PassedMore(s.initial, s.seen, e);
    if Passes(NotedAll(s.initial, s.seen), e) {
      Skipping(s.received + s.queue, passed, raw);
      Assoc(s.received, s.queue, [raw]);
    }
  }

  lemma PassedMore(f: FilterState, es: seq<Seen>, e: Seen)
    ensures Passed(f, es + [e]) == if Passes(NotedAll(f, es), e) then Passed(f, es) + [e.frame.raw] else Passed(f, es)
  {
    hide NotedAll, Passes;
    assert (es + [e])[..|es|] == es;
  }

  /** In terms of the filter's decision: queued if there is room, and dropped only if there is none. */
  lemma OfferedMeans(s: SubState, e: Seen)
    ensures var t, passes := Offered(s, e), Passes(NotedAll(s.initial, s.seen), e);
            && t.received == s.received && t.cap == s.cap && t.initial == s.initial && t.seen == s.seen + [e]
            && (passes && |s.queue| < s.cap ==>
                  t.queue == s.queue + [e.frame.raw] && t.sent == s.sent + 1 && t.dropped == s.dropped)
            && (passes && |s.queue| >= s.cap ==>
                  t.queue == s.queue && t.sent == s.sent && t.dropped == s.dropped + 1)
            && (!passes ==> t.queue == s.queue && t.sent == s.sent && t.dropped == s.dropped)
  {
    hide Passes, NotedAll;
  }

  class Sub {
    const id: nat
    const filter: Filter
    const cap: nat
    var queue: seq<seq<Byte>>
    var closed: bool
    var sent: nat
    var dropped: nat
    ghost const initial: FilterState
    ghost var seen: seq<Seen>
    ghost var received: seq<seq<Byte>>

    ghost function State(): SubState
      reads this
    {
      SubState(initial, seen, queue, cap, received, sent, dropped)
    }

    ghost predicate Valid()
      reads this, filter
    {
      Fair(State()) && filter.State() == NotedAll(initial, seen)
    }

    constructor (i: nat, f: Filter, n: nat)
      ensures Valid() && id == i && filter == f && cap == n && !closed
      ensures State() == SubState(f.State(), [], [], n, [], 0, 0)
    {
      id, filter, cap, queue, closed, sent, dropped := i, f, n, [], false, 0, 0;
      initial, seen, received := f.State(), [], [];
    }

    /** Hands a frame over, if the filter lets it through and there is room; never waits. */
    method Offer(fr: Frame, now: int)
      requires Valid() && !closed
      modifies this`queue, this`sent, this`dropped, this`seen, filter`last
      ensures Valid() && State() == Offered(old(State()), Seen(fr, now))
      ensures Passes(old(filter.State()), Seen(fr, now)) && old(|queue|) < cap ==>
                queue == old(queue) + [fr.raw] && sent == old(sent) + 1 && dropped == old(dropped)
      ensures Passes(old(filter.State()), Seen(fr, now)) && old(|queue|) >= cap ==>
                queue == old(queue) && sent == old(sent) && dropped == old(dropped) + 1
      ensures !Passes(old(filter.State()), Seen(fr, now)) ==>
                queue == old(queue) && sent == old(sent) && dropped == old(dropped)
    {
      hide Fair, Passes, Noted;
      OfferedFair(State(), Seen(fr, now));
      NotedMore(initial, seen, Seen(fr, now));
      var ok := filter.Pass(fr, now);
      seen := seen + [Seen(fr, now)];
      if !ok {
        return;
      }
      if |queue| < cap {
        queue, sent := queue + [fr.raw], sent + 1;
      } else {
        dropped := dropped + 1;
      }
    }

    /** The consumer takes the next frame; a closed channel still yields what it holds. */
    method Receive() returns (o: Option<seq<Byte>>)
      requires Valid()
      modifies this`queue, this`received
      ensures Valid()
      ensures o == if old(queue) == [] then None else Some(old(queue)[0])
      ensures received + queue == old(received + queue) && sent == old(sent)
    {
      hide NotedAll, Passed, Subsequence;
      if queue == [] {
        return None;
      }
      o := Some(queue[0]);
      assert received + queue == received + [queue[0]] + queue[1..];
      received, queue := received + [queue[0]], queue[1..];
    }
  }

  lemma NotedMore(f: FilterState, es: seq<Seen>, e: Seen)
    ensures NotedAll(f, es + [e]) == Noted(NotedAll(f, es), e)
  {
    assert (es + [e])[..|es|] == es;
  }

  class Hub {
    var subs: map<nat, Sub>
    var next: nat
    var framesIn: nat
    var ubx: nat
    var rtcm: nat
    var nmea: nat

    /** Every subscriber is open and registered once, and no two share a filter. */
    ghost predicate Valid()
      reads this, subs.Values, set s | s in subs.Values :: s.filter
    {
      && (forall i :: i in subs ==> i <= next && subs[i].id == i && !subs[i].closed && subs[i].Valid())
      && (forall i, j :: i in subs && j in subs && i != j ==> subs[i].filter != subs[j].filter)
      && ubx + rtcm + nmea <= framesIn
    }

    constructor ()
      ensures Valid() && subs == map[] && framesIn == 0
    {
      subs, next, framesIn, ubx, rtcm, nmea := map[], 0, 0, 0, 0, 0;
    }

    method Subscribe(f: Filter?, queue: int) returns (s: Sub)
      requires Valid()
      requires f == null || forall i :: i in subs ==> subs[i].filter != f
      modifies this`subs, this`next
      ensures Valid() && fresh(s) && s.id !in old(subs) && subs == old(subs)[s.id := s]
      ensures s.Valid() && s.cap == if queue <= 0 then 256 else queue
      ensures s.seen == [] && s.queue == [] && s.initial == s.filter.State()
      ensures s.id == next == old(next) + 1 && (f == null ==> fresh(s.filter))
      ensures f != null ==> s.filter == f
      ensures f == null ==> s.filter.State() == FilterState(Unknown, None, map[])
    {
      hide Fair, NotedAll, Sub.Valid;
      var g;
      if f == null {
        g := new Filter(Unknown, None);
      } else {
        g := f;
      }
      next := next + 1;
      s := new Sub(next, g, if queue <= 0 then 256 else queue);
      subs := subs[next := s];
    }

    /** Removes a subscriber and closes its channel; a second call does nothing. */
    method Close(s: Sub)
      requires Valid()
      requires s.id in subs ==> subs[s.id] == s
      modifies this`subs, s`closed
      ensures Valid() && subs == old(subs) - {s.id}
      ensures s.closed == (old(s.closed) || s.id in old(subs))
    {
      if s.id in subs {
        subs := subs - {s.id};
        s.closed := true;
      }
    }

    /** Offers a frame to every subscriber, in any order: each fares as if it were alone. */
    method Dispatch(fr: Frame, now: int)
      requires Valid()
      modifies this`framesIn, this`ubx, this`rtcm, this`nmea
      modifies subs.Values, set s | s in subs.Values :: s.filter
      ensures Valid() && subs == old(subs)
      ensures forall i :: i in subs ==> subs[i].State() == Offered(old(subs[i].State()), Seen(fr, now))
      ensures framesIn == old(framesIn) + 1
      ensures ubx == old(ubx) + (if fr.proto == UBX then 1 else 0)
      ensures rtcm == old(rtcm) + (if fr.proto == RTCM3 then 1 else 0)
      ensures nmea == old(nmea) + (if fr.proto == NMEA then 1 else 0)
    {
      hide Fair, Offered, NotedAll, Sub.Valid;
      framesIn := framesIn + 1;
      match fr.proto {
        case UBX => ubx := ubx + 1;
        case RTCM3 => rtcm := rtcm + 1;
        case NMEA => nmea := nmea + 1;
        case Unknown =>
      }
      OfferAll(fr, now);
    }

    method OfferAll(fr: Frame, now: int)
      requires Valid()
      modifies subs.Values, set s | s in subs.Values :: s.filter
      ensures Valid()
      ensures forall i :: i in subs ==> subs[i].State() == Offered(old(subs[i].State()), Seen(fr, now))
    {
      hide Fair, Offered, NotedAll, Sub.Valid, Sub.State, Valid;
      var left := subs.Keys;
      while left != {}
        invariant left <= subs.Keys && Valid()
        invariant forall i :: i in left ==> subs[i].State() == old(subs[i].State())
        invariant forall i :: i in subs && i !in left ==>
                    subs[i].State() == Offered(old(subs[i].State()), Seen(fr, now))
        decreases |left|
      {
        var k :| k in left;
        OfferOne(k, fr, now);
        left := left - {k};
      }
    }

    method OfferOne(k: nat, fr: Frame, now: int)
      requires Valid() && k in subs
      modifies subs[k], subs[k].filter
      ensures Valid() && subs[k].State() == Offered(old(subs[k].State()), Seen(fr, now))
      ensures forall i :: i in subs && i != k ==> subs[i].State() == old(subs[i].State())
    {
      hide Fair, Offered, NotedAll, Sub.Valid, Sub.State, Passes, Filter.State;
      var s := subs[k];
      s.Offer(fr, now);
      forall i | i in subs && i != k
        ensures subs[i].State() == old(subs[i].State()) && subs[i].Valid() && !subs[i].closed
      {
        assert subs[i] != s && subs[i].filter != s.filter;
        assert old(subs[i].Valid());
      }
    }
  }

  // ---- whole runs

  datatype Event =
    | Joined(selection: Option<(Proto, seq<Spec>)>, queue: int)
    | Left(id: nat)
    | Taken(id: nat)
    | Arrived(frame: Frame, now: int)

  function TimeOf(e: Event, t: int): int {
    if e.Arrived? then e.now else t
  }

  /** What an event offers to every subscriber. */
  function Offers(e: Event): seq<Seen> {
    if e.Arrived? then [Seen(e.frame, e.now)] else []
  }

  function AllOffers(es: seq<Event>): seq<Seen> {
    if es == [] then [] else AllOffers(es[..|es| - 1]) + Offers(es[|es| - 1])
  }

  /** Times do not run backwards. */
  ghost predicate Monotone(es: seq<Event>, t: int) {
    es == [] || (TimeOf(es[0], t) >= t && Monotone(es[1..], TimeOf(es[0], t)))
  }

  ghost predicate Timely(s: SubState, now: int) {
    s.initial.last == map[] && InTime(s.seen) && forall e :: e in s.seen ==> e.now <= now
  }

  lemma TimelyMore(s: SubState, e: Seen, t: int)
    requires Timely(s, t) && t <= e.now
    ensures Timely(Offered(s, e), e.now)
  {
    hide Passes, NotedAll;
  }

  lemma TimelyLater(s: SubState, t: int, now: int)
    requires Timely(s, t) && t <= now
    ensures Timely(s, now)
  {
  }

  /** What decimation promises a subscriber: emissions of a type are spaced, and a selected frame
      is held back only when one of its type went out less than its interval before. */
  ghost predicate Decimated(f: FilterState, es: seq<Seen>) {
    && (forall i, j :: 0 <= i < j < |es| && Emitted(f, es, i, j) && Spacing(f, es[j].frame) > 0 ==>
          es[j].now - es[i].now >= Spacing(f, es[j].frame))
    && (forall j :: 0 <= j < |es| && Selects(f, es[j].frame) && !PassedAt(f, es, j) ==> HeldBack(f, es, j))
  }

  /** Two frames of one type that were let through. */
  ghost predicate Emitted(f: FilterState, es: seq<Seen>, i: nat, j: nat)
    requires i < j < |es|
  {
    es[i].frame.typ == es[j].frame.typ && PassedAt(f, es, i) && PassedAt(f, es, j)
  }

  ghost predicate HeldBack(f: FilterState, es: seq<Seen>, j: nat)
    requires j < |es|
  {
    exists i :: 0 <= i < j && es[i].frame.typ == es[j].frame.typ && PassedAt(f, es, i)
             && es[j].now - es[i].now < Spacing(f, es[j].frame)
  }

  lemma TimelyDecimated(s: SubState, now: int)
    requires Timely(s, now)
    ensures Decimated(s.initial, s.seen)
  {
    hide Passes, NotedAll, Selects, Spacing, PassedAt;
    var f, es := s.initial, s.seen;
    forall i, j | 0 <= i < j < |es| && Emitted(f, es, i, j) && Spacing(f, es[j].frame) > 0
      ensures es[j].now - es[i].now >= Spacing(f, es[j].frame)
    {
      SpacedApart(f, es, i, j);
    }
    forall j | 0 <= j < |es| && Selects(f, es[j].frame) && !PassedAt(f, es, j) ensures HeldBack(f, es, j) {
      var i := NoneDueSkipped(f, es, j);
    }
  }

  /** The present subscribers have been offered their frames in time order. */
  ghost predicate InOrder(hub: Hub, now: int)
    reads hub, hub.subs.Values
  {
    forall i :: i in hub.subs ==> Timely(hub.subs[i].State(), now)
  }

  ghost function SeenBy(hub: Hub): map<nat, seq<Seen>>
    reads hub, hub.subs.Values
  {
    map i | i in hub.subs :: hub.subs[i].seen
  }

  /** A subscriber leaves only when asked to, comes only by joining, and is offered what an event
      offers. */
  ghost predicate SeenMore(seen: map<nat, seq<Seen>>, e: Event, now: map<nat, seq<Seen>>) {
    && (forall i :: i in seen ==> i in now || e == Left(i))
    && (e.Left? ==> e.id !in now)
    && (forall i :: i in now ==> if i in seen then now[i] == seen[i] + Offers(e) else e.Joined? && now[i] == [])
  }

  method Join(hub: Hub, selection: Option<(Proto, seq<Spec>)>, queue: int, ghost now: int)
    requires hub.Valid() && InOrder(hub, now)
    modifies hub`subs, hub`next
    ensures hub.Valid() && InOrder(hub, now)
    ensures hub.subs.Keys >= old(hub.subs.Keys) && hub.framesIn == old(hub.framesIn)
    ensures forall i :: i in hub.subs ==>
              if i in old(hub.subs) then hub.subs[i] == old(hub.subs)[i] && hub.subs[i].seen == old(hub.subs[i].seen)
              else fresh(hub.subs[i]) && fresh(hub.subs[i].filter) && hub.subs[i].seen == []
  {
    hide Fair, NotedAll, Sub.Valid, Timely, InTime, Hub.Valid;
    var f: Filter? := null;
    if selection.Some? {
      f := NewFilter(selection.value.0, selection.value.1);
      if f == null {
        return;
      }
    }
    var s := hub.Subscribe(f, queue);
    NothingSeen(s.State(), now);
  }

  lemma NothingSeen(s: SubState, now: int)
    requires s.initial.last == map[] && s.seen == []
    ensures Timely(s, now)
  {
  }

  /** One event; what is asked of subscribers that are gone is skipped. */
  method Step(hub: Hub, e: Event, ghost t: int)
    requires hub.Valid() && InOrder(hub, t) && TimeOf(e, t) >= t
    modifies hub, hub.subs.Values, set s | s in hub.subs.Values :: s.filter
    ensures hub.Valid() && InOrder(hub, TimeOf(e, t))
    ensures hub.framesIn == old(hub.framesIn) + |Offers(e)| && SeenMore(old(SeenBy(hub)), e, SeenBy(hub))
    ensures forall i :: i in hub.subs ==>
              if i in old(hub.subs) then hub.subs[i] == old(hub.subs)[i]
              else fresh(hub.subs[i]) && fresh(hub.subs[i].filter)
  {
    hide Fair, NotedAll, Sub.Valid, Timely, InTime, Hub.Valid;
    match e {
      case Joined(selection, queue) => Join(hub, selection, queue, t);
      case Left(id) => Leave(hub, id, t);
      case Taken(id) => Take(hub, id, t);
      case Arrived(fr, now) => Arrive(hub, fr, now, t);
    }
  }

  method Leave(hub: Hub, id: nat, ghost t: int)
    requires hub.Valid() && InOrder(hub, t)
    modifies hub, hub.subs.Values
    ensures hub.Valid() && InOrder(hub, t) && hub.subs == old(hub.subs) - {id} && hub.framesIn == old(hub.framesIn)
    ensures forall i :: i in hub.subs ==> hub.subs[i].seen == old(hub.subs[i].seen)
  {
    hide Fair, NotedAll, Sub.Valid, Timely, InTime;
    if id in hub.subs {
      hub.Close(hub.subs[id]);
    }
  }

  method Take(hub: Hub, id: nat, ghost t: int)
    requires hub.Valid() && InOrder(hub, t)
    modifies hub.subs.Values
    ensures hub.Valid() && InOrder(hub, t) && hub.subs == old(hub.subs)
    ensures forall i :: i in hub.subs ==> hub.subs[i].seen == old(hub.subs[i].seen)
  {
    hide Fair, NotedAll, Sub.Valid, InTime;
    if id in hub.subs {
      var _ := hub.subs[id].Receive();
    }
  }

  method Arrive(hub: Hub, fr: Frame, now: int, ghost t: int)
    requires hub.Valid() && InOrder(hub, t) && now >= t
    modifies hub, hub.subs.Values, set s | s in hub.subs.Values :: s.filter
    ensures hub.Valid() && InOrder(hub, now) && hub.subs == old(hub.subs) && hub.framesIn == old(hub.framesIn) + 1
    ensures forall i :: i in hub.subs ==> hub.subs[i].seen == old(hub.subs[i].seen) + [Seen(fr, now)]
  {
    hide Fair, NotedAll, Sub.Valid, Timely, InTime, Hub.Valid, Offered;
    hub.Dispatch(fr, now);
    forall i | i in hub.subs
      ensures Timely(hub.subs[i].State(), now) && hub.subs[i].seen == old(hub.subs[i].seen) + [Seen(fr, now)]
    {
      TimelyMore(old(hub.subs[i].State()), Seen(fr, now), t);
      OfferedSeen(hub.subs[i], old(hub.subs[i].State()), Seen(fr, now));
    }
  }

  lemma OfferedSeen(s: Sub, before: SubState, e: Seen)
    requires s.State() == Offered(before, e)
    ensures s.seen == before.seen + [e]
  {
  }

  /** In every run of subscribing, closing, receiving and dispatching, each subscriber has been
      offered exactly what came since it joined, its queue and counters account for exactly what
      its filter let through of that, and decimation keeps its promises. */
  method Run(es: seq<Event>, t: int) returns (hub: Hub, ghost since: map<nat, nat>)
    requires Monotone(es, t)
    ensures fresh(hub) && hub.Valid() && hub.framesIn == |AllOffers(es)| && Attendance(es, since, SeenBy(hub))
    ensures forall i :: i in hub.subs ==>
              Fair(hub.subs[i].State()) && Decimated(hub.subs[i].initial, hub.subs[i].seen)
    ensures forall i :: i in hub.subs ==>
              var s, passed := hub.subs[i], Passed(hub.subs[i].initial, hub.subs[i].seen);
              && s.sent + s.dropped == |passed| && s.sent == |s.received| + |s.queue| && |s.queue| <= s.cap
              && (s.dropped == 0 ==> s.received + s.queue == passed)
  {
    hide NotedAll, Timely, InTime, Decimated, Attends, Passed, Subsequence;
    hub := new Hub();
    since := map[];
    var i, now := 0, t;
    assert es[0..] == es && es[..0] == [];
    while i < |es|
      invariant 0 <= i <= |es| && Monotone(es[i..], now) && fresh(hub) && hub.Valid() && InOrder(hub, now)
      invariant forall k :: k in hub.subs ==> fresh(hub.subs[k]) && fresh(hub.subs[k].filter)
      invariant hub.framesIn == |AllOffers(es[..i])| && Attendance(es[..i], since, SeenBy(hub))
    {
      hide Fair, Hub.Valid, InOrder, Sub.Valid, AllOffers, Offers, SeenBy, SeenMore, Attendance;
      assert es[i..][0] == es[i] && es[i..][1..] == es[i + 1..];
      ghost var seen := SeenBy(hub);
      Step(hub, es[i], now);
      assert es[..i + 1] == es[..i] + [es[i]];
      OffersMore(es[..i], es[i]);
      since := AttendanceMore(es[..i], es[i], since, seen, SeenBy(hub));
      now := TimeOf(es[i], now);
      i := i + 1;
    }
    assert es[..i] == es;
    forall k | k in hub.subs ensures Decimated(hub.subs[k].initial, hub.subs[k].seen) {
      TimelyDecimated(hub.subs[k].State(), now);
    }
  }

  /** A subscriber that joined with event `from` has been offered exactly what came after it. */
  ghost predicate Attends(es: seq<Event>, from: nat, seen: seq<Seen>) {
    from < |es| && es[from].Joined? && seen == AllOffers(es[from + 1..])
  }

  /** Every subscriber, with the event it joined at and what it has been offered. */
  ghost predicate Attendance(es: seq<Event>, since: map<nat, nat>, seen: map<nat, seq<Seen>>) {
    since.Keys == seen.Keys && forall i :: i in since ==> Attends(es, since[i], seen[i])
  }

  lemma AttendanceMore(es: seq<Event>, e: Event, since: map<nat, nat>, seen: map<nat, seq<Seen>>,
                       now: map<nat, seq<Seen>>) returns (next: map<nat, nat>)
    requires Attendance(es, since, seen) && SeenMore(seen, e, now)
    ensures Attendance(es + [e], next, now)
  {
    hide Attends, Offers;
    next := map i | i in now :: if i in since then since[i] else |es|;
    forall i | i in now ensures Attends(es + [e], next[i], now[i]) {
      if i in seen {
        AttendsMore(es, e, since[i], seen[i]);
      } else {
        AttendsFirst(es, e);
      }
    }
  }

  lemma OffersMore(es: seq<Event>, e: Event)
    ensures AllOffers(es + [e]) == AllOffers(es) + Offers(e)
  {
    assert (es + [e])[..|es|] == es;
  }

  lemma AttendsMore(es: seq<Event>, e: Event, from: nat, seen: seq<Seen>)
    requires Attends(es, from, seen)
    ensures Attends(es + [e], from, seen + Offers(e))
  {
    hide AllOffers, Offers;
    assert (es + [e])[from + 1..] == es[from + 1..] + [e];
    OffersMore(es[from + 1..], e);
  }

  lemma AttendsFirst(es: seq<Event>, e: Event)
    requires e.Joined?
    ensures Attends(es + [e], |es|, [])
  {
    assert (es + [e])[|es| + 1..] == [];
  }
}
