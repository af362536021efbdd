/** A configuration change held in RAM until it is committed, reverted or timed out. */
module Txns {
  import opened BitSeq
  import opened Outcomes
  import opened CfgData
  import opened Device
  import opened Replies
  import opened Links
  import opened Sessions

  datatype Change = Change(key: Key, was: seq<Byte>, now: seq<Byte>)

  function News(cs: seq<Change>): (kvs: seq<KV>)
    ensures |kvs| == |cs| && forall i :: 0 <= i < |cs| ==> kvs[i] == KV(cs[i].key, cs[i].now)
  {
    if cs == [] then [] else News(cs[..|cs| - 1]) + [KV(cs[|cs| - 1].key, cs[|cs| - 1].now)]
  }

  function Olds(cs: seq<Change>): (kvs: seq<KV>)
    ensures |kvs| == |cs| && forall i :: 0 <= i < |cs| ==> kvs[i] == KV(cs[i].key, cs[i].was)
  {
    if cs == [] then [] else Olds(cs[..|cs| - 1]) + [KV(cs[|cs| - 1].key, cs[|cs| - 1].was)]
  }

  /** The changes that write `kvs` over the snapshot `c`. */
  ghost predicate Over(cs: seq<Change>, c: Config, kvs: seq<KV>) {
    && |cs| == |kvs|
    && forall i :: 0 <= i < |kvs| ==>
         kvs[i].key in c && cs[i] == Change(kvs[i].key, c[kvs[i].key], kvs[i].value)
  }

  lemma OverNews(cs: seq<Change>, c: Config, kvs: seq<KV>)
    requires Over(cs, c, kvs)
    ensures News(cs) == kvs && Stored(c, kvs)
    ensures Tidy(c) ==> Widths(Olds(cs)) && Stored(c, Olds(cs))
  {
    var olds := Olds(cs);
    forall i | 0 <= i < |olds| ensures olds[i].key in c && (Tidy(c) ==> |olds[i].value| == KeySize(olds[i].key)) {
      assert olds[i] == KV(kvs[i].key, c[kvs[i].key]);
      assert Tidy(c) ==> Sized(KV(kvs[i].key, c[kvs[i].key]));
    }
  }

  /** Writing back the snapshot undoes any part of the write. */
  lemma Restored(c: Config, cs: seq<Change>, kvs: seq<KV>, m: nat, ignore: set<Key>)
    requires Over(cs, c, kvs) && m <= |kvs|
    ensures Put(Put(c, kvs[..m], ignore), Olds(cs), ignore) == c
  {
    hide Put, Gives, Mentions;
    var mid, olds := Put(c, kvs[..m], ignore), Olds(cs);
    forall k
      ensures k in Put(mid, olds, ignore) <==> k in c
      ensures k in c ==> Put(mid, olds, ignore)[k] == c[k]
    {
      RestoredAt(c, cs, kvs, m, ignore, k);
    }
    assert Put(mid, olds, ignore) == c;
  }

  lemma RestoredAt(c: Config, cs: seq<Change>, kvs: seq<KV>, m: nat, ignore: set<Key>, k: Key)
    requires Over(cs, c, kvs) && m <= |kvs|
    ensures var r := Put(Put(c, kvs[..m], ignore), Olds(cs), ignore);
            (k in r <==> k in c) && (k in c ==> r[k] == c[k])
  {
    hide Put;
    var a, olds := kvs[..m], Olds(cs);
    var mid := Put(c, a, ignore);
    if k !in ignore && Mentions(olds, k) {
      var i :| 0 <= i < |olds| && olds[i].key == k;
      assert Gives(olds, k, c[k]);
      PutGives(mid, olds, ignore, k, c[k]);
    } else {
      if Mentions(a, k) {
        var i :| 0 <= i < |a| && a[i].key == k;
        assert olds[i].key == k;
      }
      PutUntouched(c, a, ignore, k);
      PutUntouched(mid, olds, ignore, k);
    }
  }

  /** The layer holds every pair of the list. */
  ghost predicate Holds(c: Config, kvs: seq<KV>) {
    forall i :: 0 <= i < |kvs| ==> kvs[i].key in c && c[kvs[i].key] == kvs[i].value
  }

  /** No key is given two values. */
  ghost predicate Consistent(kvs: seq<KV>) {
    forall i, j :: 0 <= i < |kvs| && 0 <= j < |kvs| && kvs[i].key == kvs[j].key ==> kvs[i].value == kvs[j].value
  }

  lemma HoldsConsistent(c: Config, kvs: seq<KV>)
    requires Holds(c, kvs)
    ensures Consistent(kvs)
  {
  }

  /** What a key of a consistent list ends with. */
  lemma PutHolds(d: Config, kvs: seq<KV>, ignore: set<Key>, i: nat)
    requires Consistent(kvs) && i < |kvs|
    ensures kvs[i].key !in ignore ==>
              kvs[i].key in Put(d, kvs, ignore) && Put(d, kvs, ignore)[kvs[i].key] == kvs[i].value
    ensures kvs[i].key in ignore ==>
              (kvs[i].key in Put(d, kvs, ignore) <==> kvs[i].key in d)
              && (kvs[i].key in d ==> Put(d, kvs, ignore)[kvs[i].key] == d[kvs[i].key])
  {
    hide Put;
    if kvs[i].key in ignore {
      PutUntouched(d, kvs, ignore, kvs[i].key);
    } else {
      assert Gives(kvs, kvs[i].key, kvs[i].value);
      PutGives(d, kvs, ignore, kvs[i].key, kvs[i].value);
    }
  }

  /** A layer that was written agrees with the request exactly when every ignored key among the
      changes already had its new value there before. */
  lemma Agreement(c: Config, kvs: seq<KV>, ignore: set<Key>)
    requires Consistent(kvs) && Stored(c, kvs)
    ensures Holds(Put(c, kvs, ignore), kvs) <==>
            forall i :: 0 <= i < |kvs| && kvs[i].key in ignore ==> c[kvs[i].key] == kvs[i].value
  {
    hide Put, Consistent;
    forall i | 0 <= i < |kvs|
      ensures kvs[i].key in Put(c, kvs, ignore)
      ensures kvs[i].key in ignore ==> Put(c, kvs, ignore)[kvs[i].key] == c[kvs[i].key]
      ensures kvs[i].key !in ignore ==> Put(c, kvs, ignore)[kvs[i].key] == kvs[i].value
    {
      assert kvs[i] in kvs;
      PutHolds(c, kvs, ignore, i);
    }
  }

  /** A write leaves a layer as it was exactly when every key it is not spared already had its
      value. */
  lemma PutChanges(c: Config, kvs: seq<KV>, ignore: set<Key>)
    requires Consistent(kvs) && Stored(c, kvs)
    ensures Put(c, kvs, ignore) == c <==>
            forall i :: 0 <= i < |kvs| && kvs[i].key !in ignore ==> c[kvs[i].key] == kvs[i].value
  {
    hide Put, Mentions;
    var d := Put(c, kvs, ignore);
    forall i | 0 <= i < |kvs| ensures kvs[i].key !in ignore ==> kvs[i].key in d && d[kvs[i].key] == kvs[i].value {
      PutHolds(c, kvs, ignore, i);
    }
    if forall i :: 0 <= i < |kvs| && kvs[i].key !in ignore ==> c[kvs[i].key] == kvs[i].value {
      forall k ensures (k in d <==> k in c) && (k in c ==> d[k] == c[k]) {
        PutSpares(c, kvs, ignore, k);
      }
      assert d == c;
    }
  }

  lemma PutNone(c: Config, kvs: seq<KV>, ignore: set<Key>)
    ensures Put(c, kvs[..0], ignore) == c
  {
  }

  lemma PutSpares(c: Config, kvs: seq<KV>, ignore: set<Key>, k: Key)
    requires Consistent(kvs) && Stored(c, kvs)
    requires forall i :: 0 <= i < |kvs| && kvs[i].key !in ignore ==> c[kvs[i].key] == kvs[i].value
    ensures (k in Put(c, kvs, ignore) <==> k in c) && (k in c ==> Put(c, kvs, ignore)[k] == c[k])
  {
    hide Put;
    if Mentions(kvs, k) {
      var i :| 0 <= i < |kvs| && kvs[i].key == k;
      assert kvs[i] in kvs;
      PutHolds(c, kvs, ignore, i);
    } else {
      PutUntouched(c, kvs, ignore, k);
    }
  }

  /** Writing one prefix over another leaves what the longer one would. */
  lemma PutPrefixes(c: Config, kvs: seq<KV>, a: nat, b: nat, ignore: set<Key>)
    requires Consistent(kvs) && a <= |kvs| && b <= |kvs|
    ensures Put(Put(c, kvs[..a], ignore), kvs[..b], ignore) == Put(c, kvs[..if a < b then b else a], ignore)
  {
    hide Put, Mentions, Consistent;
    var x, y := Put(Put(c, kvs[..a], ignore), kvs[..b], ignore), Put(c, kvs[..if a < b then b else a], ignore);
    forall k ensures (k in x <==> k in y) && (k in x ==> x[k] == y[k]) {
      PrefixesAt(c, kvs, a, b, ignore, k);
    }
    assert x == y;
  }

  lemma PrefixesAt(c: Config, kvs: seq<KV>, a: nat, b: nat, ignore: set<Key>, k: Key)
    requires Consistent(kvs) && a <= |kvs| && b <= |kvs|
    ensures var x, y := Put(Put(c, kvs[..a], ignore), kvs[..b], ignore), Put(c, kvs[..if a < b then b else a], ignore);
            (k in x <==> k in y) && (k in x ==> x[k] == y[k])
  {
    hide Put, Mentions, Consistent;
    PrefixAt(c, kvs, a, ignore, k);
    PrefixAt(Put(c, kvs[..a], ignore), kvs, b, ignore, k);
    PrefixAt(c, kvs, if a < b then b else a, ignore, k);
  }

  /** The position a key is first mentioned at; the length if it is not. */
  function FirstAt(kvs: seq<KV>, k: Key): (i: nat)
    ensures i <= |kvs| && (i < |kvs| ==> kvs[i].key == k) && forall j :: 0 <= j < i ==> kvs[j].key != k
  {
    if kvs == [] then 0 else if kvs[0].key == k then 0 else 1 + FirstAt(kvs[1..], k)
  }

  lemma PrefixAt(c: Config, kvs: seq<KV>, a: nat, ignore: set<Key>, k: Key)
    requires Consistent(kvs) && a <= |kvs|
    ensures var x, i := Put(c, kvs[..a], ignore), FirstAt(kvs, k);
            if i < a && k !in ignore then k in x && x[k] == kvs[i].value
            else (k in x <==> k in c) && (k in c ==> x[k] == c[k])
  {
    hide Put;
    var p, i := kvs[..a], FirstAt(kvs, k);
    if i < a {
      assert p[i] == kvs[i] && Consistent(p);
      PutHolds(c, p, ignore, i);
    } else {
      assert !Mentions(p, k);
      PutUntouched(c, p, ignore, k);
    }
  }

  lemma PagedKeys(c: Config, d: Config)
    requires c.Keys == d.Keys && Paged(c)
    ensures Paged(d)
  {
    forall q: Key ensures |Selection(d, q)| <= PAGES * PAGE {
      assert Matches(c, q) == Matches(d, q);
      assert |Selection(c, q)| <= PAGES * PAGE;
    }
  }

  lemma StoredKeys(c: Config, d: Config, kvs: seq<KV>)
    requires c.Keys == d.Keys
    ensures Stored(c, kvs) <==> Stored(d, kvs)
  {
    assert forall k :: k in c.Keys <==> k in d.Keys;
  }

  lemma RevertLands(c: Config, mem: Memory, cs: seq<Change>, landed: nat, m: nat, ignore: set<Key>)
    requires Over(cs, c, News(cs)) && landed <= |cs| && m <= |cs| && mem.ram == Put(c, News(cs)[..landed], ignore)
    ensures var r := After(mem, 1, Olds(cs)[..m], ignore);
            r.bbr == mem.bbr && r.flash == mem.flash && (m == |cs| ==> r.ram == c)
  {
    hide Put, Over;
    Restored(c, cs, News(cs), landed, ignore);
    if m == |cs| {
      assert Olds(cs)[..m] == Olds(cs);
    }
  }

  datatype Ending = Open | Committed | Reverted(acked: bool)

  datatype Event = CommitAsked | RevertAsked | TimerFired

  class Txn {
    const sess: Session
    const changes: seq<Change>
    var armed: bool
    var done: bool
    /** How often each channel has been closed. */
    var doneCloses: nat
    var revertedCloses: nat
    /** The receiver's memory before the change, and how much of the change has landed. */
    ghost const start: Memory
    ghost const landed: nat
    ghost var ending: Ending
    ghost var commits: nat
    /** How much of the change has landed in the permanent layers, at the most. */
    ghost var persisted: nat

    ghost predicate Shaped()
      reads `armed, `done, `doneCloses, `revertedCloses, `ending
    {
      && Over(changes, start.ram, News(changes)) && Tidy(start.ram)
      && start.bbr.Keys == start.ram.Keys && start.flash.Keys == start.ram.Keys
      && doneCloses == (if done then 1 else 0) && (done ==> !armed)
      && revertedCloses == (if ending.Reverted? then 1 else 0) && done == !ending.Open?
    }

    lemma ShapedMeans()
      requires Shaped()
      ensures Over(changes, start.ram, News(changes)) && Tidy(start.ram)
      ensures start.bbr.Keys == start.ram.Keys && start.flash.Keys == start.ram.Keys
    {
      hide Over, Tidy;
    }

    /** RAM holds the part of the change that landed; `live`, that is all of it, read back. */
    ghost predicate Applied(live: bool)
      reads this, sess, sess.dev
    {
      && landed <= |changes| && sess.dev.ram == Put(start.ram, News(changes)[..landed], sess.dev.ignore)
      && (live ==> landed == |changes| && Widths(News(changes)) && Holds(sess.dev.ram, News(changes)))
    }

    ghost predicate Permanent()
      reads this, sess, sess.dev
    {
      && sess.dev.ram.Keys == start.ram.Keys
      && persisted <= |changes| && (commits == 0 ==> persisted == 0)
      && sess.dev.bbr == Put(start.bbr, News(changes)[..persisted], sess.dev.ignore)
      && sess.dev.flash == Put(start.flash, News(changes)[..persisted], sess.dev.ignore)
    }

    ghost predicate Valid(live: bool)
      reads this, sess, sess.dev
    {
      && sess.Valid() && Shaped() && Permanent() && (live ==> Consistent(News(changes)))
      && match ending
         case Open => Applied(live)
         case Committed =>
           && Applied(true) && persisted == |changes|
         case Reverted(acked) => acked ==> sess.dev.ram == start.ram
    }

    constructor (s: Session, cs: seq<Change>, ghost m0: Memory, ghost m: nat, arm: bool)
      requires s.Valid() && Over(cs, m0.ram, News(cs)) && Tidy(m0.ram)
      requires m0.bbr.Keys == m0.ram.Keys && m0.flash.Keys == m0.ram.Keys
      requires s.dev.bbr == m0.bbr && s.dev.flash == m0.flash
      requires s.dev.ram.Keys == m0.ram.Keys
      requires m <= |cs| && s.dev.ram == Put(m0.ram, News(cs)[..m], s.dev.ignore)
      ensures sess == s && changes == cs && start == m0 && landed == m
      ensures Valid(false) && ending == Open && armed == arm && commits == 0 && persisted == 0
    {
      hide Put, Widths, Tidy, Session.Valid, Over;
      PutNone(m0.bbr, News(cs), s.dev.ignore);
      PutNone(m0.flash, News(cs), s.dev.ignore);
      sess, changes, armed, done, doneCloses, revertedCloses := s, cs, arm, false, 0, 0;
      start, landed, ending, commits, persisted := m0, m, Open, 0, 0;
    }

    /** Restores the snapshot, once. */
    method RevertNow(ghost live: bool) returns (ok: bool)
      requires Valid(live)
      modifies this`armed, this`done, this`doneCloses, this`revertedCloses, this`ending
      modifies sess`buf, sess.dev`out, sess.dev`cuts, sess.dev`turn, sess.dev`ram, sess.dev`bbr, sess.dev`flash,
               sess.dev`sets
      ensures Valid(live) && done && sess.dev.turn >= old(sess.dev.turn)
      ensures sess.dev.bbr == old(sess.dev.bbr) && sess.dev.flash == old(sess.dev.flash) && persisted == old(persisted)
      ensures old(done) ==>
                ok && ending == old(ending) && sess.dev.ram == old(sess.dev.ram) && sess.dev.turn == old(sess.dev.turn)
      ensures !old(done) ==> ending == Reverted(ok)
      ensures !old(done) ==>
                var d := Delivered(sess.dev.fate, old(sess.dev.turn), |changes|);
                && d.landed <= |changes| && ok == d.acked && sess.dev.turn == d.turn
                && sess.dev.Mem() == After(old(sess.dev.Mem()), 1, Olds(changes)[..d.landed], sess.dev.ignore)
      ensures Answering(sess.dev.fate, old(sess.dev.turn), sess.dev.turn) ==> ok
    {
      hide Put, Widths, Tidy, Stored, Answering, Over, Consistent, Holds, Session.Valid, InBatches, After,
           Delivered, AfterSets, Session.At, Session.World;
      if done {
        return true;
      }
      ShapedMeans();
      armed := false;
      done, doneCloses, revertedCloses := true, doneCloses + 1, revertedCloses + 1;
      ok := WriteBack();
      ending := Reverted(ok);
    }

    /** Sends the snapshot. */
    method WriteBack() returns (ok: bool)
      requires sess.Valid() && Applied(false) && Over(changes, start.ram, News(changes)) && Tidy(start.ram)
      requires sess.dev.ram.Keys == start.ram.Keys
      modifies sess`buf, sess.dev`out, sess.dev`cuts, sess.dev`turn, sess.dev`ram, sess.dev`bbr, sess.dev`flash,
               sess.dev`sets
      ensures sess.Valid() && sess.dev.ram.Keys == start.ram.Keys && sess.dev.turn >= old(sess.dev.turn)
      ensures sess.dev.bbr == old(sess.dev.bbr) && sess.dev.flash == old(sess.dev.flash)
      ensures ok ==> sess.dev.ram == start.ram
      ensures var d := Delivered(sess.dev.fate, old(sess.dev.turn), |changes|);
              && d.landed <= |changes| && ok == d.acked && sess.dev.turn == d.turn
              && sess.dev.Mem() == After(old(sess.dev.Mem()), 1, Olds(changes)[..d.landed], sess.dev.ignore)
      ensures Answering(sess.dev.fate, old(sess.dev.turn), sess.dev.turn) ==> ok
    {
      hide Put, Widths, Tidy, Stored, Answering, Over, Consistent, Holds, Session.Valid, InBatches, After, Delivered,
           AfterSets, Session.At, Session.World;
      OverNews(changes, start.ram, News(changes));
      ghost var mem := sess.dev.Mem();
      StoredKeys(start.ram, sess.dev.ram, Olds(changes));
      var r, m := sess.SetChunked(1, Olds(changes));
      ok := r.Acked?;
      RevertLands(start.ram, mem, changes, landed, m, sess.dev.ignore);
    }

    /** Writes the change to the permanent layers; only then is the transaction finished. */
    method Commit() returns (ok: bool)
      requires Valid(true)
      modifies this`armed, this`done, this`doneCloses, this`ending, this`commits, this`persisted
      modifies sess`buf, sess.dev`out, sess.dev`cuts, sess.dev`turn, sess.dev`ram, sess.dev`bbr, sess.dev`flash,
               sess.dev`sets
      ensures Valid(true) && sess.dev.ram == old(sess.dev.ram) && sess.dev.turn >= old(sess.dev.turn)
      ensures old(done) ==> !ok && done && ending == old(ending) && sess.dev.Mem() == old(sess.dev.Mem())
                            && sess.dev.turn == old(sess.dev.turn)
      ensures !old(done) ==> ending == (if ok then Committed else Open)
      ensures !old(done) && Answering(sess.dev.fate, old(sess.dev.turn), sess.dev.turn) ==> ok
      ensures !ok ==> armed == old(armed)
      ensures old(done) ==> persisted == old(persisted)
      ensures !old(done) ==>
                var d := Delivered(sess.dev.fate, old(sess.dev.turn), |changes|);
                && ok == d.acked && sess.dev.turn == d.turn
                && persisted == if old(persisted) < d.landed then d.landed else old(persisted)
    {
      hide Put, Widths, Tidy, Stored, Answering, Over, Consistent, Holds, Session.Valid, Delivered;
      if done {
        return false;
      }
      ok := Persist();
      if ok {
        armed, done, doneCloses, ending := false, true, doneCloses + 1, Committed;
      }
    }

    /** Writes BBR and Flash. Whatever part lands, they hold the longest part ever landed. */
    method Persist() returns (ok: bool)
      requires Valid(true) && ending == Open
      modifies this`commits, this`persisted
      modifies sess`buf, sess.dev`out, sess.dev`cuts, sess.dev`turn, sess.dev`ram, sess.dev`bbr, sess.dev`flash,
               sess.dev`sets
      ensures sess.Valid() && Shaped() && Permanent() && Applied(true) && Consistent(News(changes))
      ensures sess.dev.ram == old(sess.dev.ram) && sess.dev.turn >= old(sess.dev.turn)
      ensures old(persisted) <= persisted && (ok ==> persisted == |changes|)
      ensures Answering(sess.dev.fate, old(sess.dev.turn), sess.dev.turn) ==> ok
      ensures var d := Delivered(sess.dev.fate, old(sess.dev.turn), |changes|);
              && ok == d.acked && sess.dev.turn == d.turn
              && persisted == if old(persisted) < d.landed then d.landed else old(persisted)
    {
      hide Put, Widths, Tidy, Stored, Answering, Over, Consistent, Holds, Session.Valid, InBatches, After,
           Delivered, AfterSets, Shaped, Session.At, Session.World;
      ShapedMeans();
      commits := commits + 1;
      ghost var mem := sess.dev.Mem();
      OverNews(changes, start.ram, News(changes));
      StoredKeys(start.ram, mem.ram, News(changes));
      var r, m := sess.SetChunked(6, News(changes));
      CommitLands(start, mem, News(changes), persisted, m, sess.dev.ignore);
      persisted := if persisted < m then m else persisted;
      ok := r.Acked?;
    }

    /** Runs any sequence of commits, reverts and timer expiries. */
    method Drive(events: seq<Event>)
      requires Valid(true)
      modifies this`armed, this`done, this`doneCloses, this`revertedCloses, this`ending, this`commits, this`persisted
      modifies sess`buf, sess.dev`out, sess.dev`cuts, sess.dev`turn, sess.dev`ram, sess.dev`bbr, sess.dev`flash,
               sess.dev`sets
      ensures Valid(true)
      ensures old(done) ==> done && ending == old(ending) && sess.dev.Mem() == old(sess.dev.Mem())
                            && sess.dev.turn == old(sess.dev.turn)
      ensures CommitAsked !in events ==>
                !(ending.Committed? && old(ending).Open?)
                && sess.dev.bbr == old(sess.dev.bbr) && sess.dev.flash == old(sess.dev.flash)
      ensures RevertAsked in events || TimerFired in events ==> done
    {
      hide Put, Widths, Tidy, Stored, Answering, Over, Consistent, Holds, Session.Valid, Shaped, Permanent, Applied;
      var i := 0;
      while i < |events|
        invariant 0 <= i <= |events| && Valid(true)
        invariant old(done) ==> done && ending == old(ending) && sess.dev.Mem() == old(sess.dev.Mem())
                                && sess.dev.turn == old(sess.dev.turn)
        invariant CommitAsked !in events[..i] ==>
                    !(ending.Committed? && old(ending).Open?)
                    && sess.dev.bbr == old(sess.dev.bbr) && sess.dev.flash == old(sess.dev.flash)
        invariant RevertAsked in events[..i] || TimerFired in events[..i] ==> done
      {
        assert events[..i + 1] == events[..i] + [events[i]];
        match events[i] {
          case CommitAsked =>
            var _ := Commit();
          case RevertAsked =>
            var _ := RevertNow(true);
          case TimerFired =>
            var _ := RevertNow(true);
        }
        i := i + 1;
      }
      assert events[..i] == events;
    }
  }

  lemma LayersSound(s: Session)
    requires s.Valid()
    ensures var m := s.dev.Mem();
            && Tidy(m.ram) && Tidy(m.bbr) && Tidy(m.flash)
            && m.bbr.Keys == m.ram.Keys && m.flash.Keys == m.ram.Keys
  {
  }

  lemma CommitLands(start: Memory, mem: Memory, news: seq<KV>, p: nat, m: nat, ignore: set<Key>)
    requires Consistent(news) && p <= |news| && m <= |news|
    requires mem.bbr == Put(start.bbr, news[..p], ignore) && mem.flash == Put(start.flash, news[..p], ignore)
    ensures var r, q := After(mem, 6, news[..m], ignore), if p < m then m else p;
            && r.ram == mem.ram
            && r.bbr == Put(start.bbr, news[..q], ignore) && r.flash == Put(start.flash, news[..q], ignore)
  {
    hide Put, Consistent;
    PutPrefixes(start.bbr, news, p, m, ignore);
    PutPrefixes(start.flash, news, p, m, ignore);
  }

  /** After a commit the three layers agree on the changed keys exactly when every ignored key
      among them already had its new value in the permanent layers. */
  lemma CommitAgrees(t: Txn)
    requires t.Valid(true) && t.ending.Committed?
    ensures var news, dev := News(t.changes), t.sess.dev;
            && Holds(dev.ram, news)
            && (Holds(dev.bbr, news) && Holds(dev.flash, news) <==>
                forall i :: 0 <= i < |news| && news[i].key in dev.ignore ==>
                  && news[i].key in t.start.bbr && t.start.bbr[news[i].key] == news[i].value
                  && news[i].key in t.start.flash && t.start.flash[news[i].key] == news[i].value)
  {
    hide Put, Widths, Tidy, Consistent, Session.Valid;
    var news, dev := News(t.changes), t.sess.dev;
    OverNews(t.changes, t.start.ram, news);
    StoredKeys(t.start.ram, t.start.bbr, news);
    StoredKeys(t.start.ram, t.start.flash, news);
    assert news[..t.persisted] == news;
    Agreement(t.start.bbr, news, dev.ignore);
    Agreement(t.start.flash, news, dev.ignore);
  }

  /** Whatever became of a transaction, BBR and Flash are as before it exactly when everything of
      the change that ever landed there, ignored keys apart, was there already. In particular
      a commit that fails part way and is then reverted leaves its landed part behind. */
  lemma PermanentAsBefore(t: Txn)
    requires t.Valid(true)
    ensures var news, dev := News(t.changes), t.sess.dev;
            dev.bbr == t.start.bbr && dev.flash == t.start.flash <==>
            forall i :: 0 <= i < t.persisted && news[i].key !in dev.ignore ==>
              && news[i].key in t.start.bbr && t.start.bbr[news[i].key] == news[i].value
              && news[i].key in t.start.flash && t.start.flash[news[i].key] == news[i].value
  {
    hide Put, Widths, Tidy, Session.Valid, Over, Stored, Consistent, Holds;
    var news, dev := News(t.changes), t.sess.dev;
    OverNews(t.changes, t.start.ram, news);
    StoredKeys(t.start.ram, t.start.bbr, news);
    StoredKeys(t.start.ram, t.start.flash, news);
    PartChanges(t.start.bbr, news, t.persisted, dev.ignore);
    PartChanges(t.start.flash, news, t.persisted, dev.ignore);
  }

  lemma PartChanges(c: Config, kvs: seq<KV>, n: nat, ignore: set<Key>)
    requires Consistent(kvs) && Stored(c, kvs) && n <= |kvs|
    ensures Put(c, kvs[..n], ignore) == c <==>
            forall i :: 0 <= i < n && kvs[i].key !in ignore ==> kvs[i].key in c && c[kvs[i].key] == kvs[i].value
  {
    hide Put;
    var part := kvs[..n];
    forall i | 0 <= i < n ensures kvs[i].key in c && part[i] == kvs[i] {
      assert kvs[i] in kvs;
    }
    assert forall kv :: kv in part ==> kv in kvs;
    PutChanges(c, part, ignore);
  }

  // ---- applying a change

  datatype Outcome = Accepted | NothingAsked | Unreadable | Failed(reverted: bool)

  function KeysOf(kvs: seq<KV>): (ks: seq<Key>)
    ensures |ks| == |kvs| && forall i :: 0 <= i < |kvs| ==> ks[i] == kvs[i].key
  {
    if kvs == [] then [] else KeysOf(kvs[..|kvs| - 1]) + [kvs[|kvs| - 1].key]
  }

  function Snapshot(c: Config, kvs: seq<KV>): (cs: seq<Change>)
    requires Stored(c, kvs)
    ensures Over(cs, c, kvs)
  {
    if kvs == [] then []
    else
      var kv := kvs[|kvs| - 1];
      Snapshot(c, kvs[..|kvs| - 1]) + [Change(kv.key, c[kv.key], kv.value)]
  }

  lemma SnapshotTrue(c: Config, before: Config, kvs: seq<KV>)
    requires Stored(before, kvs) && forall k :: k in before ==> k in c && before[k] == c[k]
    ensures Over(Snapshot(before, kvs), c, kvs)
  {
  }

  lemma SnapshotRead(c: Config, before: Config, kvs: seq<KV>)
    requires forall k :: k in before ==> k in KeysOf(kvs) && k in c && before[k] == c[k]
    ensures Stored(before, kvs) ==> Stored(c, kvs) && Over(Snapshot(before, kvs), c, kvs)
    ensures (forall k :: k in KeysOf(kvs) && k in c ==> k in before) && Stored(c, kvs) ==> Stored(before, kvs)
  {
    forall i | 0 <= i < |kvs| ensures kvs[i].key in KeysOf(kvs) {
      assert KeysOf(kvs)[i] == kvs[i].key;
    }
    if Stored(before, kvs) {
      SnapshotTrue(c, before, kvs);
    }
  }

  /** Every pair is read back with the value written; a key not read counts as empty. */
  predicate Verified(read: Config, kvs: seq<KV>) {
    forall i :: 0 <= i < |kvs| ==> (if kvs[i].key in read then read[kvs[i].key] else []) == kvs[i].value
  }

  lemma VerifiedHolds(ram: Config, read: Config, kvs: seq<KV>)
    requires Widths(kvs) && Stored(ram, kvs) && Tidy(ram)
    requires forall k :: k in read ==> k in ram && read[k] == ram[k]
    ensures Verified(read, kvs) ==> Holds(ram, kvs) && forall i :: 0 <= i < |kvs| ==> kvs[i].key in read
    ensures Holds(ram, kvs) && (forall i :: 0 <= i < |kvs| ==> kvs[i].key in read) ==> Verified(read, kvs)
  {
    hide KeySize;
    forall i | 0 <= i < |kvs| && Verified(read, kvs)
      ensures kvs[i].key in ram && ram[kvs[i].key] == kvs[i].value && kvs[i].key in read
    {
      assert kvs[i] in kvs;
      assert Sized(KV(kvs[i].key, ram[kvs[i].key]));
    }
  }

  /** What a request must satisfy for a receiver that answers to accept it. */
  ghost predicate Acceptable(c: Config, kvs: seq<KV>, ignore: set<Key>) {
    kvs != [] && Stored(c, kvs) && Widths(kvs) && Holds(Put(c, kvs, ignore), kvs)
  }

  /** Reads back what was written, up to three times while the answer is short. */
  method ReadBack(s: Session, keys: seq<Key>) returns (read: Config, err: bool)
    requires s.Valid()
    modifies s`buf, s.dev`out, s.dev`cuts, s.dev`turn
    ensures s.Valid() && s.dev.turn >= old(s.dev.turn)
    ensures forall k :: k in read ==> k in s.dev.ram && read[k] == s.dev.ram[k]
    ensures Paged(s.dev.ram) && Answering(s.dev.fate, old(s.dev.turn), s.dev.turn) ==>
              !err && forall k :: k in keys && k in s.dev.ram ==> k in read
    ensures (!err && forall k :: k in keys ==> k in read) <==> ReadsBack(old(s.At()), s.World(), s.dev.ram, keys)
  {
    hide Session.Valid, Paged, Answering, GroupsRead, GroupFails, AllRead, GroupsRun, Attempt;
    var attempt := 0;
    ghost var start, l := s.dev.turn, s.At();
    FirstAttempt(l, s.World(), s.dev.ram, keys);
    while true
      invariant 0 <= attempt <= 2 && s.Valid() && start <= s.dev.turn
      invariant s.At() == Attempt(l, s.World(), s.dev.ram, keys, attempt)
      invariant Distinct(keys) ==> forall i: nat :: i < attempt ==>
                  !AllRead(Attempt(l, s.World(), s.dev.ram, keys, i), s.World(), LAYER_RAM, s.dev.ram, keys)
      decreases 3 - attempt
    {
      ghost var asked, at := s.dev.turn, s.At();
      ghost var n;
      read, err, n := s.ReadKeys(LAYER_RAM, keys);
      AnsweringParts(s.dev.fate, start, asked, s.dev.turn);
      AllGroups(read, at, s.World(), LAYER_RAM, s.dev.ram, keys, n);
      NextAttempt(l, s.World(), s.dev.ram, keys, attempt);
      Counted(read, keys);
      if (!err && |read| == |keys|) || attempt == 2 {
        AttemptsSoFar(l, s.World(), s.dev.ram, keys, attempt);
        return;
      }
      attempt := attempt + 1;
    }
  }

  lemma FirstAttempt(l: Link, env: Env, c: Config, keys: seq<Key>)
    ensures Attempt(l, env, c, keys, 0) == l
  {
  }

  lemma NextAttempt(l: Link, env: Env, c: Config, keys: seq<Key>, i: nat)
    ensures Attempt(l, env, c, keys, i + 1)
         == GroupsRun(Attempt(l, env, c, keys, i), env, LAYER_RAM, c, keys, 256).link
  {
    hide GroupsRun;
  }

  /** The attempt that ends the read-back decides about it. */
  lemma AttemptsSoFar(l: Link, env: Env, c: Config, keys: seq<Key>, i: nat)
    requires i <= 2
    requires Distinct(keys) ==>
               forall j: nat :: j < i ==> !AllRead(Attempt(l, env, c, keys, j), env, LAYER_RAM, c, keys)
    ensures (i < 2 ==> Distinct(keys) && AllRead(Attempt(l, env, c, keys, i), env, LAYER_RAM, c, keys)) ==>
              (ReadsBack(l, env, c, keys) <==> AllRead(Attempt(l, env, c, keys, i), env, LAYER_RAM, c, keys))
  {
    hide AllRead, Attempt;
    FirstAttempt(l, env, c, keys);
  }

  /** A map with some of the keys is as large as the list exactly when it has them all and none is
      listed twice. */
  lemma Counted(read: Config, keys: seq<Key>)
    requires forall k :: k in read ==> k in keys
    ensures |read| == |keys| <==> Distinct(keys) && forall k :: k in keys ==> k in read
  {
    var s := Members(keys);
    SizeOf(keys);
    assert |read| == |read.Keys| && read.Keys <= s;
    if s <= read.Keys {
      assert read.Keys == s;
    } else {
      Smaller(read.Keys, s);
    }
  }

  lemma Smaller(a: set<Key>, b: set<Key>)
    requires a <= b && !(b <= a)
    ensures |a| < |b|
  {
    assert b == a + (b - a) && b - a != {};
  }

  function Members(keys: seq<Key>): (s: set<Key>)
    ensures forall k :: k in s <==> k in keys
  {
    set k | k in keys
  }

  lemma {:induction false} SizeOf(keys: seq<Key>)
    ensures |Members(keys)| <= |keys| && (|Members(keys)| == |keys| <==> Distinct(keys))
  {
    hide Members;
    if keys != [] {
      hide Distinct;
      var n := |keys| - 1;
      var g, x := keys[..n], keys[n];
      SizeOf(g);
      DistinctSnoc(g, x);
      assert keys == g + [x];
      assert Members(keys) == Members(g) + {x};
      assert x in g ==> Members(g) + {x} == Members(g);
    }
  }

  lemma DistinctSnoc(g: seq<Key>, x: Key)
    ensures Distinct(g + [x]) <==> Distinct(g) && x !in g
  {
    var keys := g + [x];
    assert forall i :: 0 <= i < |g| ==> keys[i] == g[i];
    if x in g {
      var i :| 0 <= i < |g| && g[i] == x;
      assert keys[i] == x == keys[|g|];
    }
  }

  /** Undoes a change that could not be completed. */
  method Abandon(s: Session, cs: seq<Change>, ghost m0: Memory, ghost m: nat) returns (ok: bool)
    requires s.Valid() && Over(cs, m0.ram, News(cs)) && Tidy(m0.ram)
    requires m <= |cs| && s.dev.Mem() == After(m0, 1, News(cs)[..m], s.dev.ignore) && s.dev.ram.Keys == m0.ram.Keys
    modifies s`buf, s.dev`out, s.dev`cuts, s.dev`turn, s.dev`ram, s.dev`bbr, s.dev`flash, s.dev`sets
    ensures s.Valid() && s.dev.turn >= old(s.dev.turn)
    ensures s.dev.bbr == m0.bbr && s.dev.flash == m0.flash && (ok ==> s.dev.ram == m0.ram)
    ensures var d := Delivered(s.dev.fate, old(s.dev.turn), |cs|);
            && d.landed <= |cs| && ok == d.acked && s.dev.turn == d.turn
            && s.dev.Mem() == After(old(s.dev.Mem()), 1, Olds(cs)[..d.landed], s.dev.ignore)
    ensures Answering(s.dev.fate, old(s.dev.turn), s.dev.turn) ==> ok
  {
    hide Session.Valid, Put, Over, Answering, Tidy, Widths, Stored;
    LayersSound(s);
    var t := new Txn(s, cs, m0, m, false);
    ok := t.RevertNow(false);
  }

  method HasAll(before: Config, kvs: seq<KV>) returns (all: bool)
    ensures all <==> Stored(before, kvs)
  {
    var i := 0;
    while i < |kvs|
      invariant 0 <= i <= |kvs| && Stored(before, kvs[..i])
    {
      if kvs[i].key !in before {
        return false;
      }
      i := i + 1;
    }
    assert kvs[..i] == kvs;
    return true;
  }

  lemma StoredRead(before: Config, kvs: seq<KV>)
    ensures Stored(before, kvs) <==> forall k :: k in KeysOf(kvs) ==> k in before
  {
    if forall k :: k in KeysOf(kvs) ==> k in before {
      forall i | 0 <= i < |kvs| ensures kvs[i].key in before {
        assert KeysOf(kvs)[i] == kvs[i].key;
      }
    }
  }

  /** Takes the snapshot a revert needs; a key that cannot be read will not be written. */
  method Prepare(s: Session, kvs: seq<KV>) returns (o: Option<seq<Change>>)
    requires s.Valid()
    modifies s`buf, s.dev`out, s.dev`cuts, s.dev`turn
    ensures s.Valid() && s.dev.turn >= old(s.dev.turn)
    ensures o.Some? ==> Over(o.value, s.dev.ram, kvs) && News(o.value) == kvs && Stored(s.dev.ram, kvs)
    ensures Paged(s.dev.ram) && Answering(s.dev.fate, old(s.dev.turn), s.dev.turn) && Stored(s.dev.ram, kvs) ==> o.Some?
    ensures o.Some? <==> AllRead(old(s.At()), s.World(), LAYER_RAM, s.dev.ram, KeysOf(kvs))
    ensures s.At() == Attempt(old(s.At()), s.World(), s.dev.ram, KeysOf(kvs), 1)
  {
    hide Session.Valid, Answering, Stored, Paged, Over, GroupsRead, GroupFails, AllRead, GroupsRun, Attempt;
    FirstAttempt(s.At(), s.World(), s.dev.ram, KeysOf(kvs));
    NextAttempt(s.At(), s.World(), s.dev.ram, KeysOf(kvs), 0);
    ghost var n;
    var before, err;
    before, err, n := s.ReadKeys(LAYER_RAM, KeysOf(kvs));
    AllGroups(before, old(s.At()), s.World(), LAYER_RAM, s.dev.ram, KeysOf(kvs), n);
    if err {
      return None;
    }
    StoredRead(before, kvs);
    var all := HasAll(before, kvs);
    SnapshotRead(s.dev.ram, before, kvs);
    if !all {
      return None;
    }
    OverNews(Snapshot(before, kvs), s.dev.ram, kvs);
    return Some(Snapshot(before, kvs));
  }

  /** The write is acknowledged to the end, RAM then holds it, and the read-back is whole. */
  ghost predicate Installs(l: Link, env: Env, c: Config, kvs: seq<KV>, ignore: set<Key>) {
    && Widths(kvs) && Delivered(env.fate, l.turn, |kvs|).acked
    && Holds(Put(c, kvs, ignore), kvs)
    && ReadsBack(AfterSets(l, env, |kvs|), env, Put(c, kvs, ignore), KeysOf(kvs))
  }

  /** Writes the change to RAM and reads it back. */
  method Install(s: Session, kvs: seq<KV>) returns (good: bool, ghost m: nat)
    requires s.Valid() && Stored(s.dev.ram, kvs)
    modifies s`buf, s.dev`out, s.dev`cuts, s.dev`turn, s.dev`ram, s.dev`bbr, s.dev`flash, s.dev`sets
    ensures s.Valid() && s.dev.turn >= old(s.dev.turn) && s.dev.ram.Keys == old(s.dev.ram.Keys)
    ensures m <= |kvs| && s.dev.Mem() == After(old(s.dev.Mem()), 1, kvs[..m], s.dev.ignore)
    ensures good ==> m == |kvs| && Widths(kvs) && Holds(s.dev.ram, kvs)
    ensures Paged(old(s.dev.ram)) && Answering(s.dev.fate, old(s.dev.turn), s.dev.turn) ==>
              (good <==> Widths(kvs) && Holds(Put(old(s.dev.ram), kvs, s.dev.ignore), kvs))
    ensures good <==> Installs(old(s.At()), s.World(), old(s.dev.ram), kvs, s.dev.ignore)
  {
    hide Session.Valid, Put, Answering, Tidy, Widths, Stored, Holds, Verified, Paged, InBatches, AfterSets, ReadsBack,
         Delivered;
    ghost var ram, start := s.dev.ram, s.dev.turn;
    var r;
    r, m := s.SetChunked(1, kvs);
    ghost var wrote := s.dev.turn;
    if !r.Acked? {
      return false, m;
    }
    assert kvs[..m] == kvs;
    LayersSound(s);
    var read, unread := ReadBack(s, KeysOf(kvs));
    AnsweringParts(s.dev.fate, start, wrote, s.dev.turn);
    ReadBackRight(ram, s.dev.ram, read, kvs);
    good := !unread && Verified(read, kvs);
  }

  /** How undoing a failed change begins: so much of it has landed, and this is the next request. */
  datatype Undoing = Undoing(cs: seq<Change>, landed: nat, turn: nat)

  /** Writes the change to RAM, reads it back, and hands over a transaction that holds it until
      it is committed or reverted; otherwise puts the old values back. */
  method Apply(s: Session, kvs: seq<KV>) returns (t: Txn?, outcome: Outcome, ghost undo: Undoing)
    requires s.Valid()
    modifies s`buf, s.dev`out, s.dev`cuts, s.dev`turn, s.dev`ram, s.dev`bbr, s.dev`flash, s.dev`sets
    ensures s.Valid() && s.dev.bbr == old(s.dev.bbr) && s.dev.flash == old(s.dev.flash)
    ensures (t != null) == outcome.Accepted?
    ensures outcome.Accepted? ==>
              && fresh(t) && t.sess == s && t.Valid(true) && t.ending == Open && t.armed && t.commits == 0
              && t.start == old(s.dev.Mem()) && Over(t.changes, old(s.dev.ram), kvs)
              && s.dev.ram == Put(old(s.dev.ram), kvs, s.dev.ignore) && Holds(s.dev.ram, kvs)
    ensures outcome.NothingAsked? <==> kvs == []
    ensures outcome.Unreadable? <==>
              kvs != [] && !AllRead(old(s.At()), s.World(), LAYER_RAM, old(s.dev.ram), KeysOf(kvs))
    ensures outcome.Accepted? <==>
              && kvs != [] && AllRead(old(s.At()), s.World(), LAYER_RAM, old(s.dev.ram), KeysOf(kvs))
              && Installs(Attempt(old(s.At()), s.World(), old(s.dev.ram), KeysOf(kvs), 1), s.World(), old(s.dev.ram),
                          kvs, s.dev.ignore)
    ensures outcome.NothingAsked? || outcome.Unreadable? || outcome == Failed(true) ==> s.dev.ram == old(s.dev.ram)
    ensures outcome.Failed? ==>
              var d := Delivered(s.dev.fate, undo.turn, |kvs|);
              && Over(undo.cs, old(s.dev.ram), kvs) && |undo.cs| == |kvs|
              && undo.landed <= |kvs| && old(s.dev.turn) <= undo.turn && d.landed <= |kvs|
              && outcome.reverted == d.acked && s.dev.turn == d.turn
              && s.dev.Mem() == After(After(old(s.dev.Mem()), 1, kvs[..undo.landed], s.dev.ignore), 1,
                                      Olds(undo.cs)[..d.landed], s.dev.ignore)
    ensures Paged(old(s.dev.ram)) && Answering(s.dev.fate, old(s.dev.turn), s.dev.turn) ==>
              && outcome != Failed(false)
              && (outcome.Accepted? <==> Acceptable(old(s.dev.ram), kvs, s.dev.ignore))
  {
    hide Session.Valid, Put, Over, Answering, Tidy, Widths, Stored, Holds, Paged, InBatches, AllRead,
         KeysOf, Delivered, Txn.Permanent, Consistent, Installs, Attempt;
    t, undo := null, Undoing([], 0, 0);
    if kvs == [] {
      return null, NothingAsked, undo;
    }
    ghost var m0, start := s.dev.Mem(), s.dev.turn;
    var o := Prepare(s, kvs);
    if o.None? {
      return null, Unreadable, undo;
    }
    ghost var read := s.dev.turn;
    LayersSound(s);
    var good, m := Install(s, kvs);
    ghost var wrote := s.dev.turn;
    if !good {
      undo := Undoing(o.value, m, s.dev.turn);
      var ok := Abandon(s, o.value, m0, m);
      AnsweringParts(s.dev.fate, start, wrote, s.dev.turn);
      AnsweringParts(s.dev.fate, start, read, wrote);
      return null, Failed(ok), undo;
    }
    AnsweringParts(s.dev.fate, start, read, wrote);
    assert kvs[..m] == kvs;
    HoldsConsistent(s.dev.ram, kvs);
    t := new Txn(s, o.value, m0, m, true);
    outcome := Accepted;
  }

  lemma ReadBackRight(c: Config, ram: Config, read: Config, kvs: seq<KV>)
    requires Widths(kvs) && Stored(c, kvs) && Tidy(ram) && ram.Keys == c.Keys
    requires forall k :: k in read ==> k in ram && read[k] == ram[k]
    ensures Verified(read, kvs) ==> Holds(ram, kvs)
    ensures Holds(ram, kvs) && (forall k :: k in KeysOf(kvs) && k in ram ==> k in read) ==> Verified(read, kvs)
    ensures Verified(read, kvs) ==> forall k :: k in KeysOf(kvs) ==> k in read
    ensures forall k :: k in KeysOf(kvs) ==> k in ram
    ensures Paged(c) ==> Paged(ram)
  {
    hide Widths, Tidy, Paged, Verified, Holds;
    StoredKeys(c, ram, kvs);
    VerifiedHolds(ram, read, kvs);
    forall i | 0 <= i < |kvs| ensures kvs[i].key in KeysOf(kvs) && kvs[i].key in ram {
      assert KeysOf(kvs)[i] == kvs[i].key && kvs[i] in kvs;
    }
    forall k | k in KeysOf(kvs) ensures k in ram && (Verified(read, kvs) ==> k in read) {
      var i :| 0 <= i < |kvs| && KeysOf(kvs)[i] == k;
      assert kvs[i].key == k && kvs[i] in kvs;
    }
    if Paged(c) {
      PagedKeys(c, ram);
    }
  }
}
