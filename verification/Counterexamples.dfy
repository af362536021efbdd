/** Concrete runs of the configuration conversation in which it falls short of its promise. */
module Counterexamples {
  import opened BitSeq
  import opened Streams
  import opened Ubx
  import opened CfgData
  import opened Device
  import opened Replies
  import opened SortedSets
  import opened Links
  import opened Sessions
  import opened Txns

  /** A key with one byte of value. */
  const KEY: Key := 0x1000_0001

  lemma NothingIsQuiet()
    ensures Quiet([]) && Parse(DRAIN, []) == []
  {
  }

  lemma OneKeyPaged(c: Config)
    requires c.Keys == {KEY}
    ensures Paged(c)
  {
    forall q: Key ensures |Selection(c, q)| <= PAGES * PAGE {
      var s := Matches(c, q);
      assert s <= {KEY};
      assert s == {} || s == {KEY};
    }
  }

  /** A receiver with one key, answering everything at once. */
  method OneKey(ram: Byte, stored: Byte, ignore: set<Key>) returns (s: Session)
    ensures fresh(s) && fresh(s.dev) && s.Valid()
    ensures s.dev.ram == map[KEY := [ram]] && s.dev.bbr == s.dev.flash == map[KEY := [stored]]
    ensures s.dev.ignore == ignore && forall n :: s.dev.fate(n).Answered?
  {
    hide Quiet, Parse;
    NothingIsQuiet();
    var d := new Receiver(map[KEY := [ram]], map[KEY := [stored]], map[KEY := [stored]], ignore, _ => Answered,
        _ => [], []);
    s := new Session(d);
  }

  /** Setting the only key is accepted when RAM then holds the value. */
  method Set(s: Session, v: Byte) returns (t: Txn)
    requires s.Valid() && s.dev.ram.Keys == {KEY} && (forall n :: s.dev.fate(n).Answered?)
    requires KEY in s.dev.ignore ==> s.dev.ram[KEY] == [v]
    modifies s`buf, s.dev`out, s.dev`cuts, s.dev`turn, s.dev`ram, s.dev`bbr, s.dev`flash, s.dev`sets
    ensures fresh(t) && t.sess == s && t.Valid(true) && t.ending == Open && t.commits == 0 && t.persisted == 0
    ensures t.start == old(s.dev.Mem()) && s.dev.bbr == old(s.dev.bbr) && s.dev.flash == old(s.dev.flash)
    ensures |t.changes| == 1 && News(t.changes) == [KV(KEY, [v])]
    ensures s.dev.ram == map[KEY := [v]]
  {
    var kvs := [KV(KEY, [v])];
    OneKeyPaged(s.dev.ram);
    OneKeyAcceptable(s.dev.ram, v, s.dev.ignore);
    ghost var undo;
    var u, outcome;
    u, outcome, undo := Apply(s, kvs);
    assert outcome.Accepted?;
    t := u;
    OverNews(t.changes, t.start.ram, kvs);
  }

  lemma OneKeyAcceptable(c: Config, v: Byte, ignore: set<Key>)
    requires c.Keys == {KEY} && (KEY in ignore ==> c[KEY] == [v])
    ensures var kvs := [KV(KEY, [v])];
            Acceptable(c, kvs, ignore) && Put(c, kvs, ignore) == map[KEY := [v]]
  {
    var kvs := [KV(KEY, [v])];
    assert kvs[..0] == [] && Put(c, [], ignore) == c;
  }

  /** The acknowledgement of a commit is lost, and the transaction is then reverted. */
  method LoseAck(t: Txn)
    requires t.Valid(true) && t.ending.Open? && 0 < |t.changes| <= MAX_SET
    modifies t`armed, t`done, t`doneCloses, t`revertedCloses, t`ending, t`commits, t`persisted
    modifies t.sess`buf, t.sess.dev`out, t.sess.dev`cuts, t.sess.dev`turn, t.sess.dev`ram, t.sess.dev`bbr,
             t.sess.dev`flash, t.sess.dev`sets, t.sess.dev`fate
    ensures t.Valid(true) && t.ending == Reverted(true) && t.persisted == |t.changes|
  {
    hide Quiet, Parse, Tidy, Widths, Consistent, Over, Holds, Put, Answering;
    var dev := t.sess.dev;
    dev.fate := _ => Mute;
    var ok := t.Commit();
    dev.fate := _ => Answered;
    ghost var from := dev.turn;
    ok := t.RevertNow(true);
    AlwaysAnswering(dev.fate, from, dev.turn);
  }

  /** A commit whose acknowledgement is lost fails, the revert that follows restores RAM, and the
      new value stays in BBR and Flash. */
  method HalfCommitted() returns (t: Txn)
    ensures fresh(t) && t.Valid(true) && t.ending == Reverted(true)
    ensures t.sess.dev.ram == t.start.ram == map[KEY := [0]]
    ensures t.start.bbr == t.start.flash == map[KEY := [0]]
    ensures t.sess.dev.bbr == t.sess.dev.flash == map[KEY := [1]]
  {
    hide Quiet, Parse, Tidy, Widths, Consistent, Over, Holds, Put, Session.Valid;
    var s := OneKey(0, 0, {});
    t := Set(s, 1);
    LoseAck(t);
    PutOne(t.start.bbr, 1);
    assert News(t.changes)[..1] == [KV(KEY, [1])];
  }

  lemma AlwaysAnswering(fate: nat -> Fate, from: nat, to: nat)
    requires forall n :: fate(n).Answered?
    ensures Answering(fate, from, to)
  {
  }

  lemma PutOne(c: Config, v: Byte)
    requires c.Keys == {KEY}
    ensures Put(c, [KV(KEY, [v])], {}) == map[KEY := [v]]
  {
    assert [KV(KEY, [v])][..0] == [] && Put(c, [], {}) == c;
  }

  /** A key the receiver acknowledges but ignores: RAM happens to hold the new value, the commit
      succeeds, and BBR and Flash keep the old one. */
  method IgnoredKeySplits() returns (t: Txn)
    ensures fresh(t) && t.Valid(true) && t.ending.Committed?
    ensures t.sess.dev.ram == map[KEY := [1]] && t.sess.dev.bbr == t.sess.dev.flash == map[KEY := [0]]
    ensures !Holds(t.sess.dev.flash, News(t.changes))
  {
    hide Quiet, Parse, Tidy, Widths, Consistent, Over, Session.Valid;
    var s := OneKey(1, 0, {KEY});
    t := Set(s, 1);
    var ok := t.Commit();
  }

  // ---- a read that loses keys without an error

  const FIRST: Key := 0x1000_0000

  /** So many keys in one group. */
  function Keys(n: nat): (c: Config)
    requires n <= 65
    ensures |c.Keys| == n && forall k :: k in c <==> FIRST <= k < FIRST + n
    ensures forall k :: k in c ==> c[k] == [0]
  {
    if n == 0 then map[]
    else
      var b := Keys(n - 1);
      assert b[FIRST + n - 1 := [0]].Keys == b.Keys + {FIRST + n - 1};
      b[FIRST + n - 1 := [0]]
  }

  lemma Selection65()
    ensures Tidy(Keys(65)) && |Selection(Keys(65), Wildcard(0))| == 65
    ensures Matches(Keys(65), Wildcard(0)) == Keys(65).Keys
  {
    hide Keys;
    var c := Keys(65);
    assert Matches(c, Wildcard(0)) == c.Keys;
  }

  const WORLD: Env := Env(n => if n == 0 then Answered else Deaf, _ => [])

  function PageFrame(c: Config, p: seq<Byte>): seq<Byte>
    requires |p| == 8
  {
    MessageFrame(CLS_CFG, ID_VALGET, PageData(c, p, Page(c, KeyAt(p[4..]), Position(p))))
  }

  function AckFrame(): seq<Byte> {
    MessageFrame(CLS_ACK, ID_ACK, [CLS_CFG, ID_VALGET])
  }

  /** A frame that brings a page stops the poll by itself. */
  lemma PageStops(c: Config, p: seq<Byte>)
    requires Tidy(c) && |p| == 8
    ensures PageFrame(c, p) != [] && Stops(PageFrame(c, p)) && Residue(DRAIN, PageFrame(c, p)) == []
  {
    hide Parse, Residue, MessageFrame, FrameOf, MsgOf, Frames, Take, HasReply, HasNak, AllPairs, PageData, Page, KeyAt,
         Tidy;
    var ks := Page(c, KeyAt(p[4..]), Position(p));
    PageFits(c, p, ks);
    OneFrame(CLS_CFG, ID_VALGET, PageData(c, p, ks));
    var f := FrameOf(CLS_CFG, ID_VALGET, PageData(c, p, ks));
    TakeSnoc([], f);
    assert [] + [f] == [f];
    FrameBytes(CLS_CFG, ID_VALGET, PageData(c, p, ks));
  }

  lemma FrameBytes(cls: Byte, id: Byte, payload: seq<Byte>)
    ensures MessageFrame(cls, id, payload) != [] && FrameOf(cls, id, payload).raw == MessageFrame(cls, id, payload)
  {
  }

  /** The first read brings the page and nothing else; the poll ends with the acknowledgement
      still on its way. */
  lemma AckBehind(c: Config, p: seq<Byte>)
    requires Tidy(c) && |p| == 8 && Page(c, KeyAt(p[4..]), Position(p)) != []
    ensures AfterPoll(Link([], [], [|PageFrame(c, p)|], 0), WORLD, c, p) == Link([], AckFrame(), [], 1)
  {
    hide PageData, Page, KeyAt, Tidy, MessageFrame, Residue, Stops;
    var page, ack := PageFrame(c, p), AckFrame();
    PageStops(c, p);
    var l := Link([], page + ack, [|page|], 1);
    assert [] + ([] + (page + ack)) == page + ack;
    PollReads(l);
    assert [] + (page + ack)[..|page|] == page && (page + ack)[|page|..] == ack;
  }

  lemma AckNotSilent()
    ensures !Silent(Link([], AckFrame(), [], 1), WORLD)
  {
    hide Parse, Residue, MessageFrame, FrameOf, MsgOf, Frames, Take;
    OneFrame(CLS_ACK, ID_ACK, [CLS_CFG, ID_VALGET]);
    NothingIsQuiet();
    NothingSent();
    var f := FrameOf(CLS_ACK, ID_ACK, [CLS_CFG, ID_VALGET]);
    assert [] + AckFrame() == AckFrame() && [f] + [] == [f];
    AckHidesSilence([f], 0);
  }

  lemma NothingSent()
    ensures Sent([]) == []
  {
  }

  /** A group of 65 keys is read with the request for its second page unanswered: the first 64
      come back, and no error. */
  method SilentTruncation() returns (s: Session, out: Config, err: bool)
    ensures fresh(s) && fresh(s.dev) && !err
    ensures |s.dev.ram.Keys| == 65 && forall k :: k in s.dev.ram ==> GroupOf(k) == 0
    ensures exists k :: k in s.dev.ram && out.Keys == s.dev.ram.Keys - {k}
  {
    hide Quiet, Parse, Keys, Selection, PageFrame, AckFrame, AfterPoll, Silent, Readable, Page, Knows, Brought, KeyEnd,
         Tidy;
    var c, q := Keys(65), Wildcard(0);
    var p := Request(LAYER_RAM, q, 0);
    RequestAsks(LAYER_RAM, q, 0);
    Selection65();
    NothingIsQuiet();
    var d := new Receiver(c, c, c, {}, WORLD.fate, WORLD.noise, [|PageFrame(c, p)|]);
    s := new Session(d);
    ghost var l := s.At();
    ghost var n;
    out, err, n := s.ValGet(LAYER_RAM, [q]);
    ShortRead(l, c, q);
    LastMissing(out, l, c, q);
  }

  lemma LastMissing(out: Config, l: Link, c: Config, q: Key)
    requires |Selection(c, q)| == 65 && IsWildcard(q)
    requires Brought(out, l, WORLD, LAYER_RAM, c, [q], 1) && KeyEnd(l, WORLD, LAYER_RAM, c, [q], 0).got == 64
    ensures exists k :: k in Matches(c, q) && out.Keys == Matches(c, q) - {k}
  {
    hide Selection, KeyEnd, Matches, Readable;
    var ks := Selection(c, q);
    var k := ks[64];
    FirstOfThem(c, q);
    AllButLast(ks, Matches(c, q));
    forall x ensures x in out.Keys <==> x in Matches(c, q) - {k} {
      assert x in ks[..64] <==> x in Front(c, [q][0], KeyEnd(l, WORLD, LAYER_RAM, c, [q], 0).got);
    }
  }

  lemma FirstOfThem(c: Config, q: Key)
    requires |Selection(c, q)| == 65
    ensures Front(c, q, 64) == Selection(c, q)[..64]
  {
    hide Selection;
    FullPage(c, q);
  }

  lemma AllButLast(ks: seq<Key>, s: set<Key>)
    requires Lists(ks, s) && |ks| == 65
    ensures ks[64] in s && forall x :: x in ks[..64] <==> x in s - {ks[64]}
  {
    assert ks == ks[..64] + [ks[64]];
  }

  lemma ShortRead(l: Link, c: Config, q: Key)
    requires Tidy(c) && |Selection(c, q)| == 65
    requires l == Link([], [], [|PageFrame(c, Request(LAYER_RAM, q, 0))|], 0)
    ensures var r := KeyEnd(l, WORLD, LAYER_RAM, c, [q], 0); r.got == 64 && !r.err
  {
    hide Selection, PageFrame, AckFrame, AfterPoll, Silent, Page, Tidy, PagesRun;
    var p := Request(LAYER_RAM, q, 0);
    RequestAsks(LAYER_RAM, q, 0);
    FullPage(c, q);
    AckBehind(c, p);
    AckNotSilent();
    var k := PagesExactly(l, WORLD, LAYER_RAM, c, q, 0);
    assert FullAt(l, WORLD, c, q, 0, 0) && !FullAt(l, WORLD, c, q, 0, 1);
    assert k == 1;
    LinkOne(l, WORLD, LAYER_RAM, c, q);
  }

  lemma LinkOne(l: Link, env: Env, layer: Byte, c: Config, q: Key)
    ensures LinkAt(l, env, layer, c, q, 0, 1) == AfterPoll(l, env, c, Request(layer, q, 0))
  {
    hide AfterPoll, Request;
  }

  lemma FullPage(c: Config, q: Key)
    requires |Selection(c, q)| == 65
    ensures |Page(c, q, 0)| == PAGE && |Readable(c, q)| == 65
  {
    hide Selection;
  }

  // ---- repeated read-backs

  function Times(m: nat): (keys: seq<Key>)
    ensures |keys| == m && forall i :: 0 <= i < m ==> keys[i] == KEY
  {
    seq(m, _ => KEY)
  }

  /** One poll reads the only key, if it is answered. */
  lemma OnePoll(l: Link, env: Env, c: Config)
    requires c.Keys == {KEY}
    ensures Readable(c, KEY) == [KEY]
    ensures var r := PagesRun(l, env, LAYER_RAM, c, KEY, 0);
            !r.err && r.link.turn == l.turn + 1 && r.got == if env.fate(l.turn).Answered? then 1 else 0
  {
    hide AfterPoll, Silent;
    assert Matches(c, KEY) == {KEY};
    var ks := Selection(c, KEY);
    assert |ks| == 1 && ks[0] in Matches(c, KEY);
    assert ks == [KEY];
    TurnAfter(l, env, c, Request(LAYER_RAM, KEY, 0));
    PagesRuns(l, env, LAYER_RAM, c, KEY, 0);
  }

  lemma {:induction false} Polls(l: Link, env: Env, c: Config, m: nat, n: nat)
    requires c.Keys == {KEY} && n <= m
    ensures KeysRun(l, env, LAYER_RAM, c, Times(m), n) == ReadsEnd(KeyLink(l, env, LAYER_RAM, c, Times(m), n), false)
    ensures KeyLink(l, env, LAYER_RAM, c, Times(m), n).turn == l.turn + n
    ensures forall i :: 0 <= i < n ==>
              var r := KeyEnd(l, env, LAYER_RAM, c, Times(m), i);
              !r.err && r.got == if env.fate(l.turn + i).Answered? then 1 else 0
    decreases n
  {
    hide PagesRun, Times;
    if n > 0 {
      Polls(l, env, c, m, n - 1);
      OnePoll(KeyLink(l, env, LAYER_RAM, c, Times(m), n - 1), env, c);
    }
  }

  /** One of `m` requests is answered. */
  ghost predicate Heard(env: Env, turn: nat, m: nat) {
    exists t: nat :: turn <= t < turn + m && env.fate(t).Answered?
  }

  /** The only key, asked for `m` times, is read exactly when one of `m` requests is answered. */
  lemma OneKeyRead(l: Link, env: Env, c: Config, m: nat)
    requires c.Keys == {KEY} && 1 <= m <= 4
    ensures AllRead(l, env, LAYER_RAM, c, Times(m)) <==> Heard(env, l.turn, m)
    ensures Attempt(l, env, c, Times(m), 1).turn == l.turn + m
  {
    hide KeyEnd, KeysRun, KeyLink, Times, GroupsRun, GroupLink, InGroup, Found, Heard, Front;
    var keys := Times(m);
    assert forall k :: k in keys ==> k == KEY && GroupOf(k) == 0;
    OneGroup(l, env, LAYER_RAM, c, keys, 0, 256);
    Polls(l, env, c, m, m);
    OneKeyFound(l, env, c, m);
    forall g: nat, i: nat | g < 256 && i < |Polled(keys, g)| ensures !GroupEnd(l, env, LAYER_RAM, c, keys, g, i).err {
      OnlyGroup(keys, 0, g);
      OneGroup(l, env, LAYER_RAM, c, keys, 0, 0);
      assert g == 0 && Polled(keys, 0) == keys;
      assert GroupEnd(l, env, LAYER_RAM, c, keys, 0, i) == KeyEnd(l, env, LAYER_RAM, c, keys, i);
    }
    assert forall g: nat :: g < 256 ==> !GroupFails(l, env, LAYER_RAM, c, keys, g);
    assert keys[0] == KEY && KEY in keys && GroupOf(KEY) == 0;
    assert forall k :: k in keys ==> (Found(l, env, LAYER_RAM, c, keys, GroupOf(k), k) <==> Heard(env, l.turn, m));
  }

  lemma OneKeyFound(l: Link, env: Env, c: Config, m: nat)
    requires c.Keys == {KEY} && 1 <= m <= 4
    ensures Found(l, env, LAYER_RAM, c, Times(m), 0, KEY) <==> Heard(env, l.turn, m)
  {
    hide KeyEnd, Times, GroupLink, InGroup, Readable;
    var keys := Times(m);
    assert forall k :: k in keys ==> k == KEY && GroupOf(k) == 0;
    OneGroup(l, env, LAYER_RAM, c, keys, 0, 0);
    Polls(l, env, c, m, m);
    OnePoll(l, env, c);
    assert Polled(keys, 0) == keys;
    forall i | 0 <= i < m
      ensures KEY in Front(c, keys[i], GroupEnd(l, env, LAYER_RAM, c, keys, 0, i).got)
         <==> env.fate(l.turn + i).Answered?
    {
      assert GroupEnd(l, env, LAYER_RAM, c, keys, 0, i) == KeyEnd(l, env, LAYER_RAM, c, keys, i);
    }
    if Heard(env, l.turn, m) {
      var t: nat :| l.turn <= t < l.turn + m && env.fate(t).Answered?;
      assert KEY in Front(c, keys[t - l.turn], GroupEnd(l, env, LAYER_RAM, c, keys, 0, t - l.turn).got);
    }
  }

  const ONCE_SILENT: nat -> Fate := n => if n == 2 then Deaf else Answered

  const LATE_SILENT: nat -> Fate := n => if n >= 7 then Deaf else Answered

  /** A receiver with one key and a given temper. */
  method Tempered(fate: nat -> Fate) returns (s: Session)
    ensures fresh(s) && fresh(s.dev) && s.Valid() && s.At() == Link([], [], [], 0) && s.World() == Env(fate, _ => [])
    ensures s.dev.ram == map[KEY := [0]] && s.dev.ignore == {}
  {
    hide Quiet, Parse;
    NothingIsQuiet();
    var c := map[KEY := [0]];
    var d := new Receiver(c, c, c, {}, fate, _ => [], []);
    s := new Session(d);
  }

  function Ones(m: nat): (kvs: seq<KV>)
    ensures |kvs| == m && forall i :: 0 <= i < m ==> kvs[i] == KV(KEY, [1])
  {
    seq(m, _ => KV(KEY, [1]))
  }

  /** The write of the only key, `m` times over, and the link after it. */
  lemma Written(start: Link, env: Env, m: nat) returns (l: Link)
    requires 1 <= m <= 4 && env.fate(start.turn).Answered?
    ensures KeysOf(Ones(m)) == Times(m) && l.turn == start.turn + 1
    ensures Installs(start, env, map[KEY := [0]], Ones(m), {}) <==> ReadsBack(l, env, map[KEY := [1]], Times(m))
  {
    hide ReadsBack, AfterSets, Put, Ones, Times, Widths, Holds;
    l := OneWrite(start, env, m);
    assert KeysOf(Ones(m)) == Times(m);
    PutOnes(map[KEY := [0]], m);
  }

  lemma OneWrite(start: Link, env: Env, m: nat) returns (l: Link)
    requires 1 <= m <= 4 && env.fate(start.turn).Answered?
    ensures l == AfterSets(start, env, m) && l.turn == start.turn + 1 && Delivered(env.fate, start.turn, m).acked
  {
    hide AckLeft, AfterSets;
    l := AfterSets(start, env, m);
    SetsMore(start, env, m);
    AckTurn(start.(out := start.out + (env.noise(start.turn) + SetBytes(true)), turn := start.turn + 1));
    SetsMore(AfterSet(start, env, true), env, 0);
    assert Delivered(env.fate, start.turn + 1, 0).acked;
  }

  lemma {:induction false} PutOnes(c: Config, m: nat)
    requires c.Keys == {KEY} && 1 <= m
    ensures Put(c, Ones(m), {}) == map[KEY := [1]] && Holds(map[KEY := [1]], Ones(m)) && Widths(Ones(m))
  {
    hide Ones;
    var kvs := Ones(m);
    if m > 1 {
      assert kvs[..m - 1] == Ones(m - 1);
      PutOnes(c, m - 1);
    } else {
      assert Put(c, kvs[..0], {}) == c;
    }
  }

  /** The receiver resets after the write and misses the first read-back: the second one finds the
      value, and the change is accepted. */
  method SecondReadBack() returns (t: Txn?, outcome: Outcome)
    ensures outcome.Accepted? && t != null && t.sess.dev.fate == ONCE_SILENT && t.sess.dev.ram == map[KEY := [1]]
  {
    hide Quiet, Parse, AllRead, Attempt, Installs, Session.Valid, Txn.Valid, Put, Times, Ones, Paged, ReadsBack;
    var s := Tempered(ONCE_SILENT);
    OnceSilent(s.At(), s.World());
    ghost var undo;
    t, outcome, undo := Apply(s, Ones(1));
    PutOnes(map[KEY := [0]], 1);
  }

  lemma OnceSilent(at: Link, env: Env)
    requires env.fate == ONCE_SILENT && at.turn == 0
    ensures var c, keys := map[KEY := [0]], KeysOf(Ones(1));
            AllRead(at, env, LAYER_RAM, c, keys) && Installs(Attempt(at, env, c, keys, 1), env, c, Ones(1), {})
  {
    hide AllRead, Attempt, Installs, Times, Ones;
    var c, d := map[KEY := [0]], map[KEY := [1]];
    OneKeyRead(at, env, c, 1);
    HeardAt(env, 0, 1, 0);
    var l := Written(Attempt(at, env, c, Times(1), 1), env, 1);
    OneKeyRead(l, env, d, 1);
    OneKeyRead(Attempt(l, env, d, Times(1), 1), env, d, 1);
    HeardAt(env, 3, 1, 3);
    KeyOnce();
  }

  lemma HeardAt(env: Env, turn: nat, m: nat, t: nat)
    requires turn <= t < turn + m && env.fate(t).Answered?
    ensures Heard(env, turn, m)
  {
  }

  lemma KeyOnce()
    ensures Distinct(Times(1)) && !Distinct(Times(2))
  {
    assert Times(2)[0] == Times(2)[1];
  }

  /** The same key twice in one request: the first two read-backs find everything, but no answer is
      as long as the request, and the third read-back is silent. The change is undone. */
  method KeyTwice() returns (t: Txn?, outcome: Outcome)
    ensures t == null && outcome.Failed?
  {
    hide Quiet, Parse, AllRead, Attempt, Installs, Session.Valid, Txn.Valid, Put, Times, Ones, Paged, ReadsBack;
    var s := Tempered(LATE_SILENT);
    LateSilent(s.At(), s.World());
    ghost var undo;
    t, outcome, undo := Apply(s, Ones(2));
  }

  lemma LateSilent(at: Link, env: Env)
    requires env.fate == LATE_SILENT && at.turn == 0
    ensures var c, keys := map[KEY := [0]], KeysOf(Ones(2));
            AllRead(at, env, LAYER_RAM, c, keys) && !Installs(Attempt(at, env, c, keys, 1), env, c, Ones(2), {})
  {
    hide AllRead, Attempt, Installs, Times, Ones, Heard, ReadsBack, GroupsRun, Distinct, LATE_SILENT;
    LateFates();
    var c, d := map[KEY := [0]], map[KEY := [1]];
    OneKeyRead(at, env, c, 2);
    HeardAt(env, 0, 2, 0);
    var l := Written(Attempt(at, env, c, Times(2), 1), env, 2);
    OneKeyRead(l, env, d, 2);
    var second := Attempt(l, env, d, Times(2), 1);
    OneKeyRead(second, env, d, 2);
    FirstAttempt(l, env, d, Times(2));
    FirstAttempt(second, env, d, Times(2));
    NextAttempt(l, env, d, Times(2), 1);
    NextAttempt(second, env, d, Times(2), 0);
    OneKeyRead(Attempt(l, env, d, Times(2), 2), env, d, 2);
    NotHeard(env, 7, 2);
    HeardAt(env, 3, 2, 3);
    HeardAt(env, 5, 2, 5);
    assert AllRead(l, env, LAYER_RAM, d, Times(2)) && AllRead(second, env, LAYER_RAM, d, Times(2));
    KeyOnce();
    OnlyTheThird(l, env, d, Times(2));
  }

  lemma LateFates()
    ensures forall t: nat :: LATE_SILENT(t).Answered? <==> t < 7
  {
  }

  lemma OnlyTheThird(l: Link, env: Env, c: Config, keys: seq<Key>)
    requires !Distinct(keys)
    ensures ReadsBack(l, env, c, keys) <==> AllRead(Attempt(l, env, c, keys, 2), env, LAYER_RAM, c, keys)
  {
    hide Distinct, AllRead, Attempt;
  }

  lemma NotHeard(env: Env, turn: nat, m: nat)
    requires forall t: nat :: t >= turn ==> !env.fate(t).Answered?
    ensures !Heard(env, turn, m)
  {
  }
}
