/** The state of the link between session and receiver, and what a poll and a paged read make of
    it. Given where the reads cut, both are functions of that state. */
module Links {
  import opened BitSeq
  import opened Streams
  import opened Ubx
  import opened CfgData
  import opened Device
  import opened Replies

  /** The session's buffer, the bytes on their way, where coming reads cut, requests so far. */
  datatype Link = Link(buf: seq<Byte>, out: seq<Byte>, cuts: seq<nat>, turn: nat)

  datatype Env = Env(fate: nat -> Fate, noise: nat -> seq<Byte>)

  /** The most pairs one write request may hold. */
  const MAX_SET: nat := 64

  ghost predicate Stops(b: seq<Byte>) {
    DrainedWhole(b);
    HasReply(Take(Sent(b)), CLS_CFG, ID_VALGET) || HasNak(Take(Sent(b)))
  }

  /** What a poll leaves behind: it reads on until a read brings a page or a refusal. */
  ghost function PollLeft(l: Link): Link
    decreases |l.out|
  {
    if l.out == [] then l
    else
      var n := Cut(l.out, l.cuts);
      var b := l.buf + l.out[..n];
      var next := l.(buf := Residue(DRAIN, b), out := l.out[n..], cuts := Later(l.cuts));
      if Stops(b) then next else PollLeft(next)
  }

  function Arriving(env: Env, turn: nat, c: Config, p: seq<Byte>): seq<Byte>
    requires |p| == 8
  {
    env.noise(turn) + if env.fate(turn).Answered? then GetBytes(c, p) else []
  }

  ghost function AfterPoll(l: Link, env: Env, c: Config, p: seq<Byte>): Link
    requires |p| == 8
  {
    PollLeft(l.(out := l.out + Arriving(env, l.turn, c, p), turn := l.turn + 1))
  }

  /** The frames an unanswered poll will find. */
  function Waiting(l: Link, env: Env): seq<Frame> {
    Sent(l.buf + l.out) + Sent(env.noise(l.turn))
  }

  /** Nothing a poll collects is among them, so that the silence shows. */
  ghost predicate Silent(l: Link, env: Env) {
    Whole(Waiting(l, env)) && Take(Waiting(l, env)) == []
  }

  function Request(layer: Byte, q: Key, pos: nat): (p: seq<Byte>)
    requires pos < 65536
    ensures |p| == 8
  {
    [0, layer, pos % 256, pos / 256] + KeyBytes(q)
  }

  lemma RequestAsks(layer: Byte, q: Key, pos: nat)
    requires pos < 65536
    ensures var p := Request(layer, q, pos); p[1] == layer && KeyAt(p[4..]) == q && Position(p) == pos
    ensures Request(layer, q, pos)[..4] == [0, layer, pos % 256, pos / 256]
  {
    hide KeyBytes, KeyAt;
    KeyBack(q, []);
    assert Request(layer, q, pos)[4..] == KeyBytes(q) + [];
  }

  // ---- reading a selection page by page

  datatype PagesEnd = PagesEnd(link: Link, got: nat, err: bool)

  /** How a paged read goes on from a page: an unanswered request ends it, with an error only
      beyond the first page and only if the silence shows. */
  ghost function PagesRun(l: Link, env: Env, layer: Byte, c: Config, q: Key, page: nat): PagesEnd
    requires page <= PAGES
    decreases PAGES - page
  {
    if page == PAGES then PagesEnd(l, page * PAGE, false)
    else
      var next := AfterPoll(l, env, c, Request(layer, q, page * PAGE));
      var n := |Page(c, q, page * PAGE)|;
      if !env.fate(l.turn).Answered? then PagesEnd(next, page * PAGE, page > 0 && Silent(l, env))
      else if n < PAGE then PagesEnd(next, page * PAGE + n, false)
      else PagesRun(next, env, layer, c, q, page + 1)
  }

  /** The link when page `k` is asked for, the earlier requests having been answered. */
  ghost function LinkAt(l: Link, env: Env, layer: Byte, c: Config, q: Key, page: nat, k: nat): Link
    requires page <= k <= PAGES
    decreases k - page
  {
    if k == page then l
    else LinkAt(AfterPoll(l, env, c, Request(layer, q, page * PAGE)), env, layer, c, q, page + 1, k)
  }

  /** Page `j` is answered, and full, when page `page` is asked for on link `l`. */
  ghost predicate FullAt(l: Link, env: Env, c: Config, q: Key, page: nat, j: nat)
    requires page <= j
  {
    env.fate(l.turn + j - page).Answered? && |Page(c, q, j * PAGE)| == PAGE
  }

  /** A paged read exactly: with `k` the first page that is not both answered and full, an
      unanswered request loses everything from page `k` on, and is reported if and only if it is
      not the first and its silence shows; otherwise the whole selection is read. */
  lemma {:induction false} PagesExactly(l: Link, env: Env, layer: Byte, c: Config, q: Key, page: nat) returns (k: nat)
    requires page <= PAGES && page * PAGE <= |Selection(c, q)|
    ensures page <= k <= PAGES
    ensures forall j :: page <= j < k ==> FullAt(l, env, c, q, page, j)
    ensures k < PAGES ==> !FullAt(l, env, c, q, page, k)
    ensures var r := PagesRun(l, env, layer, c, q, page);
            if k < PAGES && !env.fate(l.turn + k - page).Answered? then
              r.got == k * PAGE && (r.err <==> k > 0 && Silent(LinkAt(l, env, layer, c, q, page, k), env))
            else r.got == |Readable(c, q)| && !r.err
    decreases PAGES - page
  {
    hide Selection, Page, Readable, Silent, AfterPoll;
    if page == PAGES {
      k := page;
      AllPages(c, q, page);
    } else {
      OnePage(c, q, page);
      var next := AfterPoll(l, env, c, Request(layer, q, page * PAGE));
      TurnAfter(l, env, c, Request(layer, q, page * PAGE));
      if !env.fate(l.turn).Answered? || |Page(c, q, page * PAGE)| < PAGE {
        k := page;
      } else {
        k := PagesExactly(next, env, layer, c, q, page + 1);
        forall j | page <= j < k ensures FullAt(l, env, c, q, page, j) {
          assert j > page ==> FullAt(next, env, c, q, page + 1, j);
        }
      }
    }
  }

  lemma AllPages(c: Config, q: Key, page: nat)
    requires page == PAGES && page * PAGE <= |Selection(c, q)|
    ensures |Readable(c, q)| == page * PAGE
  {
    hide Selection;
  }

  lemma OnePage(c: Config, q: Key, page: nat)
    requires page < PAGES && page * PAGE <= |Selection(c, q)|
    ensures var n := |Page(c, q, page * PAGE)|;
            && n <= PAGE && page * PAGE + n <= |Selection(c, q)|
            && (n < PAGE ==> page * PAGE + n == |Readable(c, q)|)
  {
    hide Selection, Slice, FirstPages;
    NextPage(Selection(c, q), page * PAGE);
  }

  lemma {:induction false} TurnKept(l: Link)
    ensures PollLeft(l).turn == l.turn
    decreases |l.out|
  {
    hide Stops;
    if l.out != [] {
      var n := Cut(l.out, l.cuts);
      TurnKept(l.(buf := Residue(DRAIN, l.buf + l.out[..n]), out := l.out[n..], cuts := Later(l.cuts)));
    }
  }

  lemma TurnAfter(l: Link, env: Env, c: Config, p: seq<Byte>)
    requires |p| == 8
    ensures AfterPoll(l, env, c, p).turn == l.turn + 1
  {
    hide PollLeft, Arriving;
    TurnKept(l.(out := l.out + Arriving(env, l.turn, c, p), turn := l.turn + 1));
  }

  /** One read of a poll. */
  lemma PollReads(l: Link)
    requires l.out != []
    ensures var n := Cut(l.out, l.cuts);
            var b := l.buf + l.out[..n];
            var next := l.(buf := Residue(DRAIN, b), out := l.out[n..], cuts := Later(l.cuts));
            PollLeft(l) == if Stops(b) then next else PollLeft(next)
  {
    hide Stops;
  }

  lemma PagesRuns(l: Link, env: Env, layer: Byte, c: Config, q: Key, page: nat)
    requires page < PAGES
    ensures var next := AfterPoll(l, env, c, Request(layer, q, page * PAGE));
            var n := |Page(c, q, page * PAGE)|;
            PagesRun(l, env, layer, c, q, page)
            == if !env.fate(l.turn).Answered? then PagesEnd(next, page * PAGE, page > 0 && Silent(l, env))
               else if n < PAGE then PagesEnd(next, page * PAGE + n, false)
               else PagesRun(next, env, layer, c, q, page + 1)
  {
    hide AfterPoll, Request, Page, Silent;
  }

  lemma PagesDone(l: Link, env: Env, layer: Byte, c: Config, q: Key)
    ensures PagesRun(l, env, layer, c, q, PAGES) == PagesEnd(l, PAGES * PAGE, false)
  {
  }

  lemma PollIdle(l: Link)
    ensures l.out == [] ==> PollLeft(l) == l
  {
  }

  lemma HasNakConcat(a: seq<Msg>, b: seq<Msg>)
    requires !HasNak(a)
    ensures HasNak(a + b) <==> HasNak(b)
  {
    if HasNak(b) {
      var i :| 0 <= i < |b| && b[i].cls == CLS_ACK && b[i].id == ID_NAK;
      assert (a + b)[|a| + i] == b[i];
    }
    if HasNak(a + b) {
      var i :| 0 <= i < |a + b| && (a + b)[i].cls == CLS_ACK && (a + b)[i].id == ID_NAK;
      assert i >= |a| && b[i - |a|] == (a + b)[i];
    }
  }

  // ---- reading several keys

  /** The link when the `i`-th requested key is turned to. */
  ghost function KeyLink(l: Link, env: Env, layer: Byte, c: Config, keys: seq<Key>, i: nat): Link
    requires i <= |keys|
    decreases i, 0
  {
    if i == 0 then l else KeyEnd(l, env, layer, c, keys, i - 1).link
  }

  /** How the paged read of the `i`-th requested key ends. */
  ghost function KeyEnd(l: Link, env: Env, layer: Byte, c: Config, keys: seq<Key>, i: nat): PagesEnd
    requires i < |keys|
    decreases i, 1
  {
    PagesRun(KeyLink(l, env, layer, c, keys, i), env, layer, c, keys[i], 0)
  }

  /** A key's read came back short without an error: its first request went unanswered, or a later
      one did and something still waiting hid it. */
  ghost predicate Short(l: Link, env: Env, layer: Byte, c: Config, keys: seq<Key>, i: nat)
    requires i < |keys|
  {
    var r := KeyEnd(l, env, layer, c, keys, i);
    !r.err && r.got < |Readable(c, keys[i])|
  }

  lemma ShortMeans(l: Link, env: Env, layer: Byte, c: Config, keys: seq<Key>, i: nat) returns (k: nat)
    requires i < |keys| && Short(l, env, layer, c, keys, i)
    ensures k < PAGES
    ensures var s := KeyLink(l, env, layer, c, keys, i);
            && (forall j :: 0 <= j < k ==> FullAt(s, env, c, keys[i], 0, j))
            && !env.fate(s.turn + k).Answered?
            && (k == 0 || !Silent(LinkAt(s, env, layer, c, keys[i], 0, k), env))
  {
    hide PagesRun, LinkAt, Silent, Readable, Page, KeyLink;
    k := PagesExactly(KeyLink(l, env, layer, c, keys, i), env, layer, c, keys[i], 0);
  }

  /** `out` is exactly what the first `n` keys' reads brought in. */
  ghost predicate Brought(out: Config, l: Link, env: Env, layer: Byte, c: Config, keys: seq<Key>, n: nat)
    requires n <= |keys|
  {
    forall k ::
      && (k in out <==> exists i :: 0 <= i < n && k in Front(c, keys[i], KeyEnd(l, env, layer, c, keys, i).got))
      && (k in out ==> k in c && out[k] == c[k])
  }

  /** The first `m` of the readable keys. */
  function Front(c: Config, q: Key, m: nat): seq<Key> {
    if m <= |Readable(c, q)| then Readable(c, q)[..m] else Readable(c, q)
  }

  lemma BroughtMore(out: Config, l: Link, env: Env, layer: Byte, c: Config, keys: seq<Key>, n: nat, m: nat)
    requires n < |keys| && Brought(out, l, env, layer, c, keys, n)
    requires m == KeyEnd(l, env, layer, c, keys, n).got && m <= |Readable(c, keys[n])|
    ensures Brought(Learn(out, c, Readable(c, keys[n])[..m]), l, env, layer, c, keys, n + 1)
  {
    hide Learn, Readable, KeyEnd, KeyLink;
    var ks := Readable(c, keys[n])[..m];
    var next := Learn(out, c, ks);
    forall k
      ensures k in next <==> exists i :: 0 <= i < n + 1 && k in Front(c, keys[i], KeyEnd(l, env, layer, c, keys, i).got)
      ensures k in next ==> k in c && next[k] == c[k]
    {
      LearnAt(out, c, ks, k);
      if k in ks {
        assert k in Front(c, keys[n], KeyEnd(l, env, layer, c, keys, n).got);
      }
    }
  }

  lemma BroughtNothing(l: Link, env: Env, layer: Byte, c: Config, keys: seq<Key>)
    ensures Brought(map[], l, env, layer, c, keys, 0)
  {
  }

  /** A requested key is missing although no error was returned only because some key's read came
      back short. */
  lemma MissingMeansShort(out: Config, l: Link, env: Env, layer: Byte, c: Config, keys: seq<Key>,
                          k: Key) returns (i: nat)
    requires Brought(out, l, env, layer, c, keys, |keys|) && Asks(c, keys, k) && k !in out
    requires forall j :: 0 <= j < |keys| ==> !KeyEnd(l, env, layer, c, keys, j).err
    ensures i < |keys| && Short(l, env, layer, c, keys, i) && k in Readable(c, keys[i])
  {
    hide KeyEnd, Readable;
    i :| 0 <= i < |keys| && k in Readable(c, keys[i]);
    assert k !in Front(c, keys[i], KeyEnd(l, env, layer, c, keys, i).got);
  }

  /** Reading keys one after the other, in general: the first whose read ends with an error stops
      it. */
  datatype ReadsEnd = ReadsEnd(link: Link, err: bool)

  ghost function KeysRun(l: Link, env: Env, layer: Byte, c: Config, keys: seq<Key>, n: nat): ReadsEnd
    requires n <= |keys|
    decreases n
  {
    if n == 0 then ReadsEnd(l, false)
    else
      var before := KeysRun(l, env, layer, c, keys, n - 1);
      if before.err then before
      else
        var r := PagesRun(before.link, env, layer, c, keys[n - 1], 0);
        ReadsEnd(r.link, r.err)
  }

  /** When the first `n` keys were read and only the last of them with an error, if any. */
  lemma {:induction false} KeysRunIs(l: Link, env: Env, layer: Byte, c: Config, keys: seq<Key>, n: nat)
    requires n <= |keys| && forall i :: 0 <= i < n - 1 ==> !KeyEnd(l, env, layer, c, keys, i).err
    ensures KeysRun(l, env, layer, c, keys, n)
         == ReadsEnd(KeyLink(l, env, layer, c, keys, n), n > 0 && KeyEnd(l, env, layer, c, keys, n - 1).err)
  {
    hide PagesRun;
    if n > 0 {
      KeysRunIs(l, env, layer, c, keys, n - 1);
    }
  }

  lemma {:induction false} KeysRunStays(l: Link, env: Env, layer: Byte, c: Config, keys: seq<Key>, n: nat, m: nat)
    requires n <= m <= |keys| && KeysRun(l, env, layer, c, keys, n).err
    ensures KeysRun(l, env, layer, c, keys, m) == KeysRun(l, env, layer, c, keys, n)
    decreases m
  {
    hide PagesRun;
    if n < m {
      KeysRunStays(l, env, layer, c, keys, n, m - 1);
    }
  }

  // ---- waiting for the acknowledgement of a write

  ghost predicate Acks(b: seq<Byte>) {
    DrainedWhole(b);
    FirstAck(Kept(Sent(b), CLS_CFG, ID_VALSET)).Some?
  }

  /** What waiting for an acknowledgement leaves behind: it reads on until a read brings one. */
  ghost function AckLeft(l: Link): Link
    decreases |l.out|
  {
    if l.out == [] then l
    else
      var n := Cut(l.out, l.cuts);
      var b := l.buf + l.out[..n];
      var next := l.(buf := Residue(DRAIN, b), out := l.out[n..], cuts := Later(l.cuts));
      if Acks(b) then next else AckLeft(next)
  }

  /** The link after a write request that the receiver, if it hears it, obeys or refuses. */
  ghost function AfterSet(l: Link, env: Env, ok: bool): Link {
    AckLeft(l.(out := l.out + (env.noise(l.turn) + if env.fate(l.turn).Answered? then SetBytes(ok) else []),
               turn := l.turn + 1))
  }

  /** The link after a chunked write of `n` stored pairs. */
  ghost function AfterSets(l: Link, env: Env, n: nat): Link
    decreases n
  {
    if n == 0 then l
    else
      var next := AfterSet(l, env, true);
      if env.fate(l.turn).Answered? then AfterSets(next, env, if n < MAX_SET then 0 else n - MAX_SET) else next
  }

  lemma AckReads(l: Link)
    requires l.out != []
    ensures var n := Cut(l.out, l.cuts);
            var b := l.buf + l.out[..n];
            var next := l.(buf := Residue(DRAIN, b), out := l.out[n..], cuts := Later(l.cuts));
            AckLeft(l) == if Acks(b) then next else AckLeft(next)
  {
    hide Acks;
  }

  lemma AckIdle(l: Link)
    ensures l.out == [] ==> AckLeft(l) == l
  {
  }

  lemma {:induction false} AckTurn(l: Link)
    ensures AckLeft(l).turn == l.turn
    decreases |l.out|
  {
    hide Acks;
    if l.out != [] {
      var n := Cut(l.out, l.cuts);
      AckTurn(l.(buf := Residue(DRAIN, l.buf + l.out[..n]), out := l.out[n..], cuts := Later(l.cuts)));
    }
  }

  lemma SetsMore(l: Link, env: Env, n: nat)
    ensures n > 0 ==>
              AfterSets(l, env, n)
              == if env.fate(l.turn).Answered?
                 then AfterSets(AfterSet(l, env, true), env, if n < MAX_SET then 0 else n - MAX_SET)
                 else AfterSet(l, env, true)
    ensures n == 0 ==> AfterSets(l, env, n) == l
  {
    hide AfterSet;
  }

  /** Up to four keys of a group are asked for one by one, more by the wildcard of the group. */
  lemma AskedOneByOne(want: seq<Key>, g: nat)
    requires g < 256
    ensures |want| <= 4 ==> AskFor(want, g) == want
    ensures |want| > 4 ==> AskFor(want, g) == [g * 0x1_0000 + 0xFFFF]
  {
  }

  // ---- reading the keys of all groups

  /** What is asked for to read the requested keys of one group. */
  function Polled(keys: seq<Key>, g: nat): seq<Key>
    requires g < 256
  {
    AskFor(InGroup(keys, g), g)
  }

  /** The link when group `g` is turned to. */
  ghost function GroupLink(l: Link, env: Env, layer: Byte, c: Config, keys: seq<Key>, g: nat): Link
    requires g <= 256
    decreases g
  {
    if g == 0 then l
    else KeyLink(GroupLink(l, env, layer, c, keys, g - 1), env, layer, c, Polled(keys, g - 1), |Polled(keys, g - 1)|)
  }

  /** How the read of the `i`-th key asked for in a group ends. */
  ghost function GroupEnd(l: Link, env: Env, layer: Byte, c: Config, keys: seq<Key>, g: nat, i: nat): PagesEnd
    requires g < 256 && i < |Polled(keys, g)|
  {
    KeyEnd(GroupLink(l, env, layer, c, keys, g), env, layer, c, Polled(keys, g), i)
  }

  ghost predicate GroupFails(l: Link, env: Env, layer: Byte, c: Config, keys: seq<Key>, g: nat)
    requires g < 256
  {
    exists i :: 0 <= i < |Polled(keys, g)| && GroupEnd(l, env, layer, c, keys, g, i).err
  }

  /** The reads of a group brought in the key. */
  ghost predicate Found(l: Link, env: Env, layer: Byte, c: Config, keys: seq<Key>, g: nat, k: Key)
    requires g < 256
  {
    exists i :: 0 <= i < |Polled(keys, g)|
             && k in Front(c, Polled(keys, g)[i], GroupEnd(l, env, layer, c, keys, g, i).got)
  }

  /** `out` is exactly what the groups below `g` brought in of the requested keys, none failing. */
  ghost predicate GroupsRead(out: Config, l: Link, env: Env, layer: Byte, c: Config, keys: seq<Key>, g: nat)
    requires g <= 256
  {
    && (forall j :: 0 <= j < g ==> !GroupFails(l, env, layer, c, keys, j))
    && (forall k :: k in out <==> k in keys && GroupOf(k) < g && Found(l, env, layer, c, keys, GroupOf(k), k))
  }

  lemma NoGroups(l: Link, env: Env, layer: Byte, c: Config, keys: seq<Key>)
    ensures GroupsRead(map[], l, env, layer, c, keys, 0)
  {
  }

  lemma GroupsMore(out: Config, next: Config, got: Config, l: Link, env: Env, layer: Byte, c: Config, keys: seq<Key>,
                   g: nat)
    requires g < 256 && GroupsRead(out, l, env, layer, c, keys, g)
    requires var (a, s) := (Polled(keys, g), GroupLink(l, env, layer, c, keys, g));
             && Brought(got, s, env, layer, c, a, |a|)
             && forall i :: 0 <= i < |a| ==> !KeyEnd(s, env, layer, c, a, i).err
    requires forall k :: k in next <==> k in out || (k in InGroup(keys, g) && k in got)
    ensures GroupsRead(next, l, env, layer, c, keys, g + 1)
  {
    hide InGroup, AskFor, GroupLink, KeyEnd, Front, GroupOf;
    forall k ensures k in next <==> k in keys && GroupOf(k) < g + 1 && Found(l, env, layer, c, keys, GroupOf(k), k) {
      InGroupAt(keys, g, k);
    }
  }

  /** Reading group after group: the link when group `g` is turned to, or after the first error. */
  ghost function GroupsRun(l: Link, env: Env, layer: Byte, c: Config, keys: seq<Key>, g: nat): ReadsEnd
    requires g <= 256
    decreases g
  {
    if g == 0 then ReadsEnd(l, false)
    else
      var before := GroupsRun(l, env, layer, c, keys, g - 1);
      if before.err then before
      else KeysRun(before.link, env, layer, c, Polled(keys, g - 1), |Polled(keys, g - 1)|)
  }

  lemma GroupsStart(l: Link, env: Env, layer: Byte, c: Config, keys: seq<Key>)
    ensures GroupsRun(l, env, layer, c, keys, 0) == ReadsEnd(l, false) && GroupLink(l, env, layer, c, keys, 0) == l
  {
  }

  /** One group more, read without an error or with one in its `m`-th key. */
  lemma GroupRun(l: Link, env: Env, layer: Byte, c: Config, keys: seq<Key>, g: nat, m: nat, err: bool)
    requires g < 256 && GroupsRun(l, env, layer, c, keys, g) == ReadsEnd(GroupLink(l, env, layer, c, keys, g), false)
    requires m <= |Polled(keys, g)| && if err then m > 0 else m == |Polled(keys, g)|
    requires forall i :: 0 <= i < m ==> (GroupEnd(l, env, layer, c, keys, g, i).err <==> err && i == m - 1)
    ensures GroupsRun(l, env, layer, c, keys, g + 1)
         == ReadsEnd(KeyLink(GroupLink(l, env, layer, c, keys, g), env, layer, c, Polled(keys, g), m), err)
    ensures !err ==> GroupsRun(l, env, layer, c, keys, g + 1).link == GroupLink(l, env, layer, c, keys, g + 1)
  {
    hide Polled, KeyEnd, KeyLink;
    var (s, a) := (GroupLink(l, env, layer, c, keys, g), Polled(keys, g));
    assert forall i :: 0 <= i < m ==> KeyEnd(s, env, layer, c, a, i) == GroupEnd(l, env, layer, c, keys, g, i);
    KeysRunIs(s, env, layer, c, a, m);
    if err {
      KeysRunStays(s, env, layer, c, a, m, |a|);
    }
  }

  lemma {:induction false} GroupsRunStays(l: Link, env: Env, layer: Byte, c: Config, keys: seq<Key>, g: nat, h: nat)
    requires g <= h <= 256 && GroupsRun(l, env, layer, c, keys, g).err
    ensures GroupsRun(l, env, layer, c, keys, h) == GroupsRun(l, env, layer, c, keys, g)
    decreases h
  {
    hide KeysRun, Polled;
    if g < h {
      GroupsRunStays(l, env, layer, c, keys, g, h - 1);
    }
  }

  /** The link when the `i`-th attempt to read the keys begins. */
  ghost function Attempt(l: Link, env: Env, c: Config, keys: seq<Key>, i: nat): Link {
    if i == 0 then l else GroupsRun(Attempt(l, env, c, keys, i - 1), env, LAYER_RAM, c, keys, 256).link
  }

  predicate Distinct(keys: seq<Key>) {
    forall i, j :: 0 <= i < j < |keys| ==> keys[i] != keys[j]
  }

  /** A read-back brings in every key: one of three attempts does, or, if a key is asked for twice,
      so that no answer is as long as the request, the third. */
  ghost predicate ReadsBack(l: Link, env: Env, c: Config, keys: seq<Key>) {
    || AllRead(Attempt(l, env, c, keys, 2), env, LAYER_RAM, c, keys)
    || (Distinct(keys)
        && (AllRead(l, env, LAYER_RAM, c, keys) || AllRead(Attempt(l, env, c, keys, 1), env, LAYER_RAM, c, keys)))
  }

  /** Every requested key was brought in, and no group failed. */
  ghost predicate AllRead(l: Link, env: Env, layer: Byte, c: Config, keys: seq<Key>) {
    && (forall g: nat :: g < 256 ==> !GroupFails(l, env, layer, c, keys, g))
    && (forall k :: k in keys ==> Found(l, env, layer, c, keys, GroupOf(k), k))
  }

  lemma AllGroups(out: Config, l: Link, env: Env, layer: Byte, c: Config, keys: seq<Key>, n: nat)
    requires n <= 256 && GroupsRead(out, l, env, layer, c, keys, n)
    requires n < 256 ==> GroupFails(l, env, layer, c, keys, n)
    ensures AllRead(l, env, layer, c, keys) <==> n == 256 && forall k :: k in keys ==> k in out
  {
    hide GroupFails, Found;
  }

  /** A stored key that is missing although its group was read without an error belongs to a
      selection that came back short. */
  lemma MissingFromGroup(l: Link, env: Env, layer: Byte, c: Config, keys: seq<Key>, k: Key) returns (i: nat)
    requires Paged(c) && k in keys && k in c && !Found(l, env, layer, c, keys, GroupOf(k), k)
    requires !GroupFails(l, env, layer, c, keys, GroupOf(k))
    ensures var (g, a) := (GroupOf(k), Polled(keys, GroupOf(k)));
            i < |a| && Short(GroupLink(l, env, layer, c, keys, g), env, layer, c, a, i) && k in Readable(c, a[i])
  {
    hide InGroup, AskFor, GroupLink, KeyEnd, Readable, Paged;
    var g := GroupOf(k);
    var want := InGroup(keys, g);
    InGroupAt(keys, g, k);
    forall x | x in want ensures GroupOf(x) == g {
      InGroupAt(keys, g, x);
    }
    AskedFor(c, want, g, k);
    i :| 0 <= i < |Polled(keys, g)| && k in Readable(c, Polled(keys, g)[i]);
    assert k !in Front(c, Polled(keys, g)[i], GroupEnd(l, env, layer, c, keys, g, i).got);
    assert !GroupEnd(l, env, layer, c, keys, g, i).err;
  }

  // ---- when everything is read

  lemma {:induction false} PagesTurn(l: Link, env: Env, layer: Byte, c: Config, q: Key, page: nat)
    requires page <= PAGES
    ensures PagesRun(l, env, layer, c, q, page).link.turn >= l.turn
    decreases PAGES - page
  {
    hide AfterPoll, Page, Silent;
    if page < PAGES {
      TurnAfter(l, env, c, Request(layer, q, page * PAGE));
      if env.fate(l.turn).Answered? && |Page(c, q, page * PAGE)| >= PAGE {
        PagesTurn(AfterPoll(l, env, c, Request(layer, q, page * PAGE)), env, layer, c, q, page + 1);
      }
    }
  }

  lemma {:induction false} KeyTurn(l: Link, env: Env, layer: Byte, c: Config, keys: seq<Key>, n: nat)
    requires n <= |keys|
    ensures KeyLink(l, env, layer, c, keys, n).turn >= l.turn
  {
    hide PagesRun;
    if n > 0 {
      KeyTurn(l, env, layer, c, keys, n - 1);
      PagesTurn(KeyLink(l, env, layer, c, keys, n - 1), env, layer, c, keys[n - 1], 0);
    }
  }

  lemma {:induction false} GroupTurn(l: Link, env: Env, layer: Byte, c: Config, keys: seq<Key>, g: nat)
    requires g <= 256
    ensures GroupLink(l, env, layer, c, keys, g).turn >= l.turn
  {
    hide KeyLink, Polled;
    if g > 0 {
      GroupTurn(l, env, layer, c, keys, g - 1);
      KeyTurn(GroupLink(l, env, layer, c, keys, g - 1), env, layer, c, Polled(keys, g - 1), |Polled(keys, g - 1)|);
    }
  }

  /** From a time on, every request is answered. */
  ghost predicate AnsweredFrom(env: Env, turn: nat) {
    forall t: nat :: t >= turn ==> env.fate(t).Answered?
  }

  lemma AnsweredGroup(l: Link, env: Env, layer: Byte, c: Config, keys: seq<Key>, g: nat, i: nat)
    requires AnsweredFrom(env, l.turn) && g < 256 && i < |Polled(keys, g)|
    ensures var r := GroupEnd(l, env, layer, c, keys, g, i); !r.err && r.got == |Readable(c, Polled(keys, g)[i])|
  {
    hide PagesRun, Polled, Readable;
    GroupTurn(l, env, layer, c, keys, g);
    KeyTurn(GroupLink(l, env, layer, c, keys, g), env, layer, c, Polled(keys, g), i);
    var s := KeyLink(GroupLink(l, env, layer, c, keys, g), env, layer, c, Polled(keys, g), i);
    var k := PagesExactly(s, env, layer, c, Polled(keys, g)[i], 0);
    assert env.fate(s.turn + k).Answered?;
  }

  /** When every request from now on is answered, every stored key is read. */
  lemma AnsweredReads(l: Link, env: Env, layer: Byte, c: Config, keys: seq<Key>)
    requires AnsweredFrom(env, l.turn) && Paged(c) && forall k :: k in keys ==> k in c
    ensures AllRead(l, env, layer, c, keys)
  {
    hide AnsweredFrom, Paged, GroupEnd, Polled, Readable;
    forall g: nat, i: nat | g < 256 && i < |Polled(keys, g)|
      ensures !GroupEnd(l, env, layer, c, keys, g, i).err
      ensures GroupEnd(l, env, layer, c, keys, g, i).got == |Readable(c, Polled(keys, g)[i])|
    {
      AnsweredGroup(l, env, layer, c, keys, g, i);
    }
    forall k | k in keys ensures Found(l, env, layer, c, keys, GroupOf(k), k) {
      AnsweredFound(l, env, layer, c, keys, k);
    }
  }

  lemma AnsweredFound(l: Link, env: Env, layer: Byte, c: Config, keys: seq<Key>, k: Key)
    requires AnsweredFrom(env, l.turn) && Paged(c) && k in keys && k in c
    ensures Found(l, env, layer, c, keys, GroupOf(k), k)
  {
    hide AnsweredFrom, Paged, GroupEnd, InGroup, AskFor, Readable;
    var g := GroupOf(k);
    InGroupAt(keys, g, k);
    forall x | x in InGroup(keys, g) ensures GroupOf(x) == g {
      InGroupAt(keys, g, x);
    }
    AskedFor(c, InGroup(keys, g), g, k);
    var i :| 0 <= i < |Polled(keys, g)| && k in Readable(c, Polled(keys, g)[i]);
    AnsweredGroup(l, env, layer, c, keys, g, i);
  }

  /** One silent attempt, or two, do no harm: the read-back is whole if everything is answered from
      the second attempt on, or from the third. A key asked for twice leaves only the third. */
  lemma LaterAttempts(l: Link, env: Env, c: Config, keys: seq<Key>, i: nat)
    requires i <= 2 && (Distinct(keys) || i == 2) && Paged(c) && forall k :: k in keys ==> k in c
    requires AnsweredFrom(env, Attempt(l, env, c, keys, i).turn)
    ensures ReadsBack(l, env, c, keys)
  {
    hide AnsweredFrom, Paged, GroupsRun, AllRead;
    AnsweredReads(Attempt(l, env, c, keys, i), env, LAYER_RAM, c, keys);
  }

  // ---- keys of one group

  /** Keys of one group are read in that group's turn, and the other groups' turns do nothing. */
  lemma {:induction false} OneGroup(l: Link, env: Env, layer: Byte, c: Config, keys: seq<Key>, g0: nat, g: nat)
    requires g <= 256 && g0 < 256 && forall k :: k in keys ==> GroupOf(k) == g0
    ensures Polled(keys, g0) == AskFor(keys, g0)
    ensures GroupsRun(l, env, layer, c, keys, g)
         == if g <= g0 then ReadsEnd(l, false) else KeysRun(l, env, layer, c, AskFor(keys, g0), |AskFor(keys, g0)|)
    ensures g <= g0 ==> GroupLink(l, env, layer, c, keys, g) == l
    decreases g
  {
    hide PagesRun, InGroup, GroupOf;
    OnlyGroup(keys, g0, g0);
    if g > 0 {
      OneGroup(l, env, layer, c, keys, g0, g - 1);
      OnlyGroup(keys, g0, g - 1);
    }
  }

  lemma {:induction false} OnlyGroup(keys: seq<Key>, g0: nat, g: nat)
    requires forall k :: k in keys ==> GroupOf(k) == g0
    ensures InGroup(keys, g) == if g == g0 then keys else []
    decreases |keys|
  {
    hide GroupOf;
    if keys != [] {
      OnlyGroup(keys[..|keys| - 1], g0, g);
      assert keys[|keys| - 1] in keys;
      assert keys == keys[..|keys| - 1] + [keys[|keys| - 1]];
    }
  }
}
