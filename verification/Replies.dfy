/** What the messages a session has taken from its transport say about the request it made,
    however the receiver's bytes were cut into reads. */
module Replies {
  import opened BitSeq
  import opened Streams
  import opened Outcomes
  import opened Ubx
  import opened CfgData
  import opened Device

  datatype PollResult = Got(ms: seq<Msg>) | Nak | TimedOut

  predicate HasNak(ms: seq<Msg>) {
    exists i :: 0 <= i < |ms| && ms[i].cls == CLS_ACK && ms[i].id == ID_NAK
  }

  function PairsIn(m: Msg): seq<KV> {
    if m.cls == CLS_CFG && m.id == ID_VALGET && |m.payload| >= 4 then ParseCfg(m.payload[4..]) else []
  }

  function AllPairs(ms: seq<Msg>): seq<KV> {
    if ms == [] then [] else AllPairs(ms[..|ms| - 1]) + PairsIn(ms[|ms| - 1])
  }

  function Take(fs: seq<Frame>): seq<Msg>
    requires Whole(fs)
  {
    Kept(fs, CLS_CFG, ID_VALGET)
  }

  // ---- what the collected frames say

  lemma TakeSnoc(fs: seq<Frame>, f: Frame)
    requires Whole(fs) && |f.raw| >= 8
    ensures Whole(fs + [f])
    ensures var m, ms := MsgOf(f), Take(fs);
            && Take(fs + [f]) == (if Wanted(m, CLS_CFG, ID_VALGET) then ms + [m] else ms)
            && AllPairs(Take(fs + [f])) == AllPairs(ms) + PairsIn(m)
            && (HasNak(Take(fs + [f])) <==> HasNak(ms) || (m.cls == CLS_ACK && m.id == ID_NAK))
            && (HasReply(Take(fs + [f]), CLS_CFG, ID_VALGET) <==>
                HasReply(ms, CLS_CFG, ID_VALGET) || (m.cls == CLS_CFG && m.id == ID_VALGET))
  {
    hide Kept, MsgOf, Whole, HasReply, ParseCfg;
    var m, ms := MsgOf(f), Take(fs);
    KeptSnoc(fs, f, CLS_CFG, ID_VALGET);
    HasReplySnoc(ms, m, CLS_CFG, ID_VALGET);
    assert (ms + [m])[..|ms|] == ms;
    assert (ms + [m])[|ms|] == m;
    if HasNak(ms) {
      var i :| 0 <= i < |ms| && ms[i].cls == CLS_ACK && ms[i].id == ID_NAK;
      assert (ms + [m])[i] == ms[i];
    }
  }

  lemma CalmNothing()
    ensures Calm([])
  {
  }

  lemma CalmPrefix(pre: seq<Frame>, n: nat)
    requires Calm(pre) && n <= |pre|
    ensures Calm(pre[..n])
  {
  }

  lemma {:induction false} CalmTake(fs: seq<Frame>)
    requires Calm(fs)
    ensures Whole(fs)
    ensures !HasReply(Take(fs), CLS_CFG, ID_VALGET) && !HasNak(Take(fs)) && AllPairs(Take(fs)) == []
    decreases |fs|
  {
    if fs != [] {
      hide Take, AllPairs, HasReply, HasNak, MsgOf;
      var g, f := fs[..|fs| - 1], fs[|fs| - 1];
      CalmPrefix(fs, |fs| - 1);
      CalmTake(g);
      assert f in fs && g + [f] == fs;
      TakeSnoc(g, f);
    }
  }

  lemma Parts(pre: seq<Frame>, answer: seq<Frame>, fs: seq<Frame>, tail: seq<Frame>)
    requires pre + answer == fs + tail
    ensures |fs| <= |pre| ==> fs == pre[..|fs|]
    ensures |fs| > |pre| ==> fs == pre + answer[..|fs| - |pre|] && tail == answer[|fs| - |pre|..]
  {
    if |fs| <= |pre| {
      assert fs == (pre + answer)[..|fs|];
    } else {
      assert fs == (pre + answer)[..|fs|];
      assert tail == (pre + answer)[|fs|..];
    }
  }

  /** An unanswered request brings neither reply nor refusal. */
  lemma NoAnswer(pre: seq<Frame>, fs: seq<Frame>, tail: seq<Frame>)
    requires Calm(pre) && pre + [] == fs + tail
    ensures Calm(fs) && Calm(tail)
  {
    assert pre == fs + tail;
    assert forall f :: f in fs ==> f in pre;
    assert forall f :: f in tail ==> f in pre;
  }

  /** A refusal is seen exactly when its frame has been taken, and then nothing is left. */
  lemma Refused(pre: seq<Frame>, n: Frame, fs: seq<Frame>, tail: seq<Frame>)
    requires Calm(pre) && pre + [n] == fs + tail
    requires |n.raw| >= 8 && MsgOf(n).cls == CLS_ACK && MsgOf(n).id == ID_NAK
    ensures Whole(fs) && !HasReply(Take(fs), CLS_CFG, ID_VALGET)
    ensures if tail == [] then HasNak(Take(fs)) else !HasNak(Take(fs))
  {
    hide Calm, Take, AllPairs, HasReply, HasNak;
    Parts(pre, [n], fs, tail);
    if |fs| <= |pre| {
      CalmPrefix(pre, |fs|);
      CalmTake(fs);
      assert |tail| > 0;
    } else {
      assert fs == pre + [n];
      CalmTake(pre);
      TakeSnoc(pre, n);
    }
  }

  /** A page of keys is seen exactly once its frame has been taken; at most the acknowledgement
      is then left. */
  lemma Replied(pre: seq<Frame>, r: Frame, a: Frame, fs: seq<Frame>, tail: seq<Frame>)
    requires Calm(pre) && pre + [r, a] == fs + tail
    requires |r.raw| >= 8 && MsgOf(r).cls == CLS_CFG && MsgOf(r).id == ID_VALGET
    requires |a.raw| >= 8 && Harmless(MsgOf(a))
    ensures Whole(fs) && !HasNak(Take(fs))
    ensures HasReply(Take(fs), CLS_CFG, ID_VALGET) ==> Calm(tail) && AllPairs(Take(fs)) == PairsIn(MsgOf(r))
    ensures tail == [] ==> HasReply(Take(fs), CLS_CFG, ID_VALGET)
  {
    hide Take, AllPairs, HasReply, HasNak, ParseCfg, MsgOf;
    Parts(pre, [r, a], fs, tail);
    if |fs| <= |pre| {
      CalmPrefix(pre, |fs|);
      CalmTake(fs);
      assert |tail| > 0;
    } else {
      CalmTake(pre);
      TakeSnoc(pre, r);
      if |fs| == |pre| + 1 {
        assert [r, a][..1] == [r];
        assert tail == [a];
      } else {
        TakeSnoc(pre + [r], a);
        assert fs == pre + [r] + [a];
        assert tail == [];
      }
    }
  }

  // ---- one poll

  /** Where a poll stands: `fs` has been taken out of the bytes, `rest` is still to come. */
  ghost predicate Taken(id: Byte, all: seq<Frame>, fs: seq<Frame>, got: seq<Msg>, rest: seq<Byte>) {
    && all == fs + Sent(rest) && Residue(DRAIN, rest) == []
    && Whole(fs) && got == Kept(fs, CLS_CFG, id)
  }

  lemma ReadOn(id: Byte, all: seq<Frame>, fs: seq<Frame>, got: seq<Msg>, buf: seq<Byte>, rd: seq<Byte>, out: seq<Byte>)
    requires Taken(id, all, fs, got, buf + (rd + out))
    ensures Whole(Sent(buf + rd))
    ensures Taken(id, all, fs + Sent(buf + rd), got + Kept(Sent(buf + rd), CLS_CFG, id), Residue(DRAIN, buf + rd) + out)
    ensures Parse(DRAIN, Residue(DRAIN, buf + rd)) == []
  {
    hide Parse, Residue, Kept, Whole, Frames;
    Assoc(buf, rd, out);
    DrainCut(buf + rd, out);
    DrainedWhole(buf + rd);
    KeptConcat(fs, Sent(buf + rd), CLS_CFG, id);
    Assoc(fs, Sent(buf + rd), Sent(Residue(DRAIN, buf + rd) + out));
    ResidueIdle(DRAIN, buf + rd);
  }

  lemma {:induction false} ResidueIdle(rec: Recogniser, s: seq<Byte>)
    ensures Parse(rec, Residue(rec, s)) == []
    decreases |s|
  {
    if !rec(s).Need? {
      ResidueIdle(rec, s[|Bytes(First(rec, s))|..]);
    }
  }

  /** What a poll of one page must return. */
  ghost predicate PollRight(r: PollResult, c: Config, p: seq<Byte>, answered: bool)
    requires |p| == 8
  {
    var ks := Page(c, KeyAt(p[4..]), Position(p));
    if answered then
      if ks == [] then r == Nak else r.Got? && AllPairs(r.ms) == Pairs(c, ks)
    else !r.Nak? && (r.Got? ==> AllPairs(r.ms) == [])
  }

  /** With `fs` taken and `tail` still to come: what was taken decides the result, and once the
      poll may stop, nothing still to come can be mistaken for another answer. */
  ghost predicate Decides(c: Config, p: seq<Byte>, answered: bool, fs: seq<Frame>, tail: seq<Frame>)
    requires |p| == 8
  {
    && Whole(fs)
    && var ms := Take(fs);
       if HasReply(ms, CLS_CFG, ID_VALGET) then Calm(tail) && PollRight(Got(ms), c, p, answered)
       else if HasNak(ms) then Calm(tail) && PollRight(Nak, c, p, answered)
       else tail == [] ==> Calm(tail) && PollRight(Got(ms), c, p, answered) && PollRight(TimedOut, c, p, answered)
  }

  lemma EndsSilent(c: Config, p: seq<Byte>, pre: seq<Frame>, fs: seq<Frame>, tail: seq<Frame>)
    requires |p| == 8 && Calm(pre) && pre + [] == fs + tail
    ensures Decides(c, p, false, fs, tail)
  {
    hide Take, AllPairs, HasReply, HasNak, Calm, MsgOf, Page, KeyAt;
    NoAnswer(pre, fs, tail);
    CalmTake(fs);
  }

  lemma EndsRefused(c: Config, p: seq<Byte>, pre: seq<Frame>, fs: seq<Frame>, tail: seq<Frame>)
    requires |p| == 8 && Calm(pre) && Page(c, KeyAt(p[4..]), Position(p)) == []
    requires pre + [FrameOf(CLS_ACK, ID_NAK, [CLS_CFG, ID_VALGET])] == fs + tail
    ensures Decides(c, p, true, fs, tail)
  {
    hide Take, AllPairs, HasReply, HasNak, MsgOf, Page, KeyAt, FrameOf;
    OneFrame(CLS_ACK, ID_NAK, [CLS_CFG, ID_VALGET]);
    Refused(pre, FrameOf(CLS_ACK, ID_NAK, [CLS_CFG, ID_VALGET]), fs, tail);
  }

  lemma PageFrames(c: Config, p: seq<Byte>, ks: seq<Key>)
    requires |p| == 8 && Tidy(c) && Inside(c, ks) && |ks| <= PAGE
    ensures var r, a := FrameOf(CLS_CFG, ID_VALGET, PageData(c, p, ks)), FrameOf(CLS_ACK, ID_ACK, [CLS_CFG, ID_VALGET]);
            && |r.raw| >= 8 && MsgOf(r).cls == CLS_CFG && MsgOf(r).id == ID_VALGET && PairsIn(MsgOf(r)) == Pairs(c, ks)
            && |a.raw| >= 8 && Harmless(MsgOf(a))
  {
    hide FrameOf, PageData, ParseCfg, Tidy, Pairs, MsgOf;
    PageFits(c, p, ks);
    OneFrame(CLS_CFG, ID_VALGET, PageData(c, p, ks));
    OneFrame(CLS_ACK, ID_ACK, [CLS_CFG, ID_VALGET]);
  }

  lemma EndsReplied(c: Config, p: seq<Byte>, ks: seq<Key>, pre: seq<Frame>, fs: seq<Frame>, tail: seq<Frame>)
    requires |p| == 8 && Tidy(c) && Calm(pre) && ks == Page(c, KeyAt(p[4..]), Position(p)) && ks != []
    requires pre + [FrameOf(CLS_CFG, ID_VALGET, PageData(c, p, ks)), FrameOf(CLS_ACK, ID_ACK, [CLS_CFG, ID_VALGET])]
          == fs + tail
    ensures Decides(c, p, true, fs, tail)
  {
    hide Take, AllPairs, HasReply, HasNak, Calm, MsgOf, Page, KeyAt, FrameOf, PageData, PairsIn, Tidy, Harmless, Whole,
         Sent;
    PageFrames(c, p, ks);
    Replied(pre, FrameOf(CLS_CFG, ID_VALGET, PageData(c, p, ks)), FrameOf(CLS_ACK, ID_ACK, [CLS_CFG, ID_VALGET]), fs,
        tail);
  }

  lemma PollEnds(c: Config, p: seq<Byte>, answered: bool, pre: seq<Frame>, fs: seq<Frame>, tail: seq<Frame>)
    requires Tidy(c) && |p| == 8 && Calm(pre)
    requires pre + (if answered then GetAnswer(c, p) else []) == fs + tail
    ensures Decides(c, p, answered, fs, tail)
  {
    hide Decides, Tidy, FrameOf, Page, PageData, KeyAt, Calm;
    var ks := Page(c, KeyAt(p[4..]), Position(p));
    if !answered {
      EndsSilent(c, p, pre, fs, tail);
    } else if ks == [] {
      EndsRefused(c, p, pre, fs, tail);
    } else {
      EndsReplied(c, p, ks, pre, fs, tail);
    }
  }

  lemma Asked(id: Byte, buf: seq<Byte>, out: seq<Byte>, sent: seq<Byte>, stray: seq<Frame>, answer: seq<Frame>)
    returns (pre: seq<Frame>, all: seq<Frame>)
    requires Quiet(buf + out) && Adds(sent, stray, answer)
    ensures Calm(pre) && all == pre + answer && pre == Sent(buf + out) + stray
    ensures Taken(id, all, [], [], buf + (out + sent))
    ensures !HasReply([], CLS_CFG, ID_VALGET) && !HasNak([])
  {
    hide Sent, Residue;
    pre := Sent(buf + out) + stray;
    all := pre + answer;
    Joined(buf + out, sent);
    Assoc(buf, out, sent);
    Assoc(Sent(buf + out), stray, answer);
    assert [] + all == all;
  }

  lemma Idle(buf: seq<Byte>)
    requires Parse(DRAIN, buf) == []
    ensures buf + [] == buf && Sent(buf) == []
  {
  }

  lemma HasReplyConcat(a: seq<Msg>, b: seq<Msg>, cls: Byte, id: Byte)
    ensures HasReply(a + b, cls, id) <==> HasReply(a, cls, id) || HasReply(b, cls, id)
  {
  }

  /** Without an answer, a poll comes back empty-handed with a timeout exactly when nothing else
      it collects was waiting. */
  lemma SilenceStands(pre: seq<Frame>, fs: seq<Frame>, got: seq<Msg>, rest: seq<Byte>)
    requires Calm(pre) && Taken(ID_VALGET, pre + [], fs, got, rest)
    ensures Whole(pre) && (got != [] ==> Take(pre) != []) && (Sent(rest) == [] ==> got == Take(pre))
  {
    hide Sent, Kept, Residue, Calm;
    var tail := Sent(rest);
    assert pre == fs + tail;
    NoAnswer(pre, fs, tail);
    CalmTake(pre);
    CalmTake(tail);
    KeptConcat(fs, tail, CLS_CFG, ID_VALGET);
    assert Sent(rest) == [] ==> fs == pre;
  }

  /** An acknowledgement still waiting from an earlier request hides the silence. */
  lemma AckHidesSilence(pre: seq<Frame>, i: nat)
    requires Whole(pre) && i < |pre| && MsgOf(pre[i]).cls == CLS_ACK
    ensures Take(pre) != []
  {
    hide MsgOf, Whole, Kept;
    var a, f, b := pre[..i], pre[i], pre[i + 1..];
    WholeSplit(pre, i);
    KeptSnoc(a, f, CLS_CFG, ID_VALGET);
    KeptConcat(a + [f], b, CLS_CFG, ID_VALGET);
    assert pre == a + [f] + b;
  }

  lemma WholeSplit(pre: seq<Frame>, i: nat)
    requires Whole(pre) && i < |pre|
    ensures Whole(pre[..i]) && |pre[i].raw| >= 8 && Whole(pre[i + 1..])
  {
  }

  lemma PollStands(c: Config, p: seq<Byte>, answered: bool, pre: seq<Frame>, all: seq<Frame>,
                   fs: seq<Frame>, got: seq<Msg>, rest: seq<Byte>)
    requires Tidy(c) && |p| == 8 && Calm(pre)
    requires all == pre + (if answered then GetAnswer(c, p) else [])
    requires Taken(ID_VALGET, all, fs, got, rest)
    ensures Quiet(rest) || !(HasReply(got, CLS_CFG, ID_VALGET) || HasNak(got) || Sent(rest) == [])
    ensures if HasReply(got, CLS_CFG, ID_VALGET) then PollRight(Got(got), c, p, answered)
            else if HasNak(got) then PollRight(Nak, c, p, answered)
            else Sent(rest) == [] ==> PollRight(Got(got), c, p, answered) && PollRight(TimedOut, c, p, answered)
  {
    hide Sent, Kept, AllPairs, HasReply, HasNak, Tidy, Page, PageData, KeyAt, Calm, PollRight, Residue, GetAnswer;
    PollEnds(c, p, answered, pre, fs, Sent(rest));
  }

  // ---- the answer to a write

  /** The first acknowledgement of a write among the messages: true for ACK, false for NAK. */
  function FirstAck(ms: seq<Msg>): Option<bool> {
    if ms == [] then None
    else
      var before := FirstAck(ms[..|ms| - 1]);
      var m := ms[|ms| - 1];
      if before.Some? then before
      else if Acknowledges(m, ID_VALSET) then Some(m.id == ID_ACK) else None
  }

  lemma FirstAckSnoc(ms: seq<Msg>, m: Msg)
    ensures FirstAck(ms + [m]) == if FirstAck(ms).Some? then FirstAck(ms)
                                  else if Acknowledges(m, ID_VALSET) then Some(m.id == ID_ACK) else None
  {
    assert (ms + [m])[..|ms|] == ms;
  }

  lemma {:induction false} FirstAckConcat(a: seq<Msg>, b: seq<Msg>)
    ensures FirstAck(a + b) == if FirstAck(a).Some? then FirstAck(a) else FirstAck(b)
    decreases |b|
  {
    if b == [] {
      assert a + b == a;
    } else {
      var c, m := b[..|b| - 1], b[|b| - 1];
      FirstAckConcat(a, c);
      FirstAckSnoc(a + c, m);
      Assoc(a, c, [m]);
      assert c + [m] == b;
    }
  }

  lemma {:induction false} CalmNoAck(fs: seq<Frame>)
    requires Calm(fs)
    ensures Whole(fs) && FirstAck(Kept(fs, CLS_CFG, ID_VALSET)) == None
    decreases |fs|
  {
    if fs != [] {
      hide Kept, MsgOf, FirstAck;
      var g, f := fs[..|fs| - 1], fs[|fs| - 1];
      CalmPrefix(fs, |fs| - 1);
      CalmNoAck(g);
      assert f in fs && g + [f] == fs;
      KeptSnoc(g, f, CLS_CFG, ID_VALSET);
      FirstAckSnoc(Kept(g, CLS_CFG, ID_VALSET), MsgOf(f));
    }
  }

  /** The answer to a write is seen exactly when its frame has been taken, and then nothing that
      matters is left. */
  lemma SetStands(answer: Option<bool>, pre: seq<Frame>, all: seq<Frame>,
                  fs: seq<Frame>, got: seq<Msg>, rest: seq<Byte>)
    requires Calm(pre)
    requires all == pre + (if answer.Some? then SetAnswer(answer.value) else [])
    requires Taken(ID_VALSET, all, fs, got, rest)
    ensures FirstAck(got).Some? ==> FirstAck(got) == answer && Quiet(rest)
    ensures Sent(rest) == [] ==> FirstAck(got) == answer && Quiet(rest)
  {
    hide Sent, Kept, Calm, Residue, FirstAck, FrameOf, MsgOf;
    CalmNothing();
    var tail := Sent(rest);
    if answer.None? {
      NoAnswer(pre, fs, tail);
      CalmNoAck(fs);
    } else {
      var id: Byte := if answer.value then ID_ACK else ID_NAK;
      var a := FrameOf(CLS_ACK, id, [CLS_CFG, ID_VALSET]);
      OneFrame(CLS_ACK, id, [CLS_CFG, ID_VALSET]);
      Parts(pre, [a], fs, tail);
      if |fs| <= |pre| {
        CalmPrefix(pre, |fs|);
        CalmNoAck(fs);
        assert |tail| > 0;
      } else {
        assert fs == pre + [a];
        CalmNoAck(pre);
        KeptSnoc(pre, a, CLS_CFG, ID_VALSET);
        FirstAckSnoc(Kept(pre, CLS_CFG, ID_VALSET), MsgOf(a));
      }
    }
  }

  // ---- the pages of a selection

  function Learn(out: Config, c: Config, ks: seq<Key>): Config
    requires Inside(c, ks)
  {
    Put(out, Pairs(c, ks), {})
  }

  lemma {:induction false} PairsConcat(c: Config, a: seq<Key>, b: seq<Key>)
    requires Inside(c, a) && Inside(c, b)
    ensures Inside(c, a + b) && Pairs(c, a + b) == Pairs(c, a) + Pairs(c, b)
    decreases |b|
  {
    if b == [] {
      assert a + b == a;
    } else {
      var d, k := b[..|b| - 1], b[|b| - 1];
      PairsConcat(c, a, d);
      assert (a + b)[..|a + b| - 1] == a + d;
      Assoc(Pairs(c, a), Pairs(c, d), [KV(k, c[k])]);
    }
  }

  lemma LearnMore(out: Config, c: Config, a: seq<Key>, b: seq<Key>)
    requires Inside(c, a) && Inside(c, b)
    ensures Inside(c, a + b) && Learn(out, c, a + b) == Learn(Learn(out, c, a), c, b)
  {
    hide Put, Pairs;
    PairsConcat(c, a, b);
    PutConcat(out, Pairs(c, a), Pairs(c, b), {});
  }

  lemma {:induction false} LearnAt(out: Config, c: Config, ks: seq<Key>, k: Key)
    requires Inside(c, ks)
    ensures k in Learn(out, c, ks) <==> k in out || k in ks
    ensures k in ks ==> Learn(out, c, ks)[k] == c[k]
    ensures k in out && k !in ks ==> Learn(out, c, ks)[k] == out[k]
    decreases |ks|
  {
    if ks != [] {
      var js, j := ks[..|ks| - 1], ks[|ks| - 1];
      LearnAt(out, c, js, k);
      LearnSnoc(out, c, js, j);
      assert ks == js + [j];
      assert k in ks <==> k in js || k == j;
    }
  }

  lemma LearnSnoc(out: Config, c: Config, js: seq<Key>, j: Key)
    requires Inside(c, js) && j in c
    ensures Inside(c, js + [j]) && Learn(out, c, js + [j]) == Learn(out, c, js)[j := c[j]]
  {
    var ks := js + [j];
    assert ks[..|ks| - 1] == js;
    var kvs := Pairs(c, ks);
    assert kvs == Pairs(c, js) + [KV(j, c[j])];
    assert kvs[..|kvs| - 1] == Pairs(c, js);
  }

  const PAGES: nat := 64

  function FirstPages<T>(all: seq<T>): seq<T> {
    if |all| > PAGES * PAGE then all[..PAGES * PAGE] else all
  }

  /** The keys a request can bring in: the selection, up to 64 pages of it. */
  function Readable(c: Config, q: Key): (ks: seq<Key>)
    ensures Inside(c, ks)
  {
    FirstPages(Selection(c, q))
  }

  ghost predicate Asks(c: Config, keys: seq<Key>, k: Key) {
    exists i :: 0 <= i < |keys| && k in Readable(c, keys[i])
  }

  /** Everything in `out` is true of the receiver and was asked for, and if `complete`, nothing
      that was asked for is missing. */
  ghost predicate Knows(out: Config, c: Config, keys: seq<Key>, complete: bool) {
    forall k ::
      && (k in out ==> k in c && out[k] == c[k] && Asks(c, keys, k))
      && (complete && Asks(c, keys, k) ==> k in out)
  }

  lemma KnowsMore(out: Config, c: Config, keys: seq<Key>, q: Key, m: nat, complete: bool)
    requires Knows(out, c, keys, complete) && m <= |Readable(c, q)|
    ensures Knows(Learn(out, c, Readable(c, q)[..m]), c, keys + [q], complete && m == |Readable(c, q)|)
  {
    hide Learn, Readable;
    var ks := Readable(c, q)[..m];
    var next := Learn(out, c, ks);
    forall k
      ensures k in next ==> k in c && next[k] == c[k] && Asks(c, keys + [q], k)
      ensures complete && m == |Readable(c, q)| && Asks(c, keys + [q], k) ==> k in next
    {
      LearnAt(out, c, ks, k);
      AsksSnoc(c, keys, q, k);
      if m == |Readable(c, q)| {
        assert ks == Readable(c, q);
      }
    }
  }

  lemma AsksSnoc(c: Config, keys: seq<Key>, q: Key, k: Key)
    ensures Asks(c, keys + [q], k) <==> Asks(c, keys, k) || k in Readable(c, q)
  {
    hide Readable;
    var all := keys + [q];
    if k in Readable(c, q) {
      assert all[|keys|] == q;
    }
    if Asks(c, keys, k) {
      var i :| 0 <= i < |keys| && k in Readable(c, keys[i]);
      assert all[i] == keys[i];
    }
  }

  /** One page extends the part read; a short page completes it. */
  lemma NextPage<T>(all: seq<T>, pos: nat)
    requires pos <= |all| && pos + PAGE <= PAGES * PAGE
    ensures var some, ks := FirstPages(all), Slice(all, pos);
            && pos + |ks| <= |some| <= |all| && some[..pos] + ks == some[..pos + |ks|]
            && (|ks| < PAGE ==> pos + |ks| == |some|)
  {
  }

  /** The first `m` readable keys have been recorded on top of `out0`. */
  ghost predicate ReadUpTo(c: Config, q: Key, out0: Config, out: Config, m: nat) {
    m <= |Readable(c, q)| && m <= |Selection(c, q)| && out == Learn(out0, c, Readable(c, q)[..m])
  }

  lemma PageStep(out0: Config, out: Config, c: Config, q: Key, pos: nat)
    requires ReadUpTo(c, q, out0, out, pos) && pos + PAGE <= PAGES * PAGE
    ensures var ks := Page(c, q, pos);
            ReadUpTo(c, q, out0, Learn(out, c, ks), pos + |ks|) && (|ks| < PAGE ==> pos + |ks| == |Readable(c, q)|)
  {
    hide Selection, Slice, FirstPages, Learn;
    NextPage(Selection(c, q), pos);
    LearnMore(out0, c, Readable(c, q)[..pos], Page(c, q, pos));
  }

  lemma AllPairsSnoc(ms: seq<Msg>, i: nat)
    requires i < |ms|
    ensures AllPairs(ms[..i + 1]) == AllPairs(ms[..i]) + PairsIn(ms[i])
  {
    hide PairsIn;
    assert ms[..i + 1][..i] == ms[..i];
  }

  lemma KnowsNothing(c: Config)
    ensures Knows(map[], c, [], true)
  {
  }

  /** Paging brings in a whole selection exactly when it has at most 4096 keys. */
  lemma ReadableWhole(c: Config, q: Key)
    ensures (forall k :: k in Readable(c, q) <==> k in Matches(c, q)) <==> |Matches(c, q)| <= 4096
  {
    hide Matches;
    var all := Selection(c, q);
    if |all| > PAGES * PAGE {
      var k := all[PAGES * PAGE];
      assert k in Matches(c, q);
      assert forall i :: 0 <= i < PAGES * PAGE ==> all[i] < k;
      assert k !in Readable(c, q);
    } else {
      assert forall k :: k in all <==> k in Matches(c, q);
    }
  }

  // ---- reading exactly the requested keys

  ghost predicate Paged(c: Config) {
    forall q: Key :: |Selection(c, q)| <= PAGES * PAGE
  }

  function InGroup(keys: seq<Key>, g: nat): seq<Key> {
    if keys == [] then []
    else InGroup(keys[..|keys| - 1], g) + (if GroupOf(keys[|keys| - 1]) == g then [keys[|keys| - 1]] else [])
  }

  lemma {:induction false} InGroupAt(keys: seq<Key>, g: nat, k: Key)
    ensures k in InGroup(keys, g) <==> k in keys && GroupOf(k) == g
    decreases |keys|
  {
    if keys != [] {
      InGroupAt(keys[..|keys| - 1], g, k);
      assert keys == keys[..|keys| - 1] + [keys[|keys| - 1]];
    }
  }

  function AskFor(want: seq<Key>, g: nat): seq<Key>
    requires g < 256
  {
    if |want| > 4 then [Wildcard(g)] else want
  }

  /** A wanted key that is stored is among the keys asked for, whether polled by itself or
      through its group. */
  lemma AskedFor(c: Config, want: seq<Key>, g: nat, k: Key)
    requires Paged(c) && g < 256 && k in want && k in c
    requires forall x :: x in want ==> GroupOf(x) == g
    ensures Asks(c, AskFor(want, g), k)
  {
    hide Selection;
    var ask := AskFor(want, g);
    var i :| 0 <= i < |want| && want[i] == k;
    var q := if |want| > 4 then Wildcard(g) else k;
    var at := if |want| > 4 then 0 else i;
    assert |Selection(c, q)| <= PAGES * PAGE;
    assert ask[at] == q && k in Matches(c, q);
    assert k in Readable(c, ask[at]);
  }

  /** `out` holds, of the requested keys in groups below `g`, only true values, and if
      `complete`, every stored one. */
  ghost predicate ReadBelow(out: Config, c: Config, keys: seq<Key>, g: int, complete: bool) {
    forall k ::
      && (k in out ==> k in c && out[k] == c[k] && k in keys && GroupOf(k) < g)
      && (complete && k in c && k in keys && GroupOf(k) < g ==> k in out)
  }

  lemma ReadGroup(out: Config, next: Config, got: Config, c: Config, keys: seq<Key>, g: nat, complete: bool, done: bool)
    requires g < 256
    requires var want := InGroup(keys, g);
             && ReadBelow(out, c, keys, g, complete) && Knows(got, c, AskFor(want, g), done)
             && (forall k :: k in next <==> k in out || (k in want && k in got))
             && (forall k :: k in next ==> next[k] == if k in want && k in got then got[k] else out[k])
    requires complete && done ==> Paged(c)
    ensures ReadBelow(next, c, keys, g + 1, complete && done)
  {
    hide InGroup, Selection, Readable, Paged;
    var want := InGroup(keys, g);
    forall k
      ensures k in next ==> k in c && next[k] == c[k] && k in keys && GroupOf(k) < g + 1
      ensures complete && done && k in c && k in keys && GroupOf(k) < g + 1 ==> k in next
    {
      InGroupAt(keys, g, k);
      if complete && done && k in c && k in want {
        forall x | x in want ensures GroupOf(x) == g {
          InGroupAt(keys, g, x);
        }
        AskedFor(c, want, g, k);
      }
    }
  }
}
