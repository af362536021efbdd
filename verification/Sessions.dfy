/** The host's side of the configuration conversation, over a transport that may cut the
    receiver's bytes anywhere and mixes replies with other traffic. */
module Sessions {
  import opened BitSeq
  import opened Streams
  import opened Outcomes
  import opened Ubx
  import opened CfgData
  import opened Device
  import opened Replies
  import opened Links

  class Session {
    const dev: Receiver
    var buf: seq<Byte>

    /** Nothing that a later request could mistake for its answer is on its way. */
    ghost predicate Valid()
      reads this, dev
    {
      dev.Valid() && Parse(DRAIN, buf) == [] && Quiet(buf + dev.out)
    }

    constructor (d: Receiver)
      requires d.Valid() && d.out == []
      ensures Valid() && dev == d && buf == []
    {
      dev, buf := d, [];
    }

    /** The state of the link. */
    ghost function At(): Link
      reads this, dev
    {
      Link(buf, dev.out, dev.cuts, dev.turn)
    }

    function World(): Env
      reads dev
    {
      Env(dev.fate, dev.noise)
    }

    method Poll(p: seq<Byte>) returns (r: PollResult)
      requires Valid() && |p| == 8
      modifies this`buf, dev`out, dev`cuts, dev`turn
      ensures Valid() && dev.turn == old(dev.turn) + 1
      ensures PollRight(r, dev.Layer(p[1]), p, dev.fate(old(dev.turn)).Answered?)
      ensures !dev.fate(old(dev.turn)).Answered? ==> (r.TimedOut? <==> Silent(old(At()), World()))
      ensures At() == AfterPoll(old(At()), World(), dev.Layer(p[1]), p)
    {
      hide Parse, Residue, Frames, AllPairs, HasReply, HasNak, ParseCfg, Tidy, Page, PageData,
        KeyAt, Calm, PollRight, Whole, GetAnswer, GetBytes, Kept, Taken, Adds, PollLeft;
      ghost var c, answered := dev.Layer(p[1]), dev.fate(dev.turn).Answered?;
      ghost var sent := dev.ValGet(p);
      ghost var pre, all := Asked(ID_VALGET, buf, old(dev.out), sent, Sent(dev.noise(old(dev.turn))),
                                  if answered then GetAnswer(c, p) else []);
      var got: seq<Msg> := [];
      ghost var fs: seq<Frame> := [];
      ghost var goal := AfterPoll(old(At()), World(), c, p);
      while dev.out != []
        invariant Taken(ID_VALGET, all, fs, got, buf + dev.out) && Parse(DRAIN, buf) == []
        invariant !HasReply(got, CLS_CFG, ID_VALGET) && !HasNak(got)
        invariant dev.Valid() && dev.turn == old(dev.turn) + 1
        invariant PollLeft(At()) == goal
        decreases |dev.out|
      {
        PollReads(At());
        var rd := dev.Read();
        ReadOn(ID_VALGET, all, fs, got, buf, rd, dev.out);
        var rest, ms, found := Drain(buf + rd, CLS_CFG, ID_VALGET);
        HasReplyConcat(got, ms, CLS_CFG, ID_VALGET);
        HasNakConcat(got, ms);
        fs := fs + Sent(buf + rd);
        buf, got := rest, got + ms;
        PollStands(c, p, answered, pre, all, fs, got, buf + dev.out);
        if !answered {
          SilenceStands(pre, fs, got, buf + dev.out);
        }
        if found {
          return Got(got);
        }
        if HasNak(got) {
          return Nak;
        }
      }
      PollIdle(At());
      Idle(buf);
      PollStands(c, p, answered, pre, all, fs, got, buf);
      if !answered {
        SilenceStands(pre, fs, got, buf);
      }
      if |got| > 0 {
        return Got(got);
      }
      return TimedOut;
    }

    method Collect(ms: seq<Msg>, out0: Config) returns (out: Config, n: nat)
      ensures out == Put(out0, AllPairs(ms), {}) && n == |AllPairs(ms)|
    {
      hide Put, ParseCfg, AllPairs;
      out, n := out0, 0;
      var i := 0;
      CollectStart(out0, ms);
      while i < |ms|
        invariant 0 <= i <= |ms|
        invariant out == Put(out0, AllPairs(ms[..i]), {}) && n == |AllPairs(ms[..i])|
      {
        var m := ms[i];
        AllPairsSnoc(ms, i);
        PutConcat(out0, AllPairs(ms[..i]), PairsIn(m), {});
        if m.cls == CLS_CFG && m.id == ID_VALGET && |m.payload| >= 4 {
          var kvs := ParseCfgData(m.payload[4..]);
          out := Record(out, kvs);
          n := n + |kvs|;
        } else {
          CollectStart(out, ms);
        }
        i := i + 1;
      }
      assert ms[..i] == ms;
    }

    method Record(out0: Config, kvs: seq<KV>) returns (out: Config)
      ensures out == Put(out0, kvs, {})
    {
      out := out0;
      var i := 0;
      while i < |kvs|
        invariant 0 <= i <= |kvs|
        invariant out == Put(out0, kvs[..i], {})
      {
        assert kvs[..i + 1][..i] == kvs[..i];
        out := out[kvs[i].key := kvs[i].value];
        i := i + 1;
      }
      assert kvs[..i] == kvs;
    }

    /** Asks for one page and records what came. */
    method ReadPage(layer: Byte, q: Key, pos: nat, out0: Config) returns (r: PollResult, out: Config, n: nat)
      requires Valid() && pos < 65536
      modifies this`buf, dev`out, dev`cuts, dev`turn
      ensures Valid() && dev.turn == old(dev.turn) + 1
      ensures var c := dev.Layer(layer);
              var ks := Page(c, q, pos);
              if dev.fate(old(dev.turn)).Answered? then
                if ks == [] then r.Nak? else r.Got? && n == |ks| && out == Learn(out0, c, ks)
              else (r.TimedOut? <==> Silent(old(At()), World())) && !r.Nak? && n == 0 && out == out0
      ensures At() == AfterPoll(old(At()), World(), dev.Layer(layer), Request(layer, q, pos))
    {
      hide Quiet, Parse, Put, Pairs, KeyAt, KeyBytes, AllPairs, Selection, Tidy, Page, AfterPoll, Silent;
      RequestAsks(layer, q, pos);
      var p := [0, layer, pos % 256, pos / 256] + KeyBytes(q);
      out, n := out0, 0;
      r := Poll(p);
      if r.Got? {
        out, n := Collect(r.ms, out);
        CollectStart(out0, []);
      }
    }

    /** Follows the paging of one requested key. */
    method ReadPages(layer: Byte, q: Key, out0: Config) returns (out: Config, err: bool, ghost m: nat)
      requires Valid()
      modifies this`buf, dev`out, dev`cuts, dev`turn
      ensures Valid() && dev.turn >= old(dev.turn)
      ensures m <= |Readable(dev.Layer(layer), q)|
      ensures out == Learn(out0, dev.Layer(layer), Readable(dev.Layer(layer), q)[..m])
      ensures Answering(dev.fate, old(dev.turn), dev.turn) ==> !err && m == |Readable(dev.Layer(layer), q)|
      ensures PagesEnd(At(), m, err) == PagesRun(old(At()), World(), layer, dev.Layer(layer), q, 0)
    {
      hide Quiet, Parse, Learn, Selection, Readable, Page, Tidy, Answering, PagesRun, AfterPoll, Silent, Request,
           ReadUpTo;
      out, err, m := out0, false, 0;
      ghost var c, start, goal := dev.Layer(layer), dev.turn, PagesRun(At(), World(), layer, dev.Layer(layer), q, 0);
      ReadStart(out0, c, q, dev.fate, start);
      var pos, page := 0, 0;
      while page < 64
        invariant 0 <= page <= 64 && pos == page * PAGE == m && ReadUpTo(c, q, out0, out, m)
        invariant Valid() && c == dev.Layer(layer) && start <= dev.turn && Answering(dev.fate, start, dev.turn)
        invariant PagesRun(At(), World(), layer, c, q, page) == goal
      {
        ghost var asked := dev.turn;
        PageStep(out0, out, c, q, pos);
        PagesRuns(At(), World(), layer, c, q, page);
        var r, next, n := ReadPage(layer, q, pos, out);
        AnsweringMore(dev.fate, start, asked);
        ReadMeans(c, q, out0, out, m);
        if r.Nak? {
          break;
        }
        if r.TimedOut? {
          if page == 0 {
            break;
          }
          err := true;
          return;
        }
        out, m := next, m + n;
        if n < 64 {
          ReadMeans(c, q, out0, out, m);
          break;
        }
        pos := (pos + n) % 65536;
        page := page + 1;
      }
      if page == 64 {
        ReadMeans(c, q, out0, out, m);
        PagesFull(c, q);
        PagesDone(At(), World(), layer, c, q);
      }
    }

    /** Reads keys from one layer, a group wildcard standing for every key of the group. `n` keys
        have been read when it returns; only an error stops it early. */
    method ValGet(layer: Byte, keys: seq<Key>) returns (out: Config, err: bool, ghost n: nat)
      requires Valid()
      modifies this`buf, dev`out, dev`cuts, dev`turn
      ensures Valid() && dev.turn >= old(dev.turn)
      ensures n <= |keys| && Brought(out, old(At()), World(), layer, dev.Layer(layer), keys, n)
      ensures At() == KeyLink(old(At()), World(), layer, dev.Layer(layer), keys, n)
      ensures forall i :: 0 <= i < n ==>
                (KeyEnd(old(At()), World(), layer, dev.Layer(layer), keys, i).err <==> err && i == n - 1)
      ensures if err then n > 0 else n == |keys|
      ensures Knows(out, dev.Layer(layer), keys, false)
      ensures Answering(dev.fate, old(dev.turn), dev.turn) ==> !err && Knows(out, dev.Layer(layer), keys, true)
    {
      hide Quiet, Parse, Learn, Selection, Readable, Tidy, Answering, Knows, Brought, PagesRun;
      out, err, n := map[], false, 0;
      ghost var c, start, complete, l := dev.Layer(layer), dev.turn, true, At();
      KnowsNothing(c);
      BroughtNothing(l, World(), layer, c, keys);
      var i := 0;
      while i < |keys|
        invariant 0 <= i == n <= |keys| && !err
        invariant Valid() && c == dev.Layer(layer) && start <= dev.turn
        invariant Knows(out, c, keys[..i], complete)
        invariant Answering(dev.fate, start, dev.turn) ==> complete
        invariant At() == KeyLink(l, World(), layer, c, keys, i) && Brought(out, l, World(), layer, c, keys, i)
        invariant forall j :: 0 <= j < i ==> !KeyEnd(l, World(), layer, c, keys, j).err
      {
        ghost var was, asked := out, dev.turn;
        ghost var m;
        out, err, m := ReadPages(layer, keys[i], out);
        KnowsMore(was, c, keys[..i], keys[i], m, complete);
        BroughtMore(was, l, World(), layer, c, keys, i, m);
        assert keys[..i] + [keys[i]] == keys[..i + 1];
        complete := complete && m == |Readable(c, keys[i])|;
        AnsweringParts(dev.fate, start, asked, dev.turn);
        i, n := i + 1, n + 1;
        if err {
          KnowsWeaken(out, c, keys, i, complete);
          return;
        }
      }
      KnowsWeaken(out, c, keys, i, complete);
      assert keys[..i] == keys;
    }

    /** Reads the requested keys, a group with more than four of them in one wildcard poll. What
        the first `n` groups brought in is returned; only an error in the next one stops it. */
    method ReadKeys(layer: Byte, keys: seq<Key>) returns (out: Config, err: bool, ghost n: nat)
      requires Valid()
      modifies this`buf, dev`out, dev`cuts, dev`turn
      ensures Valid() && dev.turn >= old(dev.turn)
      ensures ReadsEnd(At(), err) == GroupsRun(old(At()), World(), layer, dev.Layer(layer), keys, 256)
      ensures n <= 256 && GroupsRead(out, old(At()), World(), layer, dev.Layer(layer), keys, n)
      ensures if err then n < 256 && GroupFails(old(At()), World(), layer, dev.Layer(layer), keys, n) else n == 256
      ensures forall k :: k in out ==> k in keys && k in dev.Layer(layer) && out[k] == dev.Layer(layer)[k]
      ensures Paged(dev.Layer(layer)) && Answering(dev.fate, old(dev.turn), dev.turn) ==>
                !err && forall k :: k in keys && k in dev.Layer(layer) ==> k in out
    {
      hide Quiet, Parse, Selection, Readable, Tidy, Answering, Knows, Paged, ReadBelow, InGroup, AskFor, Brought,
           GroupsRead, KeyLink, KeyEnd, GroupsRun, GroupLink, KeysRun;
      out, err, n := map[], false, 0;
      ghost var c, start, complete, l := dev.Layer(layer), dev.turn, true, At();
      var g := 0;
      ReadNone(c, keys);
      NoGroups(l, World(), layer, c, keys);
      GroupsStart(l, World(), layer, c, keys);
      while g < 256
        invariant 0 <= g == n <= 256 && At() == GroupLink(l, World(), layer, c, keys, g)
        invariant GroupsRun(l, World(), layer, c, keys, g) == ReadsEnd(At(), false)
        invariant GroupsRead(out, l, World(), layer, c, keys, g)
        invariant Valid() && c == dev.Layer(layer) && start <= dev.turn
        invariant ReadBelow(out, c, keys, g, complete)
        invariant Paged(c) && Answering(dev.fate, start, dev.turn) ==> complete
        invariant complete ==> Paged(c) || g == 0
      {
        var want := InGroup(keys, g);
        ghost var asked := dev.turn;
        var got: Config;
        ghost var m;
        got, err, m := ValGet(layer, AskFor(want, g));
        AnsweringParts(dev.fate, start, asked, dev.turn);
        GroupRun(l, World(), layer, c, keys, g, m, err);
        if err {
          GroupsRunStays(l, World(), layer, c, keys, g + 1, 256);
          assert GroupEnd(l, World(), layer, c, keys, g, m - 1).err;
          ReadSome(out, c, keys, g, complete);
          return;
        }
        ghost var done := Answering(dev.fate, asked, dev.turn) && Paged(c);
        var next := Copy(out, want, got);
        ReadGroup(out, next, got, c, keys, g, complete, done);
        GroupsMore(out, next, got, l, World(), layer, c, keys, g);
        out, complete := next, complete && done;
        g, n := g + 1, n + 1;
      }
      ReadSome(out, c, keys, g, complete);
    }

    method Copy(out0: Config, want: seq<Key>, got: Config) returns (out: Config)
      ensures forall k :: k in out <==> k in out0 || (k in want && k in got)
      ensures forall k :: k in out ==> out[k] == if k in want && k in got then got[k] else out0[k]
    {
      out := out0;
      var i := 0;
      while i < |want|
        invariant 0 <= i <= |want|
        invariant forall k :: k in out <==> k in out0 || (k in want[..i] && k in got)
        invariant forall k :: k in out ==> out[k] == if k in want[..i] && k in got then got[k] else out0[k]
      {
        assert want[..i + 1] == want[..i] + [want[i]];
        if want[i] in got {
          out := out[want[i] := got[want[i]]];
        }
        i := i + 1;
      }
      assert want[..i] == want;
    }

    /** Writes one batch and waits for its acknowledgement. */
    method ValSet(layers: Byte, kvs: seq<KV>) returns (r: SetResult)
      requires Valid() && |kvs| <= MAX_SET
      modifies this`buf, dev`out, dev`cuts, dev`turn, dev`ram, dev`bbr, dev`flash, dev`sets
      ensures Valid()
      ensures dev.ram.Keys == old(dev.ram.Keys)
      ensures !Widths(kvs) ==>
                r == Malformed && dev.Mem() == old(dev.Mem()) && dev.sets == old(dev.sets) && dev.turn == old(dev.turn)
      ensures Widths(kvs) ==>
                var f, ok := dev.fate(old(dev.turn)), Stored(old(dev.ram), kvs);
                && dev.turn == old(dev.turn) + 1 && At() == AfterSet(old(At()), World(), ok)
                && r == (if !f.Answered? then NoReply else if ok then Acked else Refused)
                && (if ok && !f.Deaf? then
                      dev.Mem() == After(old(dev.Mem()), layers, kvs, dev.ignore) && dev.sets == old(dev.sets) + [kvs]
                    else dev.Mem() == old(dev.Mem()) && dev.sets == old(dev.sets))
    {
      hide Quiet, Calm, Parse, Residue, Frames, Kept, Whole, Taken, Adds, SetAnswer, Serialise, ParseSet, Put, Tidy,
           FirstAck, Stored, AckLeft, SetBytes;
      var request := BuildSet(layers, kvs);
      if request.None? {
        return Malformed;
      }
      SerialisedSize(kvs);
      SetParsed(dev.ram, kvs);
      var p := request.value;
      assert p[4..] == Serialise(kvs);
      ghost var answered, ok := dev.fate(dev.turn).Answered?, Stored(dev.ram, kvs);
      ghost var sent := dev.ValSet(p);
      ghost var pre, all := Asked(ID_VALSET, buf, old(dev.out), sent, Sent(dev.noise(old(dev.turn))),
                                  if answered then SetAnswer(ok) else []);
      r := AwaitAck(if answered then Some(ok) else None, pre, all);
    }

    /** Reads until the acknowledgement of the write just made has arrived. */
    method AwaitAck(ghost answer: Option<bool>, ghost pre: seq<Frame>, ghost all: seq<Frame>) returns (r: SetResult)
      requires Calm(pre) && all == pre + (if answer.Some? then SetAnswer(answer.value) else [])
      requires Taken(ID_VALSET, all, [], [], buf + dev.out) && Parse(DRAIN, buf) == []
      modifies this`buf, dev`out, dev`cuts
      ensures Parse(DRAIN, buf) == [] && Quiet(buf + dev.out) && At() == AckLeft(old(At()))
      ensures r == match answer
                   case None => NoReply
                   case Some(ok) => if ok then Acked else Refused
    {
      hide Quiet, Calm, Parse, Residue, Frames, Kept, Whole, Taken, SetAnswer, FirstAck, AckLeft;
      ghost var got: seq<Msg>, fs: seq<Frame> := [], [];
      ghost var goal := AckLeft(At());
      NoAckYet();
      while dev.out != []
        invariant Taken(ID_VALSET, all, fs, got, buf + dev.out) && Parse(DRAIN, buf) == []
        invariant FirstAck(got) == None && AckLeft(At()) == goal
        decreases |dev.out|
      {
        AckReads(At());
        var rd := dev.Read();
        ReadOn(ID_VALSET, all, fs, got, buf, rd, dev.out);
        var rest, ms, _ := Drain(buf + rd, CLS_CFG, ID_VALSET);
        FirstAckConcat(got, ms);
        fs := fs + Sent(buf + rd);
        buf, got := rest, got + ms;
        SetStands(answer, pre, all, fs, got, buf + dev.out);
        var ack := FindAck(ms);
        if ack.Some? {
          return if ack.value then Acked else Refused;
        }
      }
      AckIdle(At());
      Idle(buf);
      SetStands(answer, pre, all, fs, got, buf);
      return NoReply;
    }

    /** Builds the request, unless some value has not the width its key announces. */
    method BuildSet(layers: Byte, kvs: seq<KV>) returns (o: Option<seq<Byte>>)
      ensures o == if Widths(kvs) then Some([0, layers, 0, 0] + Serialise(kvs)) else None
    {
      hide Serialise, KeyBytes, KeySize;
      var p: seq<Byte> := [0, layers, 0, 0];
      var i := 0;
      SerialiseNone(p, kvs);
      while i < |kvs|
        invariant 0 <= i <= |kvs| && Widths(kvs[..i])
        invariant p == [0, layers, 0, 0] + Serialise(kvs[..i])
      {
        if KeySize(kvs[i].key) != |kvs[i].value| {
          return None;
        }
        SerialiseSnoc(kvs[..i], kvs[i]);
        assert kvs[..i + 1] == kvs[..i] + [kvs[i]];
        Assoc([0, layers, 0, 0], Serialise(kvs[..i]), KeyBytes(kvs[i].key) + kvs[i].value);
        p := p + (KeyBytes(kvs[i].key) + kvs[i].value);
        i := i + 1;
      }
      assert kvs[..i] == kvs;
      return Some(p);
    }

    method FindAck(ms: seq<Msg>) returns (o: Option<bool>)
      ensures o == FirstAck(ms)
    {
      hide Acknowledges;
      var i := 0;
      while i < |ms|
        invariant 0 <= i <= |ms| && FirstAck(ms[..i]) == None
      {
        FirstAckSnoc(ms[..i], ms[i]);
        assert ms[..i + 1] == ms[..i] + [ms[i]];
        if Acknowledges(ms[i], ID_VALSET) {
          FirstAckConcat(ms[..i + 1], ms[i + 1..]);
          assert ms == ms[..i + 1] + ms[i + 1..];
          return Some(ms[i].id == ID_ACK);
        }
        i := i + 1;
      }
      assert ms[..i] == ms;
      return None;
    }
  
    /** Writes in batches of at most 64 pairs, stopping at the first batch that fails; `done`
        pairs have then landed. */
    method SetChunked(layers: Byte, kvs: seq<KV>) returns (r: SetResult, ghost done: nat)
      requires Valid()
      modifies this`buf, dev`out, dev`cuts, dev`turn, dev`ram, dev`bbr, dev`flash, dev`sets
      ensures Valid() && dev.ram.Keys == old(dev.ram.Keys) && dev.turn >= old(dev.turn)
      ensures done <= |kvs| && (r.Acked? ==> done == |kvs|)
      ensures dev.Mem() == After(old(dev.Mem()), layers, kvs[..done], dev.ignore)
      ensures InBatches(old(dev.sets), dev.sets, kvs[..done])
      ensures Widths(kvs[..done]) && Stored(old(dev.ram), kvs[..done])
      ensures r.Malformed? ==> !Widths(kvs)
      ensures r.Refused? ==> !Stored(old(dev.ram), kvs)
      ensures r.NoReply? ==> !Answering(dev.fate, old(dev.turn), dev.turn)
      ensures Widths(kvs) && Stored(old(dev.ram), kvs) ==>
                && (r.Acked? || r.NoReply?)
                && Delivery(done, dev.turn, r.Acked?) == Delivered(dev.fate, old(dev.turn), |kvs|)
                && At() == AfterSets(old(At()), World(), |kvs|)
    {
      hide Delivered, Remaining, AfterSets, AfterSet, Quiet, Parse, Put, Tidy, InBatches, Answering, After,
           Stored, Widths, Receiver.Valid;
      r, done := Acked, 0;
      ghost var m0, ram, sets, start := dev.Mem(), dev.ram, dev.sets, dev.turn;
      ghost var goal := AfterSets(At(), World(), |kvs|);
      ChunksStart(m0, layers, kvs, dev.ignore, ram, sets);
      DeliverNone(dev.fate, start, |kvs|);
      var i := 0;
      while i < |kvs|
        invariant 0 <= i == done <= |kvs| && r.Acked?
        invariant Valid() && dev.ram.Keys == ram.Keys && dev.turn >= start
        invariant dev.Mem() == After(m0, layers, kvs[..i], dev.ignore) && InBatches(sets, dev.sets, kvs[..i])
        invariant Widths(kvs[..i]) && Stored(ram, kvs[..i])
        invariant Widths(kvs) && Stored(ram, kvs) ==>
                    Remaining(dev.fate, start, |kvs|, i, dev.turn) && AfterSets(At(), World(), |kvs| - i) == goal
      {
        var n := if |kvs| - i < MAX_SET then |kvs| - i else MAX_SET;
        ghost var mid, was, asked := dev.ram, dev.sets, dev.turn;
        SetsMore(At(), World(), |kvs| - i);
        r := ValSet(layers, kvs[i..i + n]);
        Chunk(m0, layers, dev.ignore, ram, mid, sets, was, kvs, i, n);
        DeliverMore(dev.fate, start, |kvs|, i, asked);
        if dev.sets != was {
          done := i + n;
        }
        if !r.Acked? {
          SilentBatch(dev.fate, start, asked, dev.turn);
          return;
        }
        i := i + n;
      }
      assert kvs[..i] == kvs;
      DeliverDone(dev.fate, start, |kvs|, dev.turn);
      SetsMore(At(), World(), 0);
    }
  }

  // ---- batches

  function Flat(b: seq<seq<KV>>): seq<KV> {
    if b == [] then [] else Flat(b[..|b| - 1]) + b[|b| - 1]
  }

  /** The write requests since `before` are batches of one to 64 pairs that join up to `kvs`. */
  ghost predicate InBatches(before: seq<seq<KV>>, now: seq<seq<KV>>, kvs: seq<KV>) {
    && before <= now && Flat(now[|before|..]) == kvs
    && forall i :: |before| <= i < |now| ==> 1 <= |now[i]| <= MAX_SET
  }

  /** How far a chunked write gets, the requests so far, and whether all were acknowledged. */
  datatype Delivery = Delivery(landed: nat, turn: nat, acked: bool)

  /** Sending `n` stored pairs: the first batch that is not acknowledged ends it, and has landed
      itself unless the receiver was deaf to it. */
  function Delivered(fate: nat -> Fate, turn: nat, n: nat): Delivery
    decreases n
  {
    if n == 0 then Delivery(0, turn, true)
    else
      var m := if n < MAX_SET then n else MAX_SET;
      match fate(turn)
      case Answered => var d := Delivered(fate, turn + 1, n - m); d.(landed := m + d.landed)
      case Mute => Delivery(m, turn + 1, false)
      case Deaf => Delivery(0, turn + 1, false)
  }

  /** With `k` the first batch that is not answered, exactly `k` full batches have landed, and the
      next one too if only its acknowledgement was lost; with none, everything has. */
  lemma {:induction false} DeliveredExactly(fate: nat -> Fate, turn: nat, n: nat) returns (k: nat)
    ensures Answering(fate, turn, turn + k)
    ensures var d := Delivered(fate, turn, n);
            if d.acked then k * 64 >= n && d.landed == n && d.turn == turn + k
            else
              && k * 64 < n && !fate(turn + k).Answered? && d.turn == turn + k + 1
              && d.landed == if fate(turn + k).Deaf? then k * 64
                             else if (k + 1) * 64 < n then (k + 1) * 64 else n
    decreases n
  {
    if n == 0 || !fate(turn).Answered? {
      k := 0;
    } else {
      var m := if n < MAX_SET then n else MAX_SET;
      var i := DeliveredExactly(fate, turn + 1, n - m);
      k := i + 1;
    }
  }

  /** After `i` pairs of `n`, all acknowledged, at request `now`. */
  ghost predicate Remaining(fate: nat -> Fate, turn: nat, n: nat, i: nat, now: nat) {
    i <= n && var d := Delivered(fate, now, n - i); Delivered(fate, turn, n) == d.(landed := i + d.landed)
  }

  lemma DeliverNone(fate: nat -> Fate, turn: nat, n: nat)
    ensures Remaining(fate, turn, n, 0, turn)
  {
    hide Delivered;
  }

  lemma DeliverMore(fate: nat -> Fate, turn: nat, n: nat, i: nat, now: nat)
    requires i < n
    ensures Remaining(fate, turn, n, i, now) ==>
              var m := if n - i < MAX_SET then n - i else MAX_SET;
              match fate(now)
              case Answered => Remaining(fate, turn, n, i + m, now + 1)
              case Mute => Delivered(fate, turn, n) == Delivery(i + m, now + 1, false)
              case Deaf => Delivered(fate, turn, n) == Delivery(i, now + 1, false)
  {
  }

  lemma DeliverDone(fate: nat -> Fate, turn: nat, n: nat, now: nat)
    ensures Remaining(fate, turn, n, n, now) ==> Delivered(fate, turn, n) == Delivery(n, now, true)
  {
  }

  lemma ChunksStart(m: Memory, layers: Byte, kvs: seq<KV>, ignore: set<Key>, ram: Config, sets: seq<seq<KV>>)
    ensures kvs[..0] == [] && After(m, layers, [], ignore) == m && InBatches(sets, sets, [])
    ensures Widths([]) && Stored(ram, [])
  {
    AfterNothing(m, layers, ignore);
  }

  lemma BatchMore(before: seq<seq<KV>>, now: seq<seq<KV>>, kvs: seq<KV>, batch: seq<KV>)
    requires InBatches(before, now, kvs) && 1 <= |batch| <= MAX_SET
    ensures InBatches(before, now + [batch], kvs + batch)
  {
    var next := now + [batch];
    var b := next[|before|..];
    assert b[..|b| - 1] == now[|before|..];
  }

  lemma Chunk(m: Memory, layers: Byte, ignore: set<Key>, ram: Config, mid: Config,
              sets: seq<seq<KV>>, was: seq<seq<KV>>, kvs: seq<KV>, i: nat, n: nat)
    requires i + n <= |kvs| && 1 <= n <= MAX_SET && mid.Keys == ram.Keys && InBatches(sets, was, kvs[..i])
    requires Widths(kvs[..i]) && Stored(ram, kvs[..i])
    ensures var batch := kvs[i..i + n];
            && kvs[..i] + batch == kvs[..i + n]
            && After(After(m, layers, kvs[..i], ignore), layers, batch, ignore)
                == After(m, layers, kvs[..i + n], ignore)
            && InBatches(sets, was + [batch], kvs[..i + n])
            && (!Widths(batch) ==> !Widths(kvs)) && (!Stored(mid, batch) ==> !Stored(ram, kvs))
            && (Widths(batch) && Stored(mid, batch) ==> Widths(kvs[..i + n]) && Stored(ram, kvs[..i + n]))
  {
    hide After, InBatches, KeySize;
    var batch := kvs[i..i + n];
    assert kvs[..i] + batch == kvs[..i + n];
    AfterConcat(m, layers, kvs[..i], batch, ignore);
    BatchMore(sets, was, kvs[..i], batch);
    assert forall x :: x in batch ==> x in kvs;
  }

  lemma SilentBatch(fate: nat -> Fate, from: nat, at: nat, to: nat)
    requires from <= at
    ensures at < to && !fate(at).Answered? ==> !Answering(fate, from, to)
  {
  }

  datatype SetResult = Acked | Refused | Malformed | NoReply

  lemma ReadNone(c: Config, keys: seq<Key>)
    ensures ReadBelow(map[], c, keys, 0, true)
  {
  }

  lemma ReadSome(out: Config, c: Config, keys: seq<Key>, g: int, complete: bool)
    requires ReadBelow(out, c, keys, g, complete)
    ensures forall k :: k in out ==> k in keys && k in c && out[k] == c[k]
    ensures g == 256 && complete ==> forall k :: k in keys && k in c ==> k in out
  {
  }

  lemma AnsweringParts(fate: nat -> Fate, a: nat, b: nat, c: nat)
    requires a <= b <= c
    ensures Answering(fate, a, c) ==> Answering(fate, a, b) && Answering(fate, b, c)
  {
  }

  lemma KnowsWeaken(out: Config, c: Config, keys: seq<Key>, i: nat, complete: bool)
    requires i <= |keys| && Knows(out, c, keys[..i], complete)
    ensures Knows(out, c, keys, false)
  {
    hide Readable;
    forall k | k in out ensures Asks(c, keys, k) {
      assert Asks(c, keys[..i], k);
    }
  }

  lemma NoAckYet()
    ensures FirstAck([]) == None
  {
  }

  lemma CollectStart(out: Config, ms: seq<Msg>)
    ensures ms[..0] == [] && AllPairs([]) == [] && Put(out, [], {}) == out
  {
  }

  lemma ReadStart(out: Config, c: Config, q: Key, fate: nat -> Fate, turn: nat)
    ensures ReadUpTo(c, q, out, out, 0) && Answering(fate, turn, turn)
  {
  }

  lemma ReadMeans(c: Config, q: Key, out0: Config, out: Config, m: nat)
    requires ReadUpTo(c, q, out0, out, m)
    ensures m <= |Readable(c, q)| && out == Learn(out0, c, Readable(c, q)[..m])
  {
  }

  lemma AnsweringMore(fate: nat -> Fate, from: nat, to: nat)
    requires Answering(fate, from, to) && from <= to
    ensures Answering(fate, from, to + 1) <==> fate(to).Answered?
  {
  }

  lemma PagesFull(c: Config, q: Key)
    ensures |Readable(c, q)| <= PAGES * PAGE
  {
  }

  ghost predicate Answering(fate: nat -> Fate, from: nat, to: nat) {
    forall t :: from <= t < to ==> fate(t).Answered?
  }
}
