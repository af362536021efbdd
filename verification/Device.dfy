/** The receiver at the far end of the configuration conversation: its stored keys and the bytes
    it sends. What it streams besides replies, and which requests it fails to answer, is
    arbitrary. */
module Device {
  import opened BitSeq
  import opened Streams
  import opened Outcomes
  import opened Ubx
  import opened CfgData
  import opened SortedSets

  type Config = map<Key, seq<Byte>>

  ghost predicate Tidy(c: Config) {
    forall k :: k in c ==> Sized(KV(k, c[k]))
  }

  // ---- reading: pages of the keys a request selects

  const PAGE: nat := 64

  function GroupOf(k: Key): nat { k / 0x1_0000 % 256 }

  function Wildcard(g: nat): (k: Key)
    requires g < 256
    ensures GroupOf(k) == g && IsWildcard(k)
  {
    g * 0x1_0000 + 0xFFFF
  }

  /** A key's group is its third byte; the wildcard of a group ends in 0xFFFF. */
  lemma Groups(k: Key, g: nat)
    requires g < 256
    ensures GroupOf(k) == KeyBytes(k)[2]
    ensures KeyBytes(Wildcard(g)) == [0xFF, 0xFF, g, 0]
    ensures IsWildcard(k) <==> KeyBytes(k)[..2] == [0xFF, 0xFF]
  {
    assert k % 0x1_0000 == k % 0x100 + k / 0x100 % 0x100 * 0x100 by {
      assert k / 0x100 / 0x100 == k / 0x1_0000;
    }
    var b := KeyBytes(k)[..2];
    assert b == [KeyBytes(k)[0], KeyBytes(k)[1]];
  }

  predicate IsWildcard(k: Key) { k % 0x1_0000 == 0xFFFF }

  /** The stored keys a requested key stands for. */
  function Matches(c: Config, q: Key): set<Key> {
    if IsWildcard(q) then set k | k in c && GroupOf(k) == GroupOf(q)
    else if q in c then {q} else {}
  }

  /** The matching keys in increasing order. */
  function Selection(c: Config, q: Key): (ks: seq<Key>)
    ensures Lists(ks, Matches(c, q)) && Inside(c, ks)
  {
    Sorted(Matches(c, q))
  }

  predicate Inside(c: Config, ks: seq<Key>) {
    forall i :: 0 <= i < |ks| ==> ks[i] in c
  }

  function Slice<T>(all: seq<T>, pos: nat): (r: seq<T>)
    ensures |r| <= PAGE
  {
    if pos >= |all| then [] else if pos + PAGE < |all| then all[pos..pos + PAGE] else all[pos..]
  }

  function Page(c: Config, q: Key, pos: nat): (ks: seq<Key>)
    ensures |ks| <= PAGE && Inside(c, ks)
  {
    Slice(Selection(c, q), pos)
  }

  function Pairs(c: Config, ks: seq<Key>): (kvs: seq<KV>)
    requires Inside(c, ks)
    ensures |kvs| == |ks|
    ensures forall i :: 0 <= i < |ks| ==> kvs[i] == KV(ks[i], c[ks[i]])
  {
    if ks == [] then [] else Pairs(c, ks[..|ks| - 1]) + [KV(ks[|ks| - 1], c[ks[|ks| - 1]])]
  }

  // ---- writing: all or nothing

  /** The pairs of a write request, or nothing if a key is not stored or data is missing. */
  function ParseSet(known: Config, d: seq<Byte>): Option<seq<KV>>
    decreases |d|
  {
    if |d| < 4 then Some([])
    else
      var k := KeyAt(d);
      var n := KeySize(k);
      if k !in known || 4 + n > |d| then None
      else
        match ParseSet(known, d[4 + n..])
        case None => None
        case Some(kvs) => Some([KV(k, d[4..4 + n])] + kvs)
  }

  /** Writes in order; a key the receiver ignores is acknowledged but keeps its value. */
  function Put(c: Config, kvs: seq<KV>, ignore: set<Key>): Config {
    if kvs == [] then c
    else
      var p := Put(c, kvs[..|kvs| - 1], ignore);
      var kv := kvs[|kvs| - 1];
      if kv.key in ignore then p else p[kv.key := kv.value]
  }

  predicate LayerSets(layers: Byte, bit: nat)
    requires bit > 0
  {
    layers as nat / bit % 2 == 1
  }

  function Written(c: Config, layers: Byte, bit: nat, kvs: seq<KV>, ignore: set<Key>): Config
    requires bit > 0
  {
    if LayerSets(layers, bit) then Put(c, kvs, ignore) else c
  }

  predicate Stored(c: Config, kvs: seq<KV>) {
    forall kv :: kv in kvs ==> kv.key in c
  }

  predicate Widths(kvs: seq<KV>) {
    forall kv :: kv in kvs ==> |kv.value| == KeySize(kv.key)
  }

  /** A serialised request is read back as itself, exactly when every key is stored. */
  lemma {:induction false} SetParsed(c: Config, kvs: seq<KV>)
    requires Widths(kvs)
    ensures ParseSet(c, Serialise(kvs)) == if Stored(c, kvs) then Some(kvs) else None
  {
    hide KeyBytes, KeyAt, KeySize;
    if kvs != [] {
      var kv, rest := kvs[0], Serialise(kvs[1..]);
      var d := Serialise(kvs);
      Assoc(KeyBytes(kv.key), kv.value, rest);
      KeyBack(kv.key, kv.value + rest);
      assert d[4..4 + |kv.value|] == kv.value && d[4 + |kv.value|..] == rest;
      SetParsed(c, kvs[1..]);
      assert kvs == [kv] + kvs[1..];
    }
  }

  lemma {:induction false} ParsedStored(c: Config, d: seq<Byte>)
    requires ParseSet(c, d).Some?
    ensures Stored(c, ParseSet(c, d).value) && Widths(ParseSet(c, d).value)
    decreases |d|
  {
    if |d| >= 4 {
      ParsedStored(c, d[4 + KeySize(KeyAt(d))..]);
    }
  }

  lemma {:induction false} PutConcat(c: Config, a: seq<KV>, b: seq<KV>, ignore: set<Key>)
    ensures Put(c, a + b, ignore) == Put(Put(c, a, ignore), b, ignore)
    decreases |b|
  {
    if b == [] {
      assert a + b == a;
    } else {
      assert (a + b)[..|a + b| - 1] == a + b[..|b| - 1];
      PutConcat(c, a, b[..|b| - 1], ignore);
    }
  }

  lemma {:induction false} PutKeys(c: Config, kvs: seq<KV>, ignore: set<Key>)
    requires Stored(c, kvs) && Widths(kvs) && Tidy(c)
    ensures Put(c, kvs, ignore).Keys == c.Keys && Tidy(Put(c, kvs, ignore))
    decreases |kvs|
  {
    if kvs != [] {
      var b := kvs[..|kvs| - 1];
      PutKeys(c, b, ignore);
      assert kvs[|kvs| - 1] in kvs;
    }
  }

  /** The three layers of stored configuration. */
  datatype Memory = Memory(ram: Config, bbr: Config, flash: Config)

  function After(m: Memory, layers: Byte, kvs: seq<KV>, ignore: set<Key>): Memory {
    Memory(Written(m.ram, layers, SET_RAM, kvs, ignore),
           Written(m.bbr, layers, SET_BBR, kvs, ignore),
           Written(m.flash, layers, SET_FLASH, kvs, ignore))
  }

  lemma AfterConcat(m: Memory, layers: Byte, a: seq<KV>, b: seq<KV>, ignore: set<Key>)
    ensures After(After(m, layers, a, ignore), layers, b, ignore) == After(m, layers, a + b, ignore)
  {
    hide Put;
    PutConcat(m.ram, a, b, ignore);
    PutConcat(m.bbr, a, b, ignore);
    PutConcat(m.flash, a, b, ignore);
  }

  lemma AfterNothing(m: Memory, layers: Byte, ignore: set<Key>)
    ensures After(m, layers, [], ignore) == m
  {
  }

  predicate Mentions(kvs: seq<KV>, k: Key) {
    exists i :: 0 <= i < |kvs| && kvs[i].key == k
  }

  /** A write leaves alone every key it does not mention, and every ignored one. */
  lemma {:induction false} PutUntouched(c: Config, kvs: seq<KV>, ignore: set<Key>, k: Key)
    requires k in ignore || !Mentions(kvs, k)
    ensures k in Put(c, kvs, ignore) <==> k in c
    ensures k in c ==> Put(c, kvs, ignore)[k] == c[k]
    decreases |kvs|
  {
    if kvs != [] {
      var a := kvs[..|kvs| - 1];
      assert Mentions(a, k) ==> Mentions(kvs, k) by {
        if Mentions(a, k) {
          var i :| 0 <= i < |a| && a[i].key == k;
          assert kvs[i].key == k;
        }
      }
      PutUntouched(c, a, ignore, k);
    }
  }

  ghost predicate Gives(kvs: seq<KV>, k: Key, v: seq<Byte>) {
    Mentions(kvs, k) && forall i :: 0 <= i < |kvs| && kvs[i].key == k ==> kvs[i].value == v
  }

  /** A key mentioned with one value only ends with that value. */
  lemma {:induction false} PutGives(c: Config, kvs: seq<KV>, ignore: set<Key>, k: Key, v: seq<Byte>)
    requires k !in ignore && Gives(kvs, k, v)
    ensures k in Put(c, kvs, ignore) && Put(c, kvs, ignore)[k] == v
    decreases |kvs|
  {
    var a := kvs[..|kvs| - 1];
    if kvs[|kvs| - 1].key != k {
      assert Mentions(a, k) by {
        var i :| 0 <= i < |kvs| && kvs[i].key == k;
        assert a[i].key == k;
      }
      PutGives(c, a, ignore, k, v);
    }
  }

  // ---- what it sends

  function Sent(s: seq<Byte>): seq<Frame> { Frames(Parse(DRAIN, s)) }

  /** A message no request is waiting for. */
  predicate Harmless(m: Msg) {
    && !(m.cls == CLS_CFG && (m.id == ID_VALGET || m.id == ID_VALSET))
    && !(m.cls == CLS_ACK && m.id == ID_NAK)
    && !Acknowledges(m, ID_VALSET)
  }

  predicate Acknowledges(m: Msg, id: Byte) {
    m.cls == CLS_ACK && |m.payload| >= 2 && m.payload[0] == CLS_CFG && m.payload[1] == id
  }

  ghost predicate Calm(fs: seq<Frame>) {
    forall f :: f in fs ==> |f.raw| >= 8 && Harmless(MsgOf(f))
  }

  /** In bytes: anything but configuration values (06 8A, 06 8B), refusals (05 00) and the
      acknowledgement of a write (05, for 06 8A). */
  lemma CalmInBytes(fs: seq<Frame>)
    ensures Calm(fs) <==> forall f :: f in fs ==>
              && |f.raw| >= 8
              && !(f.raw[2] == 6 && (f.raw[3] == 0x8A || f.raw[3] == 0x8B))
              && !(f.raw[2] == 5 && f.raw[3] == 0)
              && !(f.raw[2] == 5 && |f.raw| >= 10 && f.raw[6] == 6 && f.raw[7] == 0x8A)
  {
  }

  ghost predicate Quiet(s: seq<Byte>) {
    Residue(DRAIN, s) == [] && Calm(Sent(s))
  }

  lemma Joined(a: seq<Byte>, b: seq<Byte>)
    requires Residue(DRAIN, a) == [] && Residue(DRAIN, b) == []
    ensures Residue(DRAIN, a + b) == [] && Sent(a + b) == Sent(a) + Sent(b)
  {
    hide Parse, Residue, Frames;
    DrainCut(a, b);
    assert [] + b == b;
  }

  function FrameOf(cls: Byte, id: Byte, payload: seq<Byte>): Frame {
    Frame(UBX, cls as nat * 256 + id, MessageFrame(cls, id, payload))
  }

  lemma OneFrame(cls: Byte, id: Byte, payload: seq<Byte>)
    requires |payload| < 65536
    ensures var raw, f := MessageFrame(cls, id, payload), FrameOf(cls, id, payload);
            && Sent(raw) == [f] && Residue(DRAIN, raw) == []
            && |f.raw| >= 8 && MsgOf(f) == Msg(cls, id, payload)
  {
    hide Parse, Residue, MessageFrame;
    BuiltIsDrained(cls, id, payload);
    FramesCons(Framed(FrameOf(cls, id, payload)), []);
    assert [Framed(FrameOf(cls, id, payload))] + [] == [Framed(FrameOf(cls, id, payload))];
  }

  lemma {:induction false} SerialisedSize(kvs: seq<KV>)
    requires Widths(kvs)
    ensures |Serialise(kvs)| <= 12 * |kvs|
  {
    if kvs != [] {
      SerialisedSize(kvs[1..]);
    }
  }

  /** What happens to a request: answered; lost on the way; or obeyed with the answer lost. */
  datatype Fate = Answered | Deaf | Mute

  const SET_RAM: nat := 1
  const SET_BBR: nat := 2
  const SET_FLASH: nat := 4
  const LAYER_RAM: Byte := 0
  const LAYER_BBR: Byte := 1
  const LAYER_FLASH: Byte := 2

  /** The frames that answer a read of one page; an empty page is refused. */
  function GetAnswer(c: Config, p: seq<Byte>): seq<Frame>
    requires |p| == 8
  {
    var ks := Page(c, KeyAt(p[4..]), Position(p));
    if ks == [] then [FrameOf(CLS_ACK, ID_NAK, [CLS_CFG, ID_VALGET])]
    else [FrameOf(CLS_CFG, ID_VALGET, PageData(c, p, ks)), FrameOf(CLS_ACK, ID_ACK, [CLS_CFG, ID_VALGET])]
  }

  /** The same answer as bytes. */
  function GetBytes(c: Config, p: seq<Byte>): seq<Byte>
    requires |p| == 8
  {
    var ks := Page(c, KeyAt(p[4..]), Position(p));
    if ks == [] then MessageFrame(CLS_ACK, ID_NAK, [CLS_CFG, ID_VALGET])
    else MessageFrame(CLS_CFG, ID_VALGET, PageData(c, p, ks)) + MessageFrame(CLS_ACK, ID_ACK, [CLS_CFG, ID_VALGET])
  }

  /** The acknowledgement or refusal of a write, as bytes. */
  function SetBytes(ok: bool): seq<Byte> {
    MessageFrame(CLS_ACK, if ok then ID_ACK else ID_NAK, [CLS_CFG, ID_VALSET])
  }

  /** The acknowledgements of a write and of a read, and the refusal of a write, byte for byte. */
  lemma AckBytes()
    ensures SetBytes(true) == [0xB5, 0x62, 0x05, 0x01, 2, 0, 0x06, 0x8A, 0x98, 0xC1]
    ensures SetBytes(false) == [0xB5, 0x62, 0x05, 0x00, 2, 0, 0x06, 0x8A, 0x97, 0xBC]
    ensures MessageFrame(CLS_ACK, ID_ACK, [CLS_CFG, ID_VALGET])
         == [0xB5, 0x62, 0x05, 0x01, 2, 0, 0x06, 0x8B, 0x99, 0xC2]
  {
    hide MessageFrame;
    AckInBytes(0x01, 0x8A);
    AckInBytes(0x00, 0x8A);
    AckInBytes(0x01, 0x8B);
  }

  function Position(p: seq<Byte>): nat
    requires |p| == 8
  {
    p[2] as nat + 256 * p[3] as nat
  }

  function PageData(c: Config, p: seq<Byte>, ks: seq<Key>): seq<Byte>
    requires |p| == 8 && Inside(c, ks)
  {
    [1, p[1], p[2], p[3]] + Serialise(Pairs(c, ks))
  }

  lemma PageFits(c: Config, p: seq<Byte>, ks: seq<Key>)
    requires Tidy(c) && |p| == 8 && Inside(c, ks) && |ks| <= PAGE
    ensures 4 <= |PageData(c, p, ks)| < 65536
    ensures ParseCfg(PageData(c, p, ks)[4..]) == Pairs(c, ks)
  {
    hide Serialise, ParseCfg, KeySize;
    var kvs := Pairs(c, ks);
    assert forall kv :: kv in kvs ==> Sized(kv);
    SerialisedSize(kvs);
    ParseSerialised(kvs);
    assert PageData(c, p, ks)[4..] == Serialise(kvs);
  }

  function SetAnswer(ok: bool): seq<Frame> {
    [FrameOf(CLS_ACK, if ok then ID_ACK else ID_NAK, [CLS_CFG, ID_VALSET])]
  }

  /** What the receiver adds to its output for one request: stray frames, then the answer. */
  ghost predicate Adds(sent: seq<Byte>, stray: seq<Frame>, answer: seq<Frame>) {
    Residue(DRAIN, sent) == [] && Sent(sent) == stray + answer && Calm(stray)
  }

  lemma AddsNoise(noise: seq<Byte>)
    requires Quiet(noise)
    ensures Adds(noise, Sent(noise), [])
  {
    hide Sent, Calm;
    assert Sent(noise) + [] == Sent(noise);
  }

  lemma AddsFrame(sent: seq<Byte>, stray: seq<Frame>, answer: seq<Frame>, cls: Byte, id: Byte, payload: seq<Byte>)
    requires Adds(sent, stray, answer) && |payload| < 65536
    ensures Adds(sent + MessageFrame(cls, id, payload), stray, answer + [FrameOf(cls, id, payload)])
  {
    hide Sent, Calm, Residue, MessageFrame, FrameOf;
    OneFrame(cls, id, payload);
    Joined(sent, MessageFrame(cls, id, payload));
    Assoc(stray, answer, [FrameOf(cls, id, payload)]);
  }

  lemma Pushes<T>(x: T, y: T)
    ensures [] + [x] == [x] && [x] + [y] == [x, y]
  {
  }

  /** How many of the waiting bytes the next read returns: at least one. */
  function Cut(out: seq<Byte>, cuts: seq<nat>): (n: nat)
    requires out != []
    ensures 1 <= n <= |out|
  {
    if cuts == [] || cuts[0] > |out| then |out| else if cuts[0] == 0 then 1 else cuts[0]
  }

  function Later(cuts: seq<nat>): seq<nat> {
    if cuts == [] then [] else cuts[1..]
  }

  class Receiver {
    var ram: Config
    var bbr: Config
    var flash: Config
    /** Bytes sent and not yet read. */
    var out: seq<Byte>
    /** Requests seen so far. */
    var turn: nat
    /** The write requests obeyed so far. */
    var sets: seq<seq<KV>>
    /** How much of the waiting bytes each coming read returns; all of them once it is empty. */
    var cuts: seq<nat>
    /** What happens to each request. */
    var fate: nat -> Fate
    const ignore: set<Key>
    /** What it streams before dealing with each request. */
    const noise: nat -> seq<Byte>

    constructor (ram: Config, bbr: Config, flash: Config, ignore: set<Key>, fate: nat -> Fate,
                 noise: nat -> seq<Byte>, cuts: seq<nat>)
      requires Tidy(ram) && Tidy(bbr) && Tidy(flash) && bbr.Keys == ram.Keys && flash.Keys == ram.Keys
      requires forall n :: Quiet(noise(n))
      ensures Valid() && out == [] && turn == 0 && sets == []
      ensures this.ram == ram && this.bbr == bbr && this.flash == flash
      ensures this.ignore == ignore && this.fate == fate && this.noise == noise && this.cuts == cuts
    {
      this.ram, this.bbr, this.flash, out, turn, sets := ram, bbr, flash, [], 0, [];
      this.ignore, this.fate, this.noise, this.cuts := ignore, fate, noise, cuts;
    }

    ghost predicate Valid()
      reads this
    {
      && Tidy(ram) && Tidy(bbr) && Tidy(flash) && bbr.Keys == ram.Keys && flash.Keys == ram.Keys
      && forall n :: Quiet(noise(n))
    }

    function Mem(): Memory
      reads this
    {
      Memory(ram, bbr, flash)
    }

    function Layer(layer: Byte): Config
      reads this
    {
      if layer == LAYER_FLASH then flash else if layer == LAYER_BBR then bbr else ram
    }

    /** A read returns some nonempty part of what is waiting. */
    method Read() returns (rd: seq<Byte>)
      requires out != []
      modifies this`out, this`cuts
      ensures rd != [] && rd == old(out)[..Cut(old(out), old(cuts))] && out == old(out)[Cut(old(out), old(cuts))..]
      ensures cuts == Later(old(cuts)) && old(out) == rd + out
    {
      var n := Cut(out, cuts);
      rd, out, cuts := out[..n], out[n..], Later(cuts);
    }

    /** Serves one read request. */
    method ValGet(p: seq<Byte>) returns (ghost sent: seq<Byte>)
      requires Valid() && |p| == 8
      modifies this`out, this`turn
      ensures Valid() && turn == old(turn) + 1 && out == old(out) + sent
      ensures Adds(sent, Sent(noise(old(turn))),
                   if fate(old(turn)).Answered? then GetAnswer(Layer(p[1]), p) else [])
      ensures sent == noise(old(turn)) + if fate(old(turn)).Answered? then GetBytes(Layer(p[1]), p) else []
    {
      hide Sent, Calm, Quiet, Adds, GetAnswer, GetBytes, Tidy;
      sent := noise(turn);
      out := out + noise(turn);
      AddsNoise(sent);
      assert noise(turn) + [] == noise(turn);
      turn := turn + 1;
      if fate(turn - 1).Answered? {
        sent := Answer(p, sent, Sent(sent));
      }
    }

    /** Sends the page a read request asks for, or refuses. */
    method Answer(p: seq<Byte>, ghost sent0: seq<Byte>, ghost stray: seq<Frame>) returns (ghost sent: seq<Byte>)
      requires Valid() && |p| == 8 && Adds(sent0, stray, [])
      modifies this`out
      ensures Adds(sent, stray, GetAnswer(Layer(p[1]), p))
      ensures sent == sent0 + GetBytes(Layer(p[1]), p) && out == old(out) + GetBytes(Layer(p[1]), p)
    {
      hide Sent, Calm, Quiet, Adds, MessageFrame, FrameOf, Tidy, Page, PageData, KeyAt;
      var src := Layer(p[1]);
      var ks := Page(src, KeyAt(p[4..]), Position(p));
      if ks == [] {
        sent := Reply(sent0, stray, [], CLS_ACK, ID_NAK, [CLS_CFG, ID_VALGET]);
        ghost var nak := FrameOf(CLS_ACK, ID_NAK, [CLS_CFG, ID_VALGET]);
        Pushes(nak, nak);
      } else {
        PageFits(src, p, ks);
        ghost var page, ack := FrameOf(CLS_CFG, ID_VALGET, PageData(src, p, ks)),
            FrameOf(CLS_ACK, ID_ACK, [CLS_CFG, ID_VALGET]);
        ghost var a, b := MessageFrame(CLS_CFG, ID_VALGET, PageData(src, p, ks)),
            MessageFrame(CLS_ACK, ID_ACK, [CLS_CFG, ID_VALGET]);
        Pushes(page, ack);
        sent := Reply(sent0, stray, [], CLS_CFG, ID_VALGET, PageData(src, p, ks));
        sent := Reply(sent, stray, [page], CLS_ACK, ID_ACK, [CLS_CFG, ID_VALGET]);
        Assoc(sent0, a, b);
        Assoc(old(out), a, b);
      }
    }

    method Reply(ghost sent: seq<Byte>, ghost stray: seq<Frame>, ghost answer: seq<Frame>,
                 cls: Byte, id: Byte, payload: seq<Byte>)
      returns (ghost sent': seq<Byte>)
      requires Adds(sent, stray, answer) && |payload| < 65536
      modifies this`out
      ensures Adds(sent', stray, answer + [FrameOf(cls, id, payload)])
      ensures out == old(out) + MessageFrame(cls, id, payload) && sent' == sent + MessageFrame(cls, id, payload)
    {
      hide Adds, MessageFrame, FrameOf;
      AddsFrame(sent, stray, answer, cls, id, payload);
      sent' := sent + MessageFrame(cls, id, payload);
      out := out + MessageFrame(cls, id, payload);
    }

    method Store(layers: Byte, kvs: seq<KV>)
      requires Valid() && Stored(ram, kvs) && Widths(kvs)
      modifies this`ram, this`bbr, this`flash
      ensures Valid()
      ensures Mem() == After(old(Mem()), layers, kvs, ignore) && ram.Keys == old(ram.Keys)
    {
      hide Put, Tidy, Quiet, Widths;
      PutKeys(ram, kvs, ignore);
      PutKeys(bbr, kvs, ignore);
      PutKeys(flash, kvs, ignore);
      if LayerSets(layers, SET_RAM) {
        ram := Put(ram, kvs, ignore);
      }
      if LayerSets(layers, SET_BBR) {
        bbr := Put(bbr, kvs, ignore);
      }
      if LayerSets(layers, SET_FLASH) {
        flash := Put(flash, kvs, ignore);
      }
    }

    /** Serves one write request: all of it or, if a key is not stored, none of it. */
    method ValSet(p: seq<Byte>) returns (ghost sent: seq<Byte>)
      requires Valid() && |p| >= 4
      modifies this`out, this`turn, this`ram, this`bbr, this`flash, this`sets
      ensures Valid() && turn == old(turn) + 1 && out == old(out) + sent && ram.Keys == old(ram.Keys)
      ensures var f := fate(old(turn));
              var o := ParseSet(old(ram), p[4..]);
              && Adds(sent, Sent(noise(old(turn))), if f.Answered? then SetAnswer(o.Some?) else [])
              && sent == noise(old(turn)) + (if f.Answered? then SetBytes(o.Some?) else [])
              && (if f.Deaf? || o.None? then Mem() == old(Mem()) && sets == old(sets)
                  else Mem() == After(old(Mem()), p[1], o.value, ignore) && sets == old(sets) + [o.value])
    {
      hide Sent, Calm, Quiet, Adds, MessageFrame, FrameOf, Tidy, ParseSet, Put, Written, Stored, Widths;
      sent := noise(turn);
      ghost var stray := Sent(sent);
      out := out + noise(turn);
      AddsNoise(sent);
      assert noise(turn) + [] == noise(turn);
      turn := turn + 1;
      if fate(turn - 1).Deaf? {
        return;
      }
      var o := ParseSet(ram, p[4..]);
      if o.Some? {
        ParsedStored(ram, p[4..]);
        Store(p[1], o.value);
        sets := sets + [o.value];
      }
      if fate(turn - 1).Answered? {
        var id: Byte := if o.Some? then ID_ACK else ID_NAK;
        ghost var ack := FrameOf(CLS_ACK, id, [CLS_CFG, ID_VALSET]);
        Pushes(ack, ack);
        sent := Reply(sent, stray, [], CLS_ACK, id, [CLS_CFG, ID_VALSET]);
      }
    }
  }
}
