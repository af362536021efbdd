/** The UBX wire format of the configuration conversation: building frames, draining replies
    from a buffer, and key/value data. */
module Ubx {
  import opened BitSeq
  import opened Streams
  import opened Framing

  const CLS_ACK: Byte := 0x05
  const CLS_CFG: Byte := 0x06
  const ID_NAK: Byte := 0x00
  const ID_ACK: Byte := 0x01
  const ID_VALSET: Byte := 0x8A
  const ID_VALGET: Byte := 0x8B

  // ---- frames

  /** What the checksum covers; the length field keeps only 16 bits. */
  function Body(cls: Byte, id: Byte, payload: seq<Byte>): (b: seq<Byte>) {
    [cls, id, |payload| % 256, |payload| / 256 % 256] + payload
  }

  function MessageFrame(cls: Byte, id: Byte, payload: seq<Byte>): seq<Byte> {
    var b := Body(cls, id, payload);
    [0xB5, 0x62] + b + [Fletcher(b).0, Fletcher(b).1]
  }

  method BuildFrame(cls: Byte, id: Byte, payload: seq<Byte>) returns (out: seq<Byte>)
    ensures out == MessageFrame(cls, id, payload)
    ensures var n, body := |payload|, out[2..|out| - 2];
            && |out| == n + 8 && body == [cls, id, n % 256, n / 256 % 256] + payload
            && out[0] == 0xB5 && out[1] == 0x62
            && out[n + 6] == ByteSum(body, n + 4) % 256 && out[n + 7] == WeightedSum(body, n + 4) % 256
  {
    hide Fletcher;
    out := [0xB5, 0x62, cls, id, |payload| % 256, |payload| / 256 % 256] + payload;
    assert out[2..] == Body(cls, id, payload);
    assert out == [0xB5, 0x62] + out[2..];
    var a, b := ChecksumLoop(out[2..]);
    out := out + [a, b];
    assert out[2..|out| - 2] == Body(cls, id, payload);
  }

  /** An acknowledgement, byte for byte. */
  lemma AckInBytes(id: Byte, of: Byte)
    ensures MessageFrame(0x05, id, [0x06, of])
         == [0xB5, 0x62, 0x05, id, 2, 0, 0x06, of, (13 + id as nat + of as nat) % 256,
             (50 + 5 * id as nat + of as nat) % 256]
  {
    hide Fletcher;
    var d: seq<Byte> := [5, id, 2, 0, 6, of];
    assert Body(0x05, id, [0x06, of]) == d;
    SixBytes(d, 5, id as nat, 2, 0, 6, of as nat);
  }

  lemma SixBytes(d: seq<Byte>, a: nat, b: nat, c: nat, e: nat, f: nat, g: nat)
    requires |d| == 6 && d[0] == a && d[1] == b && d[2] == c && d[3] == e && d[4] == f && d[5] == g
    ensures Fletcher(d) == ((a + b + c + e + f + g) % 256, (6 * a + 5 * b + 4 * c + 3 * e + 2 * f + g) % 256)
  {
    hide Fletcher;
    FletcherSums(d);
    assert ByteSum(d, 0) == 0 == WeightedSum(d, 0);
    assert ByteSum(d, 1) == a && WeightedSum(d, 1) == 6 * a;
    assert ByteSum(d, 2) == a + b && WeightedSum(d, 2) == 6 * a + 5 * b;
    assert ByteSum(d, 3) == a + b + c && WeightedSum(d, 3) == 6 * a + 5 * b + 4 * c;
    assert ByteSum(d, 4) == a + b + c + e && WeightedSum(d, 4) == 6 * a + 5 * b + 4 * c + 3 * e;
    assert ByteSum(d, 5) == a + b + c + e + f && WeightedSum(d, 5) == 6 * a + 5 * b + 4 * c + 3 * e + 2 * f;
  }

  /** One turn of the drain loop: eight bytes are needed even to reject. */
  function DrainTry(w: seq<Byte>): (v: Verdict)
    ensures v.Accept? ==> v.frame.raw != [] && v.frame.raw <= w
    ensures v.Accept? ==> |v.frame.raw| >= 8 && v.frame.raw[..2] == [0xB5, 0x62]
  {
    if |w| < 8 then Need
    else if w[0] != 0xB5 || w[1] != 0x62 then Reject
    else TryUbx(w)
  }

  const DRAIN: Recogniser := DrainTry

  lemma DrainStable()
    ensures Stable(DRAIN)
  {
    hide TryUbx;
    forall w, x | !DrainTry(w).Need? ensures DrainTry(w + x) == DrainTry(w) {
      if w[0] == 0xB5 && w[1] == 0x62 {
        UbxStable(w, x);
      }
    }
  }

  /** A frame that was built is drained as exactly that frame. */
  lemma BuiltIsDrained(cls: Byte, id: Byte, payload: seq<Byte>)
    requires |payload| < 65536
    ensures var raw := MessageFrame(cls, id, payload);
            var f := Frame(UBX, cls as nat * 256 + id, raw);
            && |raw| == |payload| + 8 && raw[2] == cls && raw[3] == id && raw[6..|raw| - 2] == payload
            && DrainTry(raw) == Accept(f)
            && Parse(DRAIN, raw) == [Framed(f)] && Residue(DRAIN, raw) == []
  {
    hide Fletcher;
    var raw, b := MessageFrame(cls, id, payload), Body(cls, id, payload);
    var n := |raw|;
    assert raw[2..n - 2] == b && raw[..n] == raw;
    assert UbxTotal(raw) == n;
    assert First(DRAIN, raw) == Framed(Frame(UBX, cls as nat * 256 + id, raw));
    assert raw[n..] == [];
    assert Parse(DRAIN, []) == [] && Residue(DRAIN, []) == [];
  }

  /** Cutting the bytes into reads does not change the messages: draining a part, then its
      residue with the rest, is draining the whole. */
  lemma DrainCut(a: seq<Byte>, b: seq<Byte>)
    ensures Frames(Parse(DRAIN, a + b)) == Frames(Parse(DRAIN, a)) + Frames(Parse(DRAIN, Residue(DRAIN, a) + b))
    ensures Residue(DRAIN, a + b) == Residue(DRAIN, Residue(DRAIN, a) + b)
  {
    hide Stable;
    DrainStable();
    ParseSplit(DRAIN, a, b);
    FramesConcat(Parse(DRAIN, a), Parse(DRAIN, Residue(DRAIN, a) + b));
  }

  // ---- messages

  datatype Msg = Msg(cls: Byte, id: Byte, payload: seq<Byte>)

  function MsgOf(f: Frame): Msg
    requires |f.raw| >= 8
  {
    Msg(f.raw[2], f.raw[3], f.raw[6..|f.raw| - 2])
  }

  predicate Wanted(m: Msg, cls: Byte, id: Byte) {
    (m.cls == cls && m.id == id) || m.cls == CLS_ACK
  }

  ghost predicate Whole(fs: seq<Frame>) {
    forall f :: f in fs ==> |f.raw| >= 8
  }

  /** The wanted messages, and any acknowledgement, in order. */
  function Kept(fs: seq<Frame>, cls: Byte, id: Byte): seq<Msg>
    requires Whole(fs)
  {
    if fs == [] then []
    else
      var m := MsgOf(fs[|fs| - 1]);
      Kept(fs[..|fs| - 1], cls, id) + if Wanted(m, cls, id) then [m] else []
  }

  ghost predicate HasReply(ms: seq<Msg>, cls: Byte, id: Byte) {
    exists m :: m in ms && m.cls == cls && m.id == id
  }

  lemma {:induction false} DrainedWhole(s: seq<Byte>)
    ensures Whole(Frames(Parse(DRAIN, s)))
    decreases |s|
  {
    hide DrainTry;
    if !DRAIN(s).Need? {
      var p := First(DRAIN, s);
      DrainedWhole(s[|Bytes(p)|..]);
      assert Parse(DRAIN, s)[1..] == Parse(DRAIN, s[|Bytes(p)|..]);
    }
  }

  /** Takes every complete frame out of the session's buffer. */
  method Drain(buf: seq<Byte>, cls: Byte, id: Byte) returns (rest: seq<Byte>, got: seq<Msg>, found: bool)
    ensures rest == Residue(DRAIN, buf)
    ensures Whole(Frames(Parse(DRAIN, buf))) && got == Kept(Frames(Parse(DRAIN, buf)), cls, id)
    ensures found == HasReply(got, cls, id)
  {
    hide Parse, Residue, TryUbx, DrainTry, Frames, Kept, Whole, Fletcher, HasReply, MsgOf;
    var i := 0;
    got, found := [], false;
    ghost var fs: seq<Frame> := [];
    assert buf[0..] == buf;
    DrainStart(buf, cls, id);
    while i + 8 <= |buf|
      invariant 0 <= i <= |buf|
      invariant Frames(Parse(DRAIN, buf)) == fs + Frames(Parse(DRAIN, buf[i..]))
      invariant Residue(DRAIN, buf) == Residue(DRAIN, buf[i..])
      invariant Whole(fs) && got == Kept(fs, cls, id) && found == HasReply(got, cls, id)
    {
      var w := buf[i..];
      DrainCases(w);
      if w[0] != 0xB5 || w[1] != 0x62 {
        ParseStep(DRAIN, w, fs);
        assert w[1..] == buf[i + 1..];
        i := i + 1;
        continue;
      }
      var total := UbxTotal(w);
      if total > |w| {
        break;
      }
      var a, c := ChecksumLoop(w[2..total - 2]);
      ParseStep(DRAIN, w, fs);
      if a == w[total - 2] && c == w[total - 1] {
        var m := Msg(w[2], w[3], w[6..total - 2]);
        ghost var f := DrainTry(w).frame;
        MsgIn(w, f);
        KeptSnoc(fs, f, cls, id);
        if Wanted(m, cls, id) {
          HasReplySnoc(got, m, cls, id);
          got := got + [m];
          if m.cls == cls && m.id == id {
            found := true;
          }
        }
        fs := fs + [f];
        assert w[total..] == buf[i + total..];
        i := i + total;
        continue;
      }
      assert w[1..] == buf[i + 1..];
      i := i + 1;
    }
    rest := buf[i..];
    DrainCases(rest);
    DrainEnd(rest, fs);
  }

  lemma DrainStart(buf: seq<Byte>, cls: Byte, id: Byte)
    ensures [] + Frames(Parse(DRAIN, buf)) == Frames(Parse(DRAIN, buf))
    ensures Whole([]) && Kept([], cls, id) == [] && !HasReply([], cls, id)
  {
  }

  /** The four outcomes of one turn of the loop. */
  lemma DrainCases(w: seq<Byte>)
    ensures |w| < 8 ==> DRAIN(w) == DrainTry(w) == Need
    ensures |w| >= 8 && (w[0] != 0xB5 || w[1] != 0x62) ==> DRAIN(w) == DrainTry(w) == Reject
    ensures |w| >= 8 && w[0] == 0xB5 && w[1] == 0x62 ==>
              DRAIN(w) == DrainTry(w) && DrainTry(w) ==
              var total := UbxTotal(w);
              if total > |w| then Need
              else if Fletcher(w[2..total - 2]) == (w[total - 2], w[total - 1])
              then Accept(Frame(UBX, w[2] as nat * 256 + w[3] as nat, w[..total]))
              else Reject
  {
    hide Fletcher;
  }

  lemma ParseStep(rec: Recogniser, w: seq<Byte>, fs: seq<Frame>)
    requires !rec(w).Need?
    ensures var v := rec(w);
            var n := if v.Accept? then |v.frame.raw| else 1;
            && n <= |w|
            && fs + Frames(Parse(rec, w)) == (if v.Accept? then fs + [v.frame] else fs) + Frames(Parse(rec, w[n..]))
            && Residue(rec, w) == Residue(rec, w[n..])
  {
    hide Frames;
    var p := First(rec, w);
    var q := Parse(rec, w[|Bytes(p)|..]);
    FramesCons(p, q);
    if rec(w).Accept? {
      Assoc(fs, [rec(w).frame], Frames(q));
    }
  }

  lemma FramesCons(p: Piece, q: seq<Piece>)
    ensures Frames([p] + q) == if p.Framed? then [p.f] + Frames(q) else Frames(q)
  {
    assert ([p] + q)[1..] == q;
  }

  lemma MsgIn(w: seq<Byte>, f: Frame)
    requires |w| >= 8 && 8 <= UbxTotal(w) <= |w| && f.raw == w[..UbxTotal(w)]
    ensures MsgOf(f) == Msg(w[2], w[3], w[6..UbxTotal(w) - 2])
  {
  }

  lemma DrainEnd(w: seq<Byte>, fs: seq<Frame>)
    requires DrainTry(w).Need?
    ensures fs + Frames(Parse(DRAIN, w)) == fs && Residue(DRAIN, w) == w
  {
    hide TryUbx;
  }

  lemma HasReplySnoc(ms: seq<Msg>, m: Msg, cls: Byte, id: Byte)
    ensures HasReply(ms + [m], cls, id) == (HasReply(ms, cls, id) || (m.cls == cls && m.id == id))
  {
    assert m in ms + [m];
  }

  lemma KeptSnoc(fs: seq<Frame>, f: Frame, cls: Byte, id: Byte)
    requires Whole(fs) && |f.raw| >= 8
    ensures Whole(fs + [f])
    ensures Kept(fs + [f], cls, id)
         == if Wanted(MsgOf(f), cls, id) then Kept(fs, cls, id) + [MsgOf(f)] else Kept(fs, cls, id)
  {
    assert (fs + [f])[..|fs|] == fs;
  }

  lemma WholeParts(b: seq<Frame>)
    requires Whole(b) && b != []
    ensures Whole(b[..|b| - 1]) && |b[|b| - 1].raw| >= 8
  {
  }

  lemma {:induction false} KeptConcat(a: seq<Frame>, b: seq<Frame>, cls: Byte, id: Byte)
    requires Whole(a) && Whole(b)
    ensures Whole(a + b) && Kept(a + b, cls, id) == Kept(a, cls, id) + Kept(b, cls, id)
    decreases |b|
  {
    hide Kept, MsgOf, Wanted, Whole;
    if b == [] {
      assert a + b == a;
      DrainStart([], cls, id);
    } else {
      var c, f := b[..|b| - 1], b[|b| - 1];
      WholeParts(b);
      KeptConcat(a, c, cls, id);
      KeptPush(a, c, f, cls, id);
      assert b == c + [f];
    }
  }

  lemma KeptPush(a: seq<Frame>, c: seq<Frame>, f: Frame, cls: Byte, id: Byte)
    requires Whole(a) && Whole(c) && Whole(a + c) && |f.raw| >= 8
    requires Kept(a + c, cls, id) == Kept(a, cls, id) + Kept(c, cls, id)
    ensures Whole(c + [f]) && Whole(a + (c + [f]))
    ensures Kept(a + (c + [f]), cls, id) == Kept(a, cls, id) + Kept(c + [f], cls, id)
  {
    hide Kept, MsgOf, Wanted, Whole;
    KeptSnoc(c, f, cls, id);
    KeptSnoc(a + c, f, cls, id);
    Assoc(a, c, [f]);
    Assoc(Kept(a, cls, id), Kept(c, cls, id), [MsgOf(f)]);
  }

  /** What the session collects over two reads is what one read of all the bytes would give. */
  lemma MessagesCut(a: seq<Byte>, b: seq<Byte>, cls: Byte, id: Byte)
    ensures var r := Residue(DRAIN, a) + b;
            && Whole(Frames(Parse(DRAIN, a))) && Whole(Frames(Parse(DRAIN, r))) && Whole(Frames(Parse(DRAIN, a + b)))
            && Kept(Frames(Parse(DRAIN, a + b)), cls, id)
               == Kept(Frames(Parse(DRAIN, a)), cls, id) + Kept(Frames(Parse(DRAIN, r)), cls, id)
  {
    hide Parse, Residue, Frames, Kept, Whole;
    var r := Residue(DRAIN, a) + b;
    DrainCut(a, b);
    DrainedWhole(a);
    DrainedWhole(r);
    KeptConcat(Frames(Parse(DRAIN, a)), Frames(Parse(DRAIN, r)), cls, id);
  }
}
