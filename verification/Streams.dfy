/** Cutting a byte stream into frames with a recogniser, in general: what one pass over a
    whole stream yields, and why it does not matter where the stream was cut into reads. */
module Streams {
  import opened BitSeq

  datatype Proto = Unknown | UBX | RTCM3 | NMEA

  datatype Frame = Frame(proto: Proto, typ: nat, raw: seq<Byte>)

  /** What a recogniser says about a window: wait for more bytes, not a frame, or a frame. */
  datatype Verdict = Need | Reject | Accept(frame: Frame)

  /** A frame is a nonempty prefix of the window it was recognised in. */
  ghost predicate Sound(rec: seq<Byte> -> Verdict) {
    && rec([]) == Need
    && forall w :: rec(w).Accept? ==> rec(w).frame.raw != [] && rec(w).frame.raw <= w
  }

  type Recogniser = rec: seq<Byte> -> Verdict | Sound(rec) witness (w: seq<Byte>) => Need

  /** A verdict, once given, does not depend on bytes not yet seen. */
  ghost predicate Stable(rec: Recogniser) {
    forall w, x :: !rec(w).Need? ==> rec(w + x) == rec(w)
  }

  datatype Piece = Dropped(b: Byte) | Framed(f: Frame)

  function Bytes(p: Piece): seq<Byte> {
    match p
    case Dropped(b) => [b]
    case Framed(f) => f.raw
  }

  /** The first piece of a stream on which the recogniser has a verdict. A rejected window
      loses exactly one byte. */
  function First(rec: Recogniser, s: seq<Byte>): (p: Piece)
    requires !rec(s).Need?
    ensures Bytes(p) != [] && Bytes(p) <= s
  {
    match rec(s)
    case Reject => Dropped(s[0])
    case Accept(f) => Framed(f)
  }

  function Parse(rec: Recogniser, s: seq<Byte>): seq<Piece>
    decreases |s|
  {
    if rec(s).Need? then [] else
      var p := First(rec, s);
      [p] + Parse(rec, s[|Bytes(p)|..])
  }

  /** The bytes left waiting at the end. */
  function Residue(rec: Recogniser, s: seq<Byte>): seq<Byte>
    decreases |s|
  {
    if rec(s).Need? then s else Residue(rec, s[|Bytes(First(rec, s))|..])
  }

  function Flatten(p: seq<Piece>): seq<Byte> {
    if p == [] then [] else Bytes(p[0]) + Flatten(p[1..])
  }

  function Frames(p: seq<Piece>): seq<Frame> {
    if p == [] then []
    else (match p[0] case Framed(f) => [f] case Dropped(_) => []) + Frames(p[1..])
  }

  lemma {:induction false} FlattenConcat(p: seq<Piece>, q: seq<Piece>)
    ensures Flatten(p + q) == Flatten(p) + Flatten(q)
    decreases |p|
  {
    if p == [] {
      assert p + q == q;
    } else {
      assert (p + q)[1..] == p[1..] + q;
      FlattenConcat(p[1..], q);
    }
  }

  lemma {:induction false} FramesConcat(p: seq<Piece>, q: seq<Piece>)
    ensures Frames(p + q) == Frames(p) + Frames(q)
    decreases |p|
  {
    if p == [] {
      assert p + q == q;
    } else {
      assert (p + q)[1..] == p[1..] + q;
      FramesConcat(p[1..], q);
    }
  }

  lemma FlattenCons(p: Piece, q: seq<Piece>)
    ensures Flatten([p] + q) == Bytes(p) + Flatten(q)
  {
    assert ([p] + q)[1..] == q;
  }

  /** Nothing is lost or reordered: frames, dropped bytes and residue spell the stream. */
  lemma {:induction false} ParseSpellsStream(rec: Recogniser, s: seq<Byte>)
    ensures Flatten(Parse(rec, s)) + Residue(rec, s) == s
    decreases |s|
  {
    if !rec(s).Need? {
      var p := First(rec, s);
      var t := s[|Bytes(p)|..];
      ParseSpellsStream(rec, t);
      FlattenCons(p, Parse(rec, t));
      assert s == Bytes(p) + t;
      Assoc(Bytes(p), Flatten(Parse(rec, t)), Residue(rec, t));
    }
  }

  /** Parsing a stream in two halves, carrying the residue over, is parsing it in one go. */
  lemma {:induction false} ParseSplit(rec: Recogniser, a: seq<Byte>, b: seq<Byte>)
    requires Stable(rec)
    ensures Parse(rec, a + b) == Parse(rec, a) + Parse(rec, Residue(rec, a) + b)
    ensures Residue(rec, a + b) == Residue(rec, Residue(rec, a) + b)
    decreases |a|
  {
    if !rec(a).Need? {
      assert rec(a + b) == rec(a);
      var p := First(rec, a);
      var n := |Bytes(p)|;
      assert (a + b)[n..] == a[n..] + b;
      ParseSplit(rec, a[n..], b);
      Assoc([p], Parse(rec, a[n..]), Parse(rec, Residue(rec, a) + b));
    }
  }

  /** Deciding the first piece of a window is deciding the first piece of the stream. */
  lemma Advance(rec: Recogniser, w: seq<Byte>, x: seq<Byte>, h: seq<Piece>)
    requires Stable(rec) && !rec(w).Need?
    ensures var p := First(rec, w);
            h + Parse(rec, w + x) == h + [p] + Parse(rec, w[|Bytes(p)|..] + x)
    ensures var p := First(rec, w);
            Flatten(h) + (w + x) == Flatten(h + [p]) + (w[|Bytes(p)|..] + x)
    ensures Frames(h + [First(rec, w)])
         == Frames(h) + (if rec(w).Accept? then [rec(w).frame] else [])
  {
    hide Parse, Flatten, Frames;
    var p := First(rec, w);
    var t := w[|Bytes(p)|..];
    assert rec(w + x) == rec(w);
    assert (w + x)[|Bytes(p)|..] == t + x;
    FirstOf(rec, w + x);
    Assoc(h, [p], Parse(rec, t + x));
    FlattenSnoc(h, p);
    assert w == Bytes(p) + t;
    Assoc(Bytes(p), t, x);
    Assoc(Flatten(h), Bytes(p), t + x);
  }

  lemma FirstOf(rec: Recogniser, s: seq<Byte>)
    requires !rec(s).Need?
    ensures Parse(rec, s) == [First(rec, s)] + Parse(rec, s[|Bytes(First(rec, s))|..])
    ensures s[|Bytes(First(rec, s))|..] == [] ==> Parse(rec, s) == [First(rec, s)]
  {
  }

  lemma FlattenSnoc(h: seq<Piece>, p: Piece)
    ensures Flatten(h + [p]) == Flatten(h) + Bytes(p)
    ensures Frames(h + [p]) == Frames(h) + (match p case Framed(f) => [f] case Dropped(_) => [])
  {
    FlattenConcat(h, [p]);
    FlattenCons(p, []);
    assert [p] + [] == [p];
    FramesConcat(h, [p]);
    assert Frames([p]) == (match p case Framed(f) => [f] case Dropped(_) => []) + Frames([]);
  }

  lemma Assoc<T>(a: seq<T>, b: seq<T>, c: seq<T>)
    ensures a + (b + c) == a + b + c
  {
  }

  /** No frame is missed: wherever the recogniser accepts inside the parsed part of the stream,
      that offset lies in an emitted frame, and if at its start, that frame is the accepted one. */
  lemma {:induction false} NoFrameMissed(rec: Recogniser, s: seq<Byte>, k: nat) returns (j: nat)
    requires k < |s| - |Residue(rec, s)|
    requires rec(s[k..]).Accept?
    ensures j < |Parse(rec, s)| && Parse(rec, s)[j].Framed?
    ensures var at, f := |Flatten(Parse(rec, s)[..j])|, Parse(rec, s)[j].f;
            at <= k < at + |f.raw| && (k == at ==> rec(s[k..]) == Accept(f))
    decreases |s|
  {
    var p := First(rec, s);
    var n := |Bytes(p)|;
    var t := s[n..];
    if k < n {
      j := 0;
      assert s[0..] == s;
      assert Parse(rec, s)[..0] == [];
    } else {
      assert s[k..] == t[k - n..];
      var i := NoFrameMissed(rec, t, k - n);
      j := i + 1;
      assert Parse(rec, s)[..j] == [p] + Parse(rec, t)[..i];
      FlattenCons(p, Parse(rec, t)[..i]);
    }
  }
}
