/** What satellites can send: every GPS subframe, I/NAV page and D1 subframe is reported by some
    receiver frame that the collector takes for exactly what it is, and nothing else is taken for
    one. Among the runs there is one that is served with a mixed time of ephemeris. */
module Broadcasts {
  import opened BitSeq
  import opened BitPacking
  import opened Navigation
  import opened Streams
  import opened Framing
  import opened Rtcm
  import opened EphemerisStore
  import Gps
  import Galileo
  import Beidou
  import Ubx

  // ---- a frame of navigation words

  /** Little-endian bytes. */
  function Four(w: nat): (d: seq<Byte>)
    ensures |d| == 4
  {
    [w % 256, w / 256 % 256, w / 256 / 256 % 256, w / 256 / 256 / 256 % 256]
  }

  function Spread(ws: seq<nat>): (d: seq<Byte>)
    ensures |d| == 4 * |ws|
  {
    if ws == [] then [] else Spread(ws[..|ws| - 1]) + Four(ws[|ws| - 1])
  }

  lemma {:induction false} SpreadAt(ws: seq<nat>, i: nat)
    requires i < |ws|
    ensures Spread(ws)[4 * i..4 * i + 4] == Four(ws[i])
    decreases |ws|
  {
    hide Four;
    if i < |ws| - 1 {
      SpreadAt(ws[..|ws| - 1], i);
    }
  }

  lemma FourBack(p: seq<Byte>, at: nat, w: nat)
    requires at + 4 <= |p| && p[at..at + 4] == Four(w) && w < 0x1_0000_0000
    ensures Dword(p, at) == w
  {
    var d, a, b := p[at..at + 4], w / 256, w / 256 / 256;
    assert d[0] == p[at] && d[1] == p[at + 1] && d[2] == p[at + 2] && d[3] == p[at + 3];
    Digits(w, a, b, b / 256);
  }

  lemma Digits(w: nat, a: nat, b: nat, c: nat)
    requires w < 0x1_0000_0000 && a == w / 256 && b == a / 256 && c == b / 256
    ensures w % 256 + a % 256 * 0x100 + b % 256 * 0x1_0000 + c % 256 * 0x100_0000 == w
  {
    assert w == 256 * a + w % 256 && a == 256 * b + a % 256 && b == 256 * c + b % 256;
    assert c < 256;
  }

  /** The part of a report that says where the words are from. */
  datatype Source = Source(gnss: Byte, sv: Byte, sig: Byte, freq: Byte, channel: Byte, version: Byte)

  type Report = ws: seq<nat> | |ws| <= 255 && forall i :: 0 <= i < |ws| ==> ws[i] < 0x1_0000_0000

  /** The UBX-RXM-SFRBX frame that reports some words. */
  function Carrier(from: Source, ws: Report): seq<Byte> {
    Ubx.MessageFrame(0x02, 0x13, [from.gnss, from.sv, from.sig, from.freq, |ws|, from.channel, from.version, 0]
                                 + Spread(ws))
  }

  lemma Behind(p: seq<Byte>, payload: seq<Byte>, head: seq<Byte>, body: seq<Byte>, a: nat)
    requires |head| == 8 && payload == head + body && |payload| <= |p| && p[..|payload|] == payload
    requires a + 4 <= |body|
    ensures p[8 + a..8 + a + 4] == body[a..a + 4]
  {
    assert p[8 + a..8 + a + 4] == payload[8 + a..8 + a + 4];
  }

  /** The hub accepts the frame, and the collector finds the words in it. */
  lemma Reported(from: Source, ws: Report)
    ensures var raw := Carrier(from, ws);
            var p := raw[6..];
            && Try(raw) == Accept(Frame(UBX, 0x0213, raw))
            && |raw| == 16 + 4 * |ws| && p[0] == from.gnss && p[1] == from.sv && p[2] == from.sig && p[4] == |ws|
            && p[6] == from.version && Dwords(p, |ws|) == ws
  {
    hide Ubx.MessageFrame, TryUbx, Parse, Residue, Dword, Spread, Four;
    var raw := Carrier(from, ws);
    var payload := [from.gnss, from.sv, from.sig, from.freq, |ws|, from.channel, from.version, 0] + Spread(ws);
    Ubx.BuiltIsDrained(0x02, 0x13, payload);
    var p := raw[6..];
    assert p[..|payload|] == payload;
    forall i | 0 <= i < |ws| ensures Dword(p, 8 + 4 * i) == ws[i] {
      SpreadAt(ws, i);
      Behind(p, payload, [from.gnss, from.sv, from.sig, from.freq, |ws|, from.channel, from.version, 0], Spread(ws),
             4 * i);
      FourBack(p, 8 + 4 * i, ws[i]);
    }
    assert Dwords(p, |ws|) == ws;
  }

  /** Words of any other system, signal or number, and words of old receivers, contribute nothing. */
  lemma OthersIgnored(from: Source, ws: Report)
    requires from.version < 2
             || !(|| (from.gnss == 0 && from.sig == 0 && |ws| >= 10)
                  || (from.gnss == 2 && from.sig == 1 && |ws| == 8)
                  || (from.gnss == 3 && |ws| == 10 && 6 <= from.sv && !(59 <= from.sv <= 63)))
    ensures Route(Carrier(from, ws)) == Ignored
  {
    hide Carrier, Dwords, Try;
    Reported(from, ws);
  }

  /** The low bits of a word are `bits`, whatever the bits above them. */
  function WordWith(bits: seq<bool>, above: nat): nat {
    Value(bits) + above * Pow2(|bits|)
  }

  lemma LowBits(bits: seq<bool>, above: nat)
    ensures Bits(WordWith(bits, above), |bits|) == bits
  {
    hide Bits, Value, Pow2;
    ValueBound(bits);
    BitsOfValue(bits);
    ModAddMul(Value(bits), above, Pow2(|bits|));
    BitsMod(WordWith(bits, above), Value(bits), |bits|);
  }

  lemma WordBound(bits: seq<bool>, above: nat, n: nat)
    requires above < Pow2(n)
    ensures WordWith(bits, above) < Pow2(|bits| + n)
  {
    hide Value, Pow2;
    ValueBound(bits);
    Pow2Add(|bits|, n);
    assert Value(bits) + above * Pow2(|bits|) <= Pow2(|bits|) - 1 + (Pow2(n) - 1) * Pow2(|bits|);
  }

  // ---- GPS

  /** What does not belong to the subframe in its ten words: six bits of parity at the bottom and
      two bits at the top. */
  datatype Rest = Rest(parity: seq<bool>, top: nat)

  type Rests = r: seq<Rest> | |r| == 10 && forall i :: 0 <= i < 10 ==> |r[i].parity| == 6 && r[i].top < 4
    witness seq(10, _ => Rest([false, false, false, false, false, false], 0))

  function GpsWords(b: Gps.Subframe, rest: Rests): (ws: seq<nat>)
    ensures |ws| == 10
  {
    seq(10, i requires 0 <= i < 10 => WordWith(b[24 * i..24 * i + 24] + rest[i].parity, rest[i].top))
  }

  lemma GpsWordSmall(b: Gps.Subframe, rest: Rests, i: nat)
    requires i < 10
    ensures GpsWords(b, rest)[i] < 0x1_0000_0000
  {
    hide Value, Pow2, WordWith;
    assert Pow2(2) == 4 && Pow2(32) == 0x1_0000_0000 by { Pow2Values(); Pow2Add(30, 2); FourIsPow2(); }
    WordBound(b[24 * i..24 * i + 24] + rest[i].parity, rest[i].top, 2);
  }

  lemma FourIsPow2()
    ensures Pow2(2) == 4
  {
  }

  /** Dropping the parity leaves the data bits of the word. */
  lemma DataOf(d: seq<bool>, parity: seq<bool>, top: nat)
    requires |d| == 24 && |parity| == 6
    ensures Bits(WordWith(d + parity, top) / 64, 24) == d
  {
    hide Bits, Value, Pow2;
    Pow2Values();
    ValueConcat(d, parity);
    ValueBound(parity);
    var above := WordWith(d, top);
    Pow2Add(24, 6);
    Rescale(Value(d), Value(parity), top, Pow2(24));
    LowBits(d, top);
  }

  lemma Rescale(v: nat, p: nat, top: nat, m: nat)
    requires p < 64
    ensures (v * 64 + p + top * (m * 64)) / 64 == v + top * m
  {
    assert v * 64 + p + top * (m * 64) == (v + top * m) * 64 + p by {
      assert top * (m * 64) == (top * m) * 64;
    }
  }

  lemma {:induction false} GpsWordsHold(b: Gps.Subframe, rest: Rests, n: nat)
    requires n <= 10
    ensures Gps.WordBits(DropParity(GpsWords(b, rest))[..n]) == b[..24 * n]
  {
    hide Bits, WordWith;
    var ws := DropParity(GpsWords(b, rest))[..n];
    if n > 0 {
      GpsWordsHold(b, rest, n - 1);
      assert ws[..n - 1] == DropParity(GpsWords(b, rest))[..n - 1];
      DataOf(b[24 * (n - 1)..24 * (n - 1) + 24], rest[n - 1].parity, rest[n - 1].top);
      assert b[..24 * n] == b[..24 * (n - 1)] + b[24 * (n - 1)..24 * (n - 1) + 24];
    }
  }

  lemma FirstTen(ws: seq<nat>)
    requires |ws| >= 10
    ensures DropParity(ws)[..10] == DropParity(ws[..10])[..10]
  {
  }

  lemma GpsReport(b: Gps.Subframe, rest: Rests) returns (ws: Report)
    ensures ws == GpsWords(b, rest)
  {
    hide GpsWords;
    forall i | 0 <= i < 10 ensures GpsWords(b, rest)[i] < 0x1_0000_0000 {
      GpsWordSmall(b, rest, i);
    }
    ws := GpsWords(b, rest);
  }

  /** Every GPS subframe, whatever the parity and the top bits of its words and whatever words
      follow, is folded as exactly that subframe. */
  lemma GpsCarried(from: Source, b: Gps.Subframe, rest: Rests, ws: Report)
    requires from.gnss == 0 && from.sig == 0 && from.version >= 2 && |ws| >= 10 && ws[..10] == GpsWords(b, rest)
    ensures Try(Carrier(from, ws)) == Accept(Frame(UBX, 0x0213, Carrier(from, ws)))
    ensures Route(Carrier(from, ws)) == GpsSubframe(from.sv, b)
  {
    hide Carrier, Dwords, Try, GpsWords, DropParity, Gps.WordBits;
    Reported(from, ws);
    GpsWordsHold(b, rest, 10);
    FirstTen(ws);
    assert b[..240] == b && GpsWords(b, rest)[..10] == GpsWords(b, rest);
    assert DropParity(GpsWords(b, rest))[..10] == DropParity(ws)[..10];
  }

  // ---- Galileo

  function PageWords(page: seq<bool>): (ws: seq<nat>)
    requires |page| == 256
    ensures |ws| == 8
  {
    seq(8, i requires 0 <= i < 8 => Value(page[32 * i..32 * i + 32]))
  }

  lemma {:induction false} PageWordsHold(page: seq<bool>, n: nat)
    requires |page| == 256 && n <= 8
    ensures Galileo.PageBits(PageWords(page)[..n]) == page[..32 * n]
  {
    hide Bits, Value;
    var ws := PageWords(page)[..n];
    if n > 0 {
      PageWordsHold(page, n - 1);
      assert ws[..n - 1] == PageWords(page)[..n - 1];
      BitsOfValue(page[32 * (n - 1)..32 * (n - 1) + 32]);
      assert page[..32 * n] == page[..32 * (n - 1)] + page[32 * (n - 1)..32 * (n - 1) + 32];
    }
  }

  lemma PageReport(page: seq<bool>) returns (ws: Report)
    requires |page| == 256
    ensures ws == PageWords(page)
  {
    hide Value, Pow2;
    forall i | 0 <= i < 8 ensures PageWords(page)[i] < 0x1_0000_0000 {
      ValueBound(page[32 * i..32 * i + 32]);
      Pow2Values();
      Pow2Add(16, 16);
    }
    ws := PageWords(page);
  }

  /** Every page whose halves are an even and an odd one, neither an alert, is folded as the word
      made of the first 112 bits of the one and the first 16 of the other; any other is refused. */
  lemma GalileoCarried(from: Source, page: seq<bool>, ws: Report)
    requires from.gnss == 2 && from.sig == 1 && from.version >= 2 && |page| == 256 && ws == PageWords(page)
    ensures Try(Carrier(from, ws)) == Accept(Frame(UBX, 0x0213, Carrier(from, ws)))
    ensures Route(Carrier(from, ws))
         == if page[0] || page[1] || !page[128] || page[129] then Refused
            else GalileoWord(from.sv, page[2..114] + page[130..146])
  {
    hide Carrier, Dwords, Try, PageWords, Galileo.PageBits;
    Reported(from, ws);
    PageWordsHold(page, 8);
    assert page[..256] == page && ws[..8] == ws;
  }

  // ---- BeiDou

  /** The 30 bits of a word: 26 of information in the first and 22 in the others, then parity. */
  function WordOf(b: Beidou.Subframe, i: nat, parity: seq<bool>): (w: seq<bool>)
    requires i < 10 && |parity| == 8
    ensures |w| == 30
  {
    if i == 0 then b[..26] + parity[..4] else b[4 + 22 * i..26 + 22 * i] + parity
  }

  type BeidouRests = r: seq<Rest> | |r| == 10 && forall i :: 0 <= i < 10 ==> |r[i].parity| == 8 && r[i].top < 4
    witness seq(10, _ => Rest(Zeros(8), 0))

  function BeidouWords(b: Beidou.Subframe, rest: BeidouRests): (ws: seq<nat>)
    ensures |ws| == 10
  {
    seq(10, i requires 0 <= i < 10 => WordWith(WordOf(b, i, rest[i].parity), rest[i].top))
  }

  lemma {:induction false} WordsHold(b: Beidou.Subframe, rest: BeidouRests, n: nat)
    requires 1 <= n <= 10
    ensures Beidou.InfoBits(BeidouWords(b, rest)[..n]) == b[..4 + 22 * n]
  {
    hide Bits, WordWith;
    var ws := BeidouWords(b, rest)[..n];
    LowBits(WordOf(b, n - 1, rest[n - 1].parity), rest[n - 1].top);
    if n > 1 {
      WordsHold(b, rest, n - 1);
      assert ws[..n - 1] == BeidouWords(b, rest)[..n - 1];
      assert b[..4 + 22 * n] == b[..4 + 22 * (n - 1)] + b[4 + 22 * (n - 1)..4 + 22 * n];
    }
  }

  lemma BeidouWordSmall(b: Beidou.Subframe, rest: BeidouRests, i: nat)
    requires i < 10
    ensures BeidouWords(b, rest)[i] < 0x1_0000_0000
  {
    hide Value, Pow2, WordWith;
    assert Pow2(2) == 4 && Pow2(32) == 0x1_0000_0000 by { Pow2Values(); Pow2Add(30, 2); FourIsPow2(); }
    WordBound(WordOf(b, i, rest[i].parity), rest[i].top, 2);
  }

  lemma BeidouReport(b: Beidou.Subframe, rest: BeidouRests) returns (ws: Report)
    ensures ws == BeidouWords(b, rest)
  {
    hide BeidouWords;
    forall i | 0 <= i < 10 ensures BeidouWords(b, rest)[i] < 0x1_0000_0000 {
      BeidouWordSmall(b, rest, i);
    }
    ws := BeidouWords(b, rest);
  }

  /** Every D1 subframe of a satellite that is not geostationary is folded as exactly that subframe
      if it begins with the preamble, whatever the parity and the top bits of its words, and refused
      if it does not. */
  lemma BeidouCarried(from: Source, b: Beidou.Subframe, rest: BeidouRests, ws: Report)
    requires from.gnss == 3 && 6 <= from.sv && !(59 <= from.sv <= 63) && from.version >= 2
    requires ws == BeidouWords(b, rest)
    ensures Try(Carrier(from, ws)) == Accept(Frame(UBX, 0x0213, Carrier(from, ws)))
    ensures Route(Carrier(from, ws)) == if b[..11] == Bits(0x712, 11) then BeidouSubframe(from.sv, b) else Refused
  {
    hide Carrier, Dwords, Try, BeidouWords, Beidou.InfoBits, Bits;
    Reported(from, ws);
    WordsHold(b, rest, 10);
    assert ws[..10] == ws && b[..224] == b;
    Preamble(b);
  }

  lemma Preamble(b: Beidou.Subframe)
    ensures Beidou.HasPreamble(b) <==> b[..11] == Bits(0x712, 11)
  {
    hide Bits, Value, Pow2;
    assert b[0..11] == b[..11];
    BitsOfValue(b[..11]);
    ValueOfBits(0x712, 11);
    Pow2Values();
    SmallMod(0x712, 0x800);
  }

  function PlainWords(b: Beidou.Subframe): (ws: Report)
    ensures ws == BeidouWords(b, seq(10, _ => Rest(Zeros(8), 0)))
  {
    var rest: BeidouRests := seq(10, _ => Rest(Zeros(8), 0));
    assert forall i :: 0 <= i < 10 ==> BeidouWords(b, rest)[i] < 0x1_0000_0000 by {
      forall i | 0 <= i < 10 ensures BeidouWords(b, rest)[i] < 0x1_0000_0000 {
        BeidouWordSmall(b, rest, i);
      }
    }
    BeidouWords(b, rest)
  }

  /** The frame of a subframe from satellite `sv`, with all parity zero. */
  function Plain(sv: Byte, b: Beidou.Subframe): seq<Byte> {
    Carrier(Source(3, sv, 0, 0, 0, 2), PlainWords(b))
  }

  lemma Carried(sv: Byte, b: Beidou.Subframe)
    requires !BeidouGeo(sv) && Beidou.HasPreamble(b)
    ensures Try(Plain(sv, b)) == Accept(Frame(UBX, 0x0213, Plain(sv, b)))
    ensures Route(Plain(sv, b)) == BeidouSubframe(sv, b)
  {
    hide Carrier, Beidou.HasPreamble, BeidouWords, Try, Route;
    Preamble(b);
    BeidouCarried(Source(3, sv, 0, 0, 0, 2), b, seq(10, _ => Rest(Zeros(8), 0)), PlainWords(b));
  }

  /** The frames of a whole run. */
  function Carriers(sv: Byte, ev: seq<(Beidou.Subframe, int)>): (h: History)
    ensures |h| == |ev|
  {
    if ev == [] then []
    else Carriers(sv, ev[..|ev| - 1]) + [(Plain(sv, ev[|ev| - 1].0), ev[|ev| - 1].1)]
  }

  lemma NothingHeard(sv: nat)
    ensures BeidouEvents([], sv) == []
  {
  }

  /** Every run of subframes with a preamble is what the collector makes of some history. */
  lemma {:induction false} Heard(sv: Byte, ev: seq<(Beidou.Subframe, int)>)
    requires !BeidouGeo(sv) && forall e :: e in ev ==> Beidou.HasPreamble(e.0)
    ensures BeidouEvents(Carriers(sv, ev), sv) == ev
  {
    hide Route, Plain, Beidou.HasPreamble, BeidouEvents;
    if ev == [] {
      NothingHeard(sv);
    } else {
      var n := |ev| - 1;
      Heard(sv, ev[..n]);
      Carried(sv, ev[n].0);
      BeidouSnoc(Carriers(sv, ev[..n]), Plain(sv, ev[n].0), ev[n].1);
      assert ev[..n] + [ev[n]] == ev;
    }
  }

  lemma {:induction false} CarriersAccepted(sv: Byte, ev: seq<(Beidou.Subframe, int)>)
    requires !BeidouGeo(sv) && forall e :: e in ev ==> Beidou.HasPreamble(e.0)
    ensures var h := Carriers(sv, ev);
            forall i :: 0 <= i < |h| ==> Try(h[i].0) == Accept(Frame(UBX, 0x0213, h[i].0))
  {
    hide Route, Try, Plain, Beidou.HasPreamble;
    if ev != [] {
      var n := |ev| - 1;
      CarriersAccepted(sv, ev[..n]);
      Carried(sv, ev[n].0);
      assert Carriers(sv, ev) == Carriers(sv, ev[..n]) + [(Plain(sv, ev[n].0), ev[n].1)];
    }
  }

  // ---- a mixed time of ephemeris

  /** A collector that has consumed some frames. */
  method Collected(h: History) returns (s: Store)
    ensures fresh(s) && s.Valid() && s.history == h
  {
    hide Store.Valid, Store.GpsValid, Store.GalileoValid, Store.BeidouValid;
    s := new Store();
    var i := 0;
    while i < |h|
      invariant 0 <= i <= |h| && fresh(s) && s.Valid() && s.history == h[..i]
      invariant fresh(s.gps.Values) && fresh(s.gal.Values) && fresh(s.bds.Values)
    {
      s.Consume(h[i].0, h[i].1);
      assert h[..i + 1] == h[..i] + [h[i]];
      i := i + 1;
    }
    assert h[..i] == h;
  }

  /** `frame` is message 1042 of the satellite's latest subframes, time of ephemeris included. */
  ghost predicate OfOneBroadcast(ev: seq<(Beidou.Subframe, int)>, sv: nat, frame: seq<Byte>) {
    var l1, l2, l3 := Beidou.Latest(ev, 1), Beidou.Latest(ev, 2), Beidou.Latest(ev, 3);
    && l1.Some? && l2.Some? && l3.Some?
    && exists payload, k :: BeidouPayload(sv, l1.value, l2.value, l3.value, Beidou.ToeTop(ev), payload, k)
        && FrameOf(frame, payload)
  }

  /** A frame that was served is the message of the latest subframes exactly when the leading bits
      of the time of ephemeris have not changed since the latest subframe 3. */
  lemma ServedMixed(h: History, sv: nat, frame: seq<Byte>, j: nat)
    requires BeidouServed(h, sv, frame) && Beidou.LastAt(BeidouEvents(h, sv), 3, j)
    ensures var ev := BeidouEvents(h, sv);
            OfOneBroadcast(ev, sv, frame) <==> Beidou.ToeTop(ev[..j]) == Beidou.ToeTop(ev)
  {
    hide Beidou.Latest, Beidou.ToeTop, Beidou.ToeTopUsed, Concat, FrameOf, Beidou.Parts1042, DataBits, BeidouEvents;
    var ev := BeidouEvents(h, sv);
    var s1, s2, s3 := Beidou.Latest(ev, 1).value, Beidou.Latest(ev, 2).value, Beidou.Latest(ev, 3).value;
    var hi, lo := Beidou.ToeTopUsed(ev), Beidou.ToeTop(ev);
    Beidou.ToeTopAt(ev, j);
    Beidou.TopShows(sv, s1, s2, s3, hi, lo);
    Beidou.MessageLength(sv, s1, s2, s3, hi);
    Beidou.MessageLength(sv, s1, s2, s3, lo);
    var payload, k :| BeidouPayload(sv, s1, s2, s3, hi, payload, k) && FrameOf(frame, payload);
    if OfOneBroadcast(ev, sv, frame) {
      var q, m :| BeidouPayload(sv, s1, s2, s3, lo, q, m) && FrameOf(frame, q);
      SamePayload(frame, payload, q);
      assert DataBits(payload)[..511] == Concat(Beidou.Parts1042(sv, s1, s2, s3, hi));
      assert DataBits(payload)[..511] == Concat(Beidou.Parts1042(sv, s1, s2, s3, lo));
    }
  }

  lemma SamePayload(frame: seq<Byte>, p: seq<Byte>, q: seq<Byte>)
    requires FrameOf(frame, p) && FrameOf(frame, q)
    ensures p == q
  {
    hide DataBits;
    assert frame[..|frame| - 3][3..] == p && frame[..|frame| - 3][3..] == q;
  }

  /** Subframes 1 to 5 of one data set, then 1 and 2 of the next: the collector serves a message
      that joins the times of ephemeris of the two. */
  method MixedServed() returns (s: Store, frame: seq<Byte>)
    ensures s.Valid() && |s.history| == 7
    ensures forall i :: 0 <= i < 7 ==> Try(s.history[i].0) == Accept(Frame(UBX, 0x0213, s.history[i].0))
    ensures var ev := BeidouEvents(s.history, 6);
            && |ev| == 7 && (forall i :: 0 <= i < 7 ==> Beidou.SubframeId(ev[i].0) == [1, 2, 3, 4, 5, 1, 2][i])
            && !OfOneBroadcast(ev, 6, frame)
    ensures BeidouReady(s.history, 6, 0) && BeidouServed(s.history, 6, frame)
  {
    hide Beidou.NextSet, Beidou.HasPreamble, Beidou.SubframeId, Beidou.Latest, Beidou.ToeTop, Beidou.LastAt, Try,
         BeidouServed, OfOneBroadcast, Beidou.Run, Route, Store.Valid, Plain, BeidouReady, BeidouEvents, Carriers,
         Beidou.Complete, Beidou.Encode1042, Beidou.Parts1042, FieldsBits, Concat;
    var ev := Beidou.NextSet();
    Beidou.MixedBroadcast(6);
    AllPreambles(ev);
    Heard(6, ev);
    CarriersAccepted(6, ev);
    s := Collected(Carriers(6, ev));
    NextReady(s.history);
    frame := Serve(s, 6, 0);
    ServedMixed(s.history, 6, frame, 2);
  }

  lemma AllPreambles(ev: seq<(Beidou.Subframe, int)>)
    requires |ev| == 7 && forall i :: 0 <= i < 7 ==> Beidou.HasPreamble(ev[i].0)
    ensures forall e :: e in ev ==> Beidou.HasPreamble(e.0)
  {
  }

  lemma NextReady(h: History)
    requires BeidouEvents(h, 6) == Beidou.NextSet()
    ensures BeidouReady(h, 6, 0)
  {
    hide BeidouEvents, Beidou.SubframeId, Beidou.Sample;
    Beidou.SampleIs(2, true);
    Beidou.MixedBroadcast(6);
  }

  method Serve(s: Store, sv: nat, now: int) returns (frame: seq<Byte>)
    requires s.Valid() && BeidouReady(s.history, sv, now)
    ensures BeidouServed(s.history, sv, frame)
  {
    hide Beidou.Run, BeidouServed, Store.GpsValid, Store.GalileoValid, Beidou.SubframeId, BeidouEvents;
    var o := s.BeidouFrame(sv, now);
    frame := o.value;
  }
}
