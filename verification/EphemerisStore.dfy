/** The ephemeris collector: navigation frames are routed to per-satellite assemblies, and
    complete, fresh data sets are served as RTCM frames. */
module EphemerisStore {
  import opened BitSeq
  import opened BitPacking
  import opened Navigation
  import opened Outcomes
  import opened Rtcm
  import opened CrcTable
  import opened Streams
  import opened Framing
  import Gps
  import Galileo
  import Beidou

  /** Two hours in nanoseconds, the unit of time throughout. */
  const MAX_AGE: int := 7_200_000_000_000

  // ---- which signal a frame came from

  function Dword(p: seq<Byte>, at: nat): nat
    requires at + 4 <= |p|
  {
    p[at] as nat + p[at + 1] as nat * 0x100 + p[at + 2] as nat * 0x1_0000 + p[at + 3] as nat * 0x100_0000
  }

  function Dwords(p: seq<Byte>, n: nat): (w: seq<nat>)
    requires 8 + 4 * n <= |p|
    ensures |w| == n
  {
    seq(n, i requires 0 <= i < n => Dword(p, 8 + 4 * i))
  }

  function DropParity(w: seq<nat>): (r: seq<nat>)
    ensures |r| == |w|
  {
    seq(|w|, i requires 0 <= i < |w| => w[i] / 64)
  }

  predicate BeidouGeo(sv: nat) {
    sv <= 5 || 59 <= sv <= 63
  }

  /** What one RXM-SFRBX frame contributes. `Refused` frames reach a decoder that rejects them;
      `Malformed` ones are shorter than they claim. */
  datatype Signal =
    | Ignored
    | Malformed
    | GpsSubframe(sv: nat, g: Gps.Subframe)
    | GalileoWord(sv: nat, w: Galileo.Word)
    | BeidouSubframe(sv: nat, b: Beidou.Subframe)
    | Refused

  function Route(frame: seq<Byte>): Signal {
    if |frame| < 16 then Ignored else
      var p := frame[6..];
      var gnss, sv, sig, n, version := p[0], p[1], p[2], p[4], p[6];
      if |p| < 8 + 4 * n as nat then Malformed
      else if version < 2 then Ignored
      else
        var words := Dwords(p, n);
        if gnss == 0 && sig == 0 && n >= 10 then GpsSubframe(sv, Gps.WordBits(DropParity(words)[..10]))
        else if gnss == 2 && sig == 1 && n == 8 then
          var page := Galileo.PageBits(words);
          if Galileo.Intact(page) then GalileoWord(sv, Galileo.Join(page)) else Refused
        else if gnss == 3 && n == 10 && !BeidouGeo(sv) then
          var b := Beidou.InfoBits(words);
          if Beidou.HasPreamble(b) then BeidouSubframe(sv, b) else Refused
        else Ignored
  }

  lemma ShortIgnored(frame: seq<Byte>)
    requires |frame| < 16
    ensures Route(frame) == Ignored
  {
  }

  type History = seq<(seq<Byte>, int)>

  /** What the frames of a run contributed to something, each frame giving `pick` of it or nothing. */
  function Events<T>(h: History, pick: seq<Byte> -> Option<T>): seq<(T, int)> {
    if h == [] then []
    else
      var (frame, now) := h[|h| - 1];
      Events(h[..|h| - 1], pick) + match pick(frame)
                                   case Some(x) => [(x, now)]
                                   case None => []
  }

  lemma EventsSnoc<T>(h: History, pick: seq<Byte> -> Option<T>, frame: seq<Byte>, now: int)
    ensures Events(h + [(frame, now)], pick)
         == if pick(frame).Some? then Events(h, pick) + [(pick(frame).value, now)] else Events(h, pick)
  {
    assert (h + [(frame, now)])[..|h|] == h;
  }

  function GpsPart(sv: nat): seq<Byte> -> Option<Gps.Subframe> {
    frame => var r := Route(frame); if r.GpsSubframe? && r.sv == sv then Some(r.g) else None
  }

  function GalileoPart(sv: nat): seq<Byte> -> Option<Galileo.Word> {
    frame => var r := Route(frame); if r.GalileoWord? && r.sv == sv then Some(r.w) else None
  }

  function BeidouPart(sv: nat): seq<Byte> -> Option<Beidou.Subframe> {
    frame => var r := Route(frame); if r.BeidouSubframe? && r.sv == sv then Some(r.b) else None
  }

  function GpsEvents(h: History, sv: nat): seq<(Gps.Subframe, int)> { Events(h, GpsPart(sv)) }

  function GalileoEvents(h: History, sv: nat): seq<(Galileo.Word, int)> { Events(h, GalileoPart(sv)) }

  function BeidouEvents(h: History, sv: nat): seq<(Beidou.Subframe, int)> { Events(h, BeidouPart(sv)) }

  lemma GpsSnoc(h: History, frame: seq<Byte>, now: int)
    ensures var r := Route(frame);
            forall sv: nat :: GpsEvents(h + [(frame, now)], sv)
                           == if r.GpsSubframe? && r.sv == sv then GpsEvents(h, sv) + [(r.g, now)] else GpsEvents(h, sv)
  {
    hide Route, Events;
    forall sv: nat {
      EventsSnoc(h, GpsPart(sv), frame, now);
    }
  }

  lemma GalileoSnoc(h: History, frame: seq<Byte>, now: int)
    ensures var r := Route(frame);
            forall sv: nat :: GalileoEvents(h + [(frame, now)], sv)
                           == if r.GalileoWord? && r.sv == sv then GalileoEvents(h, sv) + [(r.w, now)]
                              else GalileoEvents(h, sv)
  {
    hide Route, Events;
    forall sv: nat {
      EventsSnoc(h, GalileoPart(sv), frame, now);
    }
  }

  lemma BeidouSnoc(h: History, frame: seq<Byte>, now: int)
    ensures var r := Route(frame);
            forall sv: nat :: BeidouEvents(h + [(frame, now)], sv)
                           == if r.BeidouSubframe? && r.sv == sv then BeidouEvents(h, sv) + [(r.b, now)]
                              else BeidouEvents(h, sv)
  {
    hide Route, Events;
    forall sv: nat {
      EventsSnoc(h, BeidouPart(sv), frame, now);
    }
  }

  lemma GpsStep(sv: nat, ev: seq<(Gps.Subframe, int)>, b: Gps.Subframe, now: int)
    ensures Gps.Run(sv, ev + [(b, now)]) == Gps.Added(Gps.Run(sv, ev), b, now)
  {
    assert (ev + [(b, now)])[..|ev|] == ev;
  }

  lemma GalileoStep(sv: nat, ev: seq<(Galileo.Word, int)>, b: Galileo.Word, now: int)
    ensures Galileo.Run(sv, ev + [(b, now)]) == Galileo.Added(Galileo.Run(sv, ev), b, now)
  {
    assert (ev + [(b, now)])[..|ev|] == ev;
  }

  lemma BeidouStep(sv: nat, ev: seq<(Beidou.Subframe, int)>, b: Beidou.Subframe, now: int)
    ensures Beidou.Run(sv, ev + [(b, now)]) == Beidou.Added(Beidou.Run(sv, ev), b, now)
  {
    assert (ev + [(b, now)])[..|ev|] == ev;
  }

  lemma GpsStart(sv: nat)
    ensures Gps.Run(sv, []) == Gps.State(Gps.EMPTY.(sv := sv), {})
  {
  }

  lemma GalileoStart(sv: nat)
    ensures Galileo.Run(sv, []) == Galileo.State(Galileo.EMPTY.(sv := sv), {}, map[])
  {
  }

  lemma BeidouStart(sv: nat)
    ensures Beidou.Run(sv, []) == Beidou.State(Beidou.EMPTY.(sv := sv), {}, 0)
  {
  }

  /** The latest frames of satellite `sv` form one fresh data set. */
  ghost predicate GpsReady(h: History, sv: nat, now: int) {
    var ev := GpsEvents(h, sv);
    var l1, l2, l3 := Gps.Latest(ev, 1), Gps.Latest(ev, 2), Gps.Latest(ev, 3);
    l1.Some? && l2.Some? && l3.Some? && Gps.Agree(l1.value, l2.value, l3.value) && now - Gps.LatestTime(ev) <= MAX_AGE
  }

  /** A data set is no longer served two hours after its last subframe. */
  lemma TooOld(h: History, sv: nat, now: int)
    ensures GpsReady(h, sv, now) ==> now - Gps.LatestTime(GpsEvents(h, sv)) <= 7200 * 1_000_000_000
    ensures GalileoReady(h, sv, now) ==> now - Galileo.LatestTime(GalileoEvents(h, sv)) <= 7200 * 1_000_000_000
    ensures BeidouReady(h, sv, now) ==> now - Beidou.LatestTime(BeidouEvents(h, sv)) <= 7200 * 1_000_000_000
    ensures now - Gps.LatestTime(GpsEvents(h, sv)) <= 7200 * 1_000_000_000 ==>
              (GpsReady(h, sv, now) <==> GpsReady(h, sv, Gps.LatestTime(GpsEvents(h, sv))))
    ensures now - Galileo.LatestTime(GalileoEvents(h, sv)) <= 7200 * 1_000_000_000 ==>
              (GalileoReady(h, sv, now) <==> GalileoReady(h, sv, Galileo.LatestTime(GalileoEvents(h, sv))))
    ensures now - Beidou.LatestTime(BeidouEvents(h, sv)) <= 7200 * 1_000_000_000 ==>
              (BeidouReady(h, sv, now) <==> BeidouReady(h, sv, Beidou.LatestTime(BeidouEvents(h, sv))))
  {
    hide Gps.Latest, Galileo.Latest, Beidou.Latest, GpsEvents, GalileoEvents, BeidouEvents, Gps.LatestTime,
         Galileo.LatestTime, Beidou.LatestTime, Gps.Agree, Galileo.Agree;
  }

  /** `frame` is a transport frame around message 1019 cut from the satellite's latest broadcasts. */
  ghost predicate GpsServed(h: History, sv: nat, frame: seq<Byte>) {
    var ev := GpsEvents(h, sv);
    var l1, l2, l3 := Gps.Latest(ev, 1), Gps.Latest(ev, 2), Gps.Latest(ev, 3);
    l1.Some? && l2.Some? && l3.Some? &&
    exists payload, k :: GpsPayload(sv, l1.value, l2.value, l3.value, payload, k) && FrameOf(frame, payload)
  }

  ghost predicate GpsPayload(sv: nat, s1: Gps.Subframe, s2: Gps.Subframe, s3: Gps.Subframe, payload: seq<Byte>,
                             k: nat) {
    k < 8 && DataBits(payload) == Concat(Gps.Parts1019(sv, s1, s2, s3)) + Zeros(k)
  }

  lemma GpsEncoded(h: History, sv: nat, now: int, frame: Option<seq<Byte>>, payload: seq<Byte>)
    requires sv < 256 && GpsReady(h, sv, now)
    requires exists k ::
               && 0 <= k < 8
               && DataBits(payload) == FieldsBits(Gps.Encode1019(Gps.Run(sv, GpsEvents(h, sv)).eph)) + Zeros(k)
    requires frame.None? <==> |FieldsBits(Gps.Encode1019(Gps.Run(sv, GpsEvents(h, sv)).eph))| > 8 * 1023
    requires frame.Some? ==> FrameOf(frame.value, payload)
    ensures frame.Some? && GpsServed(h, sv, frame.value)
  {
    hide Gps.Run, GpsEvents, Gps.Encode1019, Gps.Complete, Gps.Latest, Gps.LatestTime, FieldsBits, Concat, InRange;
    hide Gps.Parts1019, DataBits, FrameOf, Gps.Agree;
    var ev := GpsEvents(h, sv);
    var l1, l2, l3 := Gps.Latest(ev, 1), Gps.Latest(ev, 2), Gps.Latest(ev, 3);
    Gps.ServedFromLatest(sv, ev);
    Gps.MessageLength(sv, l1.value, l2.value, l3.value);
    var k :| 0 <= k < 8 && DataBits(payload) == FieldsBits(Gps.Encode1019(Gps.Run(sv, ev).eph)) + Zeros(k);
    assert GpsPayload(sv, l1.value, l2.value, l3.value, payload, k);
  }

  /** The latest frames of satellite `sv` form one fresh data set. */
  ghost predicate GalileoReady(h: History, sv: nat, now: int) {
    var ev := GalileoEvents(h, sv);
    var l1, l2, l3, l4, l5 := Galileo.Latest(ev, 1), Galileo.Latest(ev, 2), Galileo.Latest(ev, 3),
        Galileo.Latest(ev, 4), Galileo.Latest(ev, 5);
    l1.Some? && l2.Some? && l3.Some? && l4.Some? && l5.Some? && Galileo.Agree(l1.value, l2.value, l3.value, l4.value)
        && now - Galileo.LatestTime(ev) <= MAX_AGE
  }

  /** `frame` is a transport frame around message 1046 cut from the satellite's latest broadcasts. */
  ghost predicate GalileoServed(h: History, sv: nat, frame: seq<Byte>) {
    var ev := GalileoEvents(h, sv);
    var l1, l2, l3, l4, l5 := Galileo.Latest(ev, 1), Galileo.Latest(ev, 2), Galileo.Latest(ev, 3),
        Galileo.Latest(ev, 4), Galileo.Latest(ev, 5);
    l1.Some? && l2.Some? && l3.Some? && l4.Some? && l5.Some? &&
    exists payload, k :: GalileoPayload(Galileo.Satellite(sv, ev), l1.value, l2.value, l3.value, l4.value, l5.value,
        payload, k) && FrameOf(frame, payload)
  }

  ghost predicate GalileoPayload(sv: nat, w1: Galileo.Word, w2: Galileo.Word, w3: Galileo.Word, w4: Galileo.Word,
                                 w5: Galileo.Word, payload: seq<Byte>, k: nat) {
    k < 8 && DataBits(payload) == Concat(Galileo.Parts1046(sv, w1, w2, w3, w4, w5)) + Zeros(k)
  }

  lemma GalileoEncoded(h: History, sv: nat, now: int, frame: Option<seq<Byte>>, payload: seq<Byte>)
    requires sv < 256 && GalileoReady(h, sv, now)
    requires exists k ::
               && 0 <= k < 8
               && DataBits(payload)
                  == FieldsBits(Galileo.Encode1046(Galileo.Run(sv, GalileoEvents(h, sv)).eph)) + Zeros(k)
    requires frame.None? <==> |FieldsBits(Galileo.Encode1046(Galileo.Run(sv, GalileoEvents(h, sv)).eph))| > 8 * 1023
    requires frame.Some? ==> FrameOf(frame.value, payload)
    ensures frame.Some? && GalileoServed(h, sv, frame.value)
  {
    hide Galileo.Run, GalileoEvents, Galileo.Encode1046, Galileo.Complete, Galileo.Latest, Galileo.LatestTime,
         FieldsBits, Concat, InRange;
    hide Galileo.Parts1046, DataBits, FrameOf, Galileo.Agree;
    var ev := GalileoEvents(h, sv);
    var l1, l2, l3, l4, l5 := Galileo.Latest(ev, 1), Galileo.Latest(ev, 2), Galileo.Latest(ev, 3),
        Galileo.Latest(ev, 4), Galileo.Latest(ev, 5);
    Galileo.ServedFromLatest(sv, ev);
    Galileo.MessageLength(Galileo.Satellite(sv, ev), l1.value, l2.value, l3.value, l4.value, l5.value);
    var k :| 0 <= k < 8 && DataBits(payload) == FieldsBits(Galileo.Encode1046(Galileo.Run(sv, ev).eph)) + Zeros(k);
    assert GalileoPayload(Galileo.Satellite(sv, ev), l1.value, l2.value, l3.value, l4.value, l5.value, payload, k);
  }

  /** The latest frames of satellite `sv` form one fresh data set. */
  ghost predicate BeidouReady(h: History, sv: nat, now: int) {
    var ev := BeidouEvents(h, sv);
    var l1, l2, l3 := Beidou.Latest(ev, 1), Beidou.Latest(ev, 2), Beidou.Latest(ev, 3);
    l1.Some? && l2.Some? && l3.Some? && now - Beidou.LatestTime(ev) <= MAX_AGE
  }

  /** `frame` is a transport frame around message 1042 cut from the satellite's latest broadcasts. */
  ghost predicate BeidouServed(h: History, sv: nat, frame: seq<Byte>) {
    var ev := BeidouEvents(h, sv);
    var l1, l2, l3 := Beidou.Latest(ev, 1), Beidou.Latest(ev, 2), Beidou.Latest(ev, 3);
    l1.Some? && l2.Some? && l3.Some? &&
    exists payload, k :: BeidouPayload(sv, l1.value, l2.value, l3.value, Beidou.ToeTopUsed(ev), payload, k)
        && FrameOf(frame, payload)
  }

  ghost predicate BeidouPayload(sv: nat, s1: Beidou.Subframe, s2: Beidou.Subframe, s3: Beidou.Subframe, hi: seq<bool>,
                                payload: seq<Byte>, k: nat) {
    k < 8 && DataBits(payload) == Concat(Beidou.Parts1042(sv, s1, s2, s3, hi)) + Zeros(k)
  }

  lemma BeidouEncoded(h: History, sv: nat, now: int, frame: Option<seq<Byte>>, payload: seq<Byte>)
    requires sv < 256 && BeidouReady(h, sv, now)
    requires exists k ::
               && 0 <= k < 8
               && DataBits(payload) == FieldsBits(Beidou.Encode1042(Beidou.Run(sv, BeidouEvents(h, sv)).eph)) + Zeros(k)
    requires frame.None? <==> |FieldsBits(Beidou.Encode1042(Beidou.Run(sv, BeidouEvents(h, sv)).eph))| > 8 * 1023
    requires frame.Some? ==> FrameOf(frame.value, payload)
    ensures frame.Some? && BeidouServed(h, sv, frame.value)
  {
    hide Beidou.Run, BeidouEvents, Beidou.Encode1042, Beidou.Complete, Beidou.Latest, Beidou.LatestTime, FieldsBits,
         Concat, InRange;
    hide Beidou.Parts1042, DataBits, FrameOf;
    var ev := BeidouEvents(h, sv);
    var l1, l2, l3 := Beidou.Latest(ev, 1), Beidou.Latest(ev, 2), Beidou.Latest(ev, 3);
    Beidou.ServedFromLatest(sv, ev);
    Beidou.MessageLength(sv, l1.value, l2.value, l3.value, Beidou.ToeTopUsed(ev));
    var k :| 0 <= k < 8 && DataBits(payload) == FieldsBits(Beidou.Encode1042(Beidou.Run(sv, ev).eph)) + Zeros(k);
    assert BeidouPayload(sv, l1.value, l2.value, l3.value, Beidou.ToeTopUsed(ev), payload, k);
  }

  lemma NumberOf(parts: seq<seq<bool>>, number: nat, payload: seq<Byte>, k: nat)
    requires parts != [] && parts[0] == Bits(number, 12) && number < 4096
    requires DataBits(payload) == Concat(parts) + Zeros(k)
    ensures MessageNumber(payload) == number
  {
    hide DataBits, Bits, Value, Pow2, Concat;
    ConcatHead(parts);
    assert DataBits(payload)[..12] == Bits(number, 12);
    ValueOfBits(number, 12);
    Pow2Values();
  }

  /** The hub's scanner accepts a served message 1019 as exactly one frame of that type. */
  lemma GpsAccepted(h: History, sv: nat, frame: seq<Byte>)
    requires GpsServed(h, sv, frame)
    ensures Try(frame) == Accept(Frame(RTCM3, 1019, frame))
    ensures Parse(TRY, frame) == [Framed(Frame(RTCM3, 1019, frame))] && Residue(TRY, frame) == []
  {
    hide Try, Parse, Residue, FrameOf, MessageNumber, Gps.Latest, Concat, DataBits;
    var ev := GpsEvents(h, sv);
    var payload, k :| GpsPayload(sv, Gps.Latest(ev, 1).value, Gps.Latest(ev, 2).value, Gps.Latest(ev, 3).value,
        payload, k) && FrameOf(frame, payload);
    NumberOf(Gps.Parts1019(sv, Gps.Latest(ev, 1).value, Gps.Latest(ev, 2).value, Gps.Latest(ev, 3).value), 1019,
        payload, k);
    FrameAccepted(frame, payload);
  }

  /** The hub's scanner accepts a served message 1046 as exactly one frame of that type. */
  lemma GalileoAccepted(h: History, sv: nat, frame: seq<Byte>)
    requires GalileoServed(h, sv, frame)
    ensures Try(frame) == Accept(Frame(RTCM3, 1046, frame))
    ensures Parse(TRY, frame) == [Framed(Frame(RTCM3, 1046, frame))] && Residue(TRY, frame) == []
  {
    hide Try, Parse, Residue, FrameOf, MessageNumber, Galileo.Latest, Concat, DataBits;
    var ev := GalileoEvents(h, sv);
    var payload, k :| GalileoPayload(Galileo.Satellite(sv, ev), Galileo.Latest(ev, 1).value,
        Galileo.Latest(ev, 2).value, Galileo.Latest(ev, 3).value, Galileo.Latest(ev, 4).value,
            Galileo.Latest(ev, 5).value, payload, k) && FrameOf(frame, payload);
    NumberOf(Galileo.Parts1046(Galileo.Satellite(sv, ev), Galileo.Latest(ev, 1).value, Galileo.Latest(ev, 2).value,
        Galileo.Latest(ev, 3).value, Galileo.Latest(ev, 4).value, Galileo.Latest(ev, 5).value), 1046, payload, k);
    FrameAccepted(frame, payload);
  }

  /** The hub's scanner accepts a served message 1042 as exactly one frame of that type. */
  lemma BeidouAccepted(h: History, sv: nat, frame: seq<Byte>)
    requires BeidouServed(h, sv, frame)
    ensures Try(frame) == Accept(Frame(RTCM3, 1042, frame))
    ensures Parse(TRY, frame) == [Framed(Frame(RTCM3, 1042, frame))] && Residue(TRY, frame) == []
  {
    hide Try, Parse, Residue, FrameOf, MessageNumber, Beidou.Latest, Concat, DataBits;
    var ev := BeidouEvents(h, sv);
    var payload, k :| BeidouPayload(sv, Beidou.Latest(ev, 1).value, Beidou.Latest(ev, 2).value,
        Beidou.Latest(ev, 3).value, Beidou.ToeTopUsed(ev), payload, k) && FrameOf(frame, payload);
    NumberOf(Beidou.Parts1042(sv, Beidou.Latest(ev, 1).value, Beidou.Latest(ev, 2).value, Beidou.Latest(ev, 3).value,
        Beidou.ToeTopUsed(ev)), 1042, payload, k);
    FrameAccepted(frame, payload);
  }

  class Store {
    var gps: map<nat, Gps.Assembly>
    var gal: map<nat, Galileo.Assembly>
    var bds: map<nat, Beidou.Assembly>
    var framesSeen: nat
    var framesBad: nat
    var encoded: nat
    const table: seq<nat>
    /** Every frame consumed, with its arrival time. */
    ghost var history: History

    ghost predicate GpsValid(h: History)
      reads `gps, gps.Values
    {
      && (forall s, t :: s in gps && t in gps && s != t ==> gps[s] != gps[t])
      && (forall s :: s in gps ==> s < 256 && gps[s].View() == Gps.Run(s, GpsEvents(h, s)))
      && (forall s: nat :: s !in gps ==> GpsEvents(h, s) == [])
    }

    ghost predicate GalileoValid(h: History)
      reads `gal, gal.Values
    {
      && (forall s, t :: s in gal && t in gal && s != t ==> gal[s] != gal[t])
      && (forall s :: s in gal ==> s < 256 && gal[s].View() == Galileo.Run(s, GalileoEvents(h, s)))
      && (forall s: nat :: s !in gal ==> GalileoEvents(h, s) == [])
    }

    ghost predicate BeidouValid(h: History)
      reads `bds, bds.Values
    {
      && (forall s, t :: s in bds && t in bds && s != t ==> bds[s] != bds[t])
      && (forall s :: s in bds ==> s < 256 && bds[s].View() == Beidou.Run(s, BeidouEvents(h, s)))
      && (forall s: nat :: s !in bds ==> BeidouEvents(h, s) == [])
    }

    /** Each assembly is exactly what its own satellite's frames make of it. */
    ghost predicate Valid()
      reads this, gps.Values, gal.Values, bds.Values
    {
      IsTable(table) && GpsValid(history) && GalileoValid(history) && BeidouValid(history)
    }

    constructor ()
      ensures Valid() && history == [] && gps == map[] && gal == map[] && bds == map[]
    {
      var t := BuildTable();
      gps, gal, bds := map[], map[], map[];
      framesSeen, framesBad, encoded := 0, 0, 0;
      table, history := t, [];
    }

    /** Frames of other signals leave the Gps side alone. */
    lemma GpsKept(h: History, frame: seq<Byte>, now: int)
      requires GpsValid(h) && !Route(frame).GpsSubframe?
      ensures GpsValid(h + [(frame, now)])
    {
      hide Gps.Run, Gps.Added, Route;
      GpsSnoc(h, frame, now);
    }

    /** Frames of other signals leave the Galileo side alone. */
    lemma GalileoKept(h: History, frame: seq<Byte>, now: int)
      requires GalileoValid(h) && !Route(frame).GalileoWord?
      ensures GalileoValid(h + [(frame, now)])
    {
      hide Galileo.Run, Galileo.Added, Route;
      GalileoSnoc(h, frame, now);
    }

    /** Frames of other signals leave the Beidou side alone. */
    lemma BeidouKept(h: History, frame: seq<Byte>, now: int)
      requires BeidouValid(h) && !Route(frame).BeidouSubframe?
      ensures BeidouValid(h + [(frame, now)])
    {
      hide Beidou.Run, Beidou.Added, Route;
      BeidouSnoc(h, frame, now);
    }

    method GpsAssembly(sv: nat) returns (a: Gps.Assembly)
      requires GpsValid(history) && sv < 256
      modifies `gps
      ensures GpsValid(history) && sv in gps && a == gps[sv]
      ensures fresh(gps.Values - old(gps.Values))
    {
      hide Gps.Run, Gps.Added, GpsEvents, Gps.Assembly.View;
      if sv in gps {
        return gps[sv];
      }
      a := new Gps.Assembly(sv);
      GpsStart(sv);
      gps := gps[sv := a];
    }

    method ConsumeGps(sv: nat, words: seq<nat>, now: int, ghost frame: seq<Byte>)
      requires GpsValid(history) && sv < 256
      requires |words| >= 10 && Route(frame) == GpsSubframe(sv, Gps.WordBits(words[..10]))
      modifies `gps, `framesBad, gps.Values
      ensures GpsValid(history + [(frame, now)])
      ensures fresh(gps.Values - old(gps.Values))
      ensures framesBad == old(framesBad) + 0
    {
      hide Gps.Run, Gps.Added, Route, GpsEvents, Gps.Assembly.View, Gps.WordBits;
      GpsSnoc(history, frame, now);
      var a := GpsAssembly(sv);
      // ten words or more are never refused
      var _, err := a.AddSubframe(words, now);
      GpsStep(sv, GpsEvents(history, sv), Gps.WordBits(words[..10]), now);
    }

    method GalileoAssembly(sv: nat) returns (a: Galileo.Assembly)
      requires GalileoValid(history) && sv < 256
      modifies `gal
      ensures GalileoValid(history) && sv in gal && a == gal[sv]
      ensures fresh(gal.Values - old(gal.Values))
    {
      hide Galileo.Run, Galileo.Added, GalileoEvents, Galileo.Assembly.View;
      if sv in gal {
        return gal[sv];
      }
      a := new Galileo.Assembly(sv);
      GalileoStart(sv);
      gal := gal[sv := a];
    }

    method ConsumeGalileo(sv: nat, words: seq<nat>, now: int, ghost frame: seq<Byte>)
      requires GalileoValid(history) && sv < 256
      requires |words| == 8
      requires Route(frame) == if Galileo.Intact(Galileo.PageBits(words))
                               then GalileoWord(sv, Galileo.Join(Galileo.PageBits(words))) else Refused
      modifies `gal, `framesBad, gal.Values
      ensures GalileoValid(history + [(frame, now)])
      ensures fresh(gal.Values - old(gal.Values))
      ensures framesBad == old(framesBad) + (if Route(frame).Refused? then 1 else 0)
    {
      hide Galileo.Run, Galileo.Added, Route, GalileoEvents, Galileo.Assembly.View, Galileo.PageBits, Galileo.Join;
      GalileoSnoc(history, frame, now);
      var a := GalileoAssembly(sv);
      assert words[..8] == words;
      var _, err := a.AddPage(words, now);
      if err {
        framesBad := framesBad + 1;
      } else {
        GalileoStep(sv, GalileoEvents(history, sv), Galileo.Join(Galileo.PageBits(words)), now);
      }
    }

    method BeidouAssembly(sv: nat) returns (a: Beidou.Assembly)
      requires BeidouValid(history) && sv < 256
      modifies `bds
      ensures BeidouValid(history) && sv in bds && a == bds[sv]
      ensures fresh(bds.Values - old(bds.Values))
    {
      hide Beidou.Run, Beidou.Added, BeidouEvents, Beidou.Assembly.View;
      if sv in bds {
        return bds[sv];
      }
      a := new Beidou.Assembly(sv);
      BeidouStart(sv);
      bds := bds[sv := a];
    }

    method ConsumeBeidou(sv: nat, words: seq<nat>, now: int, ghost frame: seq<Byte>)
      requires BeidouValid(history) && sv < 256
      requires |words| == 10
      requires Route(frame) == if Beidou.HasPreamble(Beidou.InfoBits(words))
                               then BeidouSubframe(sv, Beidou.InfoBits(words)) else Refused
      modifies `bds, `framesBad, bds.Values
      ensures BeidouValid(history + [(frame, now)])
      ensures fresh(bds.Values - old(bds.Values))
      ensures framesBad == old(framesBad) + (if Route(frame).Refused? then 1 else 0)
    {
      hide Beidou.Run, Beidou.Added, Route, BeidouEvents, Beidou.Assembly.View, Beidou.InfoBits, Beidou.HasPreamble;
      BeidouSnoc(history, frame, now);
      var a := BeidouAssembly(sv);
      assert words[..10] == words;
      var _, err := a.AddSubframe(words, now);
      if err {
        framesBad := framesBad + 1;
      } else {
        BeidouStep(sv, BeidouEvents(history, sv), Beidou.InfoBits(words), now);
      }
    }

    /** Routes the frame to the assembly it belongs to, if any. */
    method Fold(frame: seq<Byte>, now: int) returns (kind: nat)
      requires Valid() && |frame| >= 16
      modifies `gps, `gal, `bds, `framesBad, gps.Values, gal.Values, bds.Values
      ensures GpsValid(if kind == 1 then history + [(frame, now)] else history)
      ensures GalileoValid(if kind == 2 then history + [(frame, now)] else history)
      ensures BeidouValid(if kind == 3 then history + [(frame, now)] else history)
      ensures kind != 1 ==> !Route(frame).GpsSubframe?
      ensures kind != 2 ==> !Route(frame).GalileoWord?
      ensures kind != 3 ==> !Route(frame).BeidouSubframe?
      ensures framesBad == old(framesBad) + (if Route(frame).Malformed? || Route(frame).Refused? then 1 else 0)
      ensures fresh(gps.Values - old(gps.Values)) && fresh(gal.Values - old(gal.Values))
      ensures fresh(bds.Values - old(bds.Values))
    {
      hide GpsValid, GalileoValid, BeidouValid, IsTable, Dwords, DropParity;
      hide Gps.WordBits, Galileo.PageBits, Galileo.Join, Galileo.Intact, Beidou.InfoBits, Beidou.HasPreamble;
      var p := frame[6..];
      var gnss, sv, sig, n, version := p[0], p[1], p[2], p[4], p[6];
      if |p| < 8 + 4 * n as nat {
        framesBad := framesBad + 1;
        return 0;
      }
      var words := Dwords(p, n);
      if version < 2 {
        return 0;
      }
      if gnss == 0 && sig == 0 && n >= 10 {
        ConsumeGps(sv, DropParity(words), now, frame);
        return 1;
      }
      if gnss == 2 && sig == 1 && n == 8 {
        ConsumeGalileo(sv, words, now, frame);
        return 2;
      }
      if gnss == 3 && n == 10 && !BeidouGeo(sv) {
        ConsumeBeidou(sv, words, now, frame);
        return 3;
      }
      return 0;
    }

    /** Decodes one frame. A frame that is ignored, malformed or refused changes no data set. */
    method Consume(frame: seq<Byte>, now: int)
      requires Valid()
      modifies this, gps.Values, gal.Values, bds.Values
      ensures Valid() && history == old(history) + [(frame, now)]
      ensures framesBad == old(framesBad) + (if Route(frame).Malformed? || Route(frame).Refused? then 1 else 0)
      ensures framesSeen == old(framesSeen) + (if |frame| >= 16 then 1 else 0)
      ensures fresh(gps.Values - old(gps.Values)) && fresh(gal.Values - old(gal.Values))
      ensures fresh(bds.Values - old(bds.Values))
    {
      hide GpsValid, GalileoValid, BeidouValid, IsTable, Route;
      var kind := 0;
      if |frame| >= 16 {
        framesSeen := framesSeen + 1;
        kind := Fold(frame, now);
      } else {
        ShortIgnored(frame);
      }
      if kind != 1 { GpsKept(history, frame, now); }
      if kind != 2 { GalileoKept(history, frame, now); }
      if kind != 3 { BeidouKept(history, frame, now); }
      history := history + [(frame, now)];
    }

    /** The message 1019 of one satellite, if its data set is complete and fresh. */
    method GpsFrame(sv: nat, now: int) returns (frame: Option<seq<Byte>>)
      requires Valid() && sv in gps
      ensures frame.Some? <==> GpsReady(history, sv, now)
      ensures frame.Some? ==> GpsServed(history, sv, frame.value)
    {
      hide Gps.Run, GpsEvents, IsTable, GpsReady, GpsServed, Gps.Complete, GalileoValid, BeidouValid, GpsValid, FrameOf;
      var a := gps[sv];
      GpsLookup(sv, now);
      if !Gps.Complete(Gps.State(a.eph, a.have)) || now - a.eph.updated > MAX_AGE {
        return None;
      }
      ghost var payload;
      frame, payload := BuildMessage(table, Gps.Encode1019(a.eph));
      GpsEncoded(history, sv, now, frame, payload);
    }

    /** One message 1019 for every satellite whose data set is complete and fresh, and no other. */
    method Emit1019(now: int) returns (out: seq<seq<Byte>>, ghost svs: seq<nat>)
      requires Valid()
      modifies `encoded
      ensures |svs| == |out| && encoded == old(encoded) + |out|
      ensures forall i, j :: 0 <= i < j < |svs| ==> svs[i] != svs[j]
      ensures forall sv: nat :: sv in svs <==> GpsReady(history, sv, now)
      ensures forall i :: 0 <= i < |out| ==> GpsServed(history, svs[i], out[i])
    {
      hide GpsReady, GpsServed, GalileoValid, BeidouValid, GpsValid, IsTable;
      out, svs := [], [];
      var todo := gps.Keys;
      while todo != {}
        invariant todo <= gps.Keys
        invariant |svs| == |out| && encoded == old(encoded) + |out|
        invariant forall i, j :: 0 <= i < j < |svs| ==> svs[i] != svs[j]
        invariant forall sv :: sv in svs <==> sv in gps && sv !in todo && GpsReady(history, sv, now)
        invariant forall i :: 0 <= i < |out| ==> GpsServed(history, svs[i], out[i])
        decreases todo
      {
        var sv :| sv in todo;
        todo := todo - {sv};
        var frame := GpsFrame(sv, now);
        if frame.Some? {
          out, svs := out + [frame.value], svs + [sv];
          encoded := encoded + 1;
        }
      }
      GpsOthers(now);
    }

    /** What the assembly of `sv` says is what its latest frames say. */
    lemma GpsLookup(sv: nat, now: int)
      requires GpsValid(history) && sv in gps
      ensures sv < 256 && gps[sv].View() == Gps.Run(sv, GpsEvents(history, sv))
      ensures GpsReady(history, sv, now) <==> Gps.Complete(gps[sv].View()) && now - gps[sv].eph.updated <= MAX_AGE
      ensures GpsReady(history, sv, now) ==> forall x :: x in Gps.Encode1019(gps[sv].eph) ==> InRange(x)
    {
      hide Gps.Run, GpsEvents, Gps.Encode1019, Gps.Complete, Gps.Latest, Gps.LatestTime, FieldsBits, Concat, InRange,
           Gps.Parts1019;
      Gps.ServedFromLatest(sv, GpsEvents(history, sv));
    }

    /** A satellite nothing was heard from is not ready. */
    lemma GpsOthers(now: int)
      requires GpsValid(history)
      ensures forall sv: nat :: sv !in gps ==> !GpsReady(history, sv, now)
    {
      hide Gps.Run, GpsEvents;
    }

    /** The message 1046 of one satellite, if its data set is complete and fresh. */
    method GalileoFrame(sv: nat, now: int) returns (frame: Option<seq<Byte>>)
      requires Valid() && sv in gal
      ensures frame.Some? <==> GalileoReady(history, sv, now)
      ensures frame.Some? ==> GalileoServed(history, sv, frame.value)
    {
      hide Galileo.Run, GalileoEvents, IsTable, GalileoReady, GalileoServed, Galileo.Complete, GalileoValid,
           BeidouValid, GpsValid, FrameOf;
      var a := gal[sv];
      GalileoLookup(sv, now);
      if !Galileo.Complete(Galileo.State(a.eph, a.have, a.iod)) || now - a.eph.updated > MAX_AGE {
        return None;
      }
      ghost var payload;
      frame, payload := BuildMessage(table, Galileo.Encode1046(a.eph));
      GalileoEncoded(history, sv, now, frame, payload);
    }

    /** One message 1046 for every satellite whose data set is complete and fresh, and no other. */
    method Emit1046(now: int) returns (out: seq<seq<Byte>>, ghost svs: seq<nat>)
      requires Valid()
      modifies `encoded
      ensures |svs| == |out| && encoded == old(encoded) + |out|
      ensures forall i, j :: 0 <= i < j < |svs| ==> svs[i] != svs[j]
      ensures forall sv: nat :: sv in svs <==> GalileoReady(history, sv, now)
      ensures forall i :: 0 <= i < |out| ==> GalileoServed(history, svs[i], out[i])
    {
      hide GalileoReady, GalileoServed, GalileoValid, BeidouValid, GpsValid, IsTable;
      out, svs := [], [];
      var todo := gal.Keys;
      while todo != {}
        invariant todo <= gal.Keys
        invariant |svs| == |out| && encoded == old(encoded) + |out|
        invariant forall i, j :: 0 <= i < j < |svs| ==> svs[i] != svs[j]
        invariant forall sv :: sv in svs <==> sv in gal && sv !in todo && GalileoReady(history, sv, now)
        invariant forall i :: 0 <= i < |out| ==> GalileoServed(history, svs[i], out[i])
        decreases todo
      {
        var sv :| sv in todo;
        todo := todo - {sv};
        var frame := GalileoFrame(sv, now);
        if frame.Some? {
          out, svs := out + [frame.value], svs + [sv];
          encoded := encoded + 1;
        }
      }
      GalileoOthers(now);
    }

    /** What the assembly of `sv` says is what its latest frames say. */
    lemma GalileoLookup(sv: nat, now: int)
      requires GalileoValid(history) && sv in gal
      ensures sv < 256 && gal[sv].View() == Galileo.Run(sv, GalileoEvents(history, sv))
      ensures GalileoReady(history, sv, now) <==>
                Galileo.Complete(gal[sv].View()) && now - gal[sv].eph.updated <= MAX_AGE
      ensures GalileoReady(history, sv, now) ==> forall x :: x in Galileo.Encode1046(gal[sv].eph) ==> InRange(x)
    {
      hide Galileo.Run, GalileoEvents, Galileo.Encode1046, Galileo.Complete, Galileo.Latest, Galileo.LatestTime,
           FieldsBits, Concat, InRange, Galileo.Parts1046;
      Galileo.ServedFromLatest(sv, GalileoEvents(history, sv));
    }

    /** A satellite nothing was heard from is not ready. */
    lemma GalileoOthers(now: int)
      requires GalileoValid(history)
      ensures forall sv: nat :: sv !in gal ==> !GalileoReady(history, sv, now)
    {
      hide Galileo.Run, GalileoEvents;
    }

    /** The message 1042 of one satellite, if its data set is complete and fresh. */
    method BeidouFrame(sv: nat, now: int) returns (frame: Option<seq<Byte>>)
      requires Valid() && sv in bds
      ensures frame.Some? <==> BeidouReady(history, sv, now)
      ensures frame.Some? ==> BeidouServed(history, sv, frame.value)
    {
      hide Beidou.Run, BeidouEvents, IsTable, BeidouReady, BeidouServed, Beidou.Complete, GalileoValid, BeidouValid,
           GpsValid, FrameOf;
      var a := bds[sv];
      BeidouLookup(sv, now);
      if !Beidou.Complete(Beidou.State(a.eph, a.have, a.toeHi)) || now - a.eph.updated > MAX_AGE {
        return None;
      }
      ghost var payload;
      frame, payload := BuildMessage(table, Beidou.Encode1042(a.eph));
      BeidouEncoded(history, sv, now, frame, payload);
    }

    /** One message 1042 for every satellite whose data set is complete and fresh, and no other. */
    method Emit1042(now: int) returns (out: seq<seq<Byte>>, ghost svs: seq<nat>)
      requires Valid()
      modifies `encoded
      ensures |svs| == |out| && encoded == old(encoded) + |out|
      ensures forall i, j :: 0 <= i < j < |svs| ==> svs[i] != svs[j]
      ensures forall sv: nat :: sv in svs <==> BeidouReady(history, sv, now)
      ensures forall i :: 0 <= i < |out| ==> BeidouServed(history, svs[i], out[i])
    {
      hide BeidouReady, BeidouServed, GalileoValid, BeidouValid, GpsValid, IsTable;
      out, svs := [], [];
      var todo := bds.Keys;
      while todo != {}
        invariant todo <= bds.Keys
        invariant |svs| == |out| && encoded == old(encoded) + |out|
        invariant forall i, j :: 0 <= i < j < |svs| ==> svs[i] != svs[j]
        invariant forall sv :: sv in svs <==> sv in bds && sv !in todo && BeidouReady(history, sv, now)
        invariant forall i :: 0 <= i < |out| ==> BeidouServed(history, svs[i], out[i])
        decreases todo
      {
        var sv :| sv in todo;
        todo := todo - {sv};
        var frame := BeidouFrame(sv, now);
        if frame.Some? {
          out, svs := out + [frame.value], svs + [sv];
          encoded := encoded + 1;
        }
      }
      BeidouOthers(now);
    }

    /** What the assembly of `sv` says is what its latest frames say. */
    lemma BeidouLookup(sv: nat, now: int)
      requires BeidouValid(history) && sv in bds
      ensures sv < 256 && bds[sv].View() == Beidou.Run(sv, BeidouEvents(history, sv))
      ensures BeidouReady(history, sv, now) <==> Beidou.Complete(bds[sv].View()) && now - bds[sv].eph.updated <= MAX_AGE
      ensures BeidouReady(history, sv, now) ==> forall x :: x in Beidou.Encode1042(bds[sv].eph) ==> InRange(x)
    {
      hide Beidou.Run, BeidouEvents, Beidou.Encode1042, Beidou.Complete, Beidou.Latest, Beidou.LatestTime, FieldsBits,
           Concat, InRange, Beidou.Parts1042;
      Beidou.ServedFromLatest(sv, BeidouEvents(history, sv));
    }

    /** A satellite nothing was heard from is not ready. */
    lemma BeidouOthers(now: int)
      requires BeidouValid(history)
      ensures forall sv: nat :: sv !in bds ==> !BeidouReady(history, sv, now)
    {
      hide Beidou.Run, BeidouEvents;
    }

    method Messages(msgType: nat, now: int) returns (out: seq<seq<Byte>>, ghost svs: seq<nat>)
      requires Valid()
      modifies `encoded
      ensures |svs| == |out| && encoded == old(encoded) + |out|
      ensures forall i, j :: 0 <= i < j < |svs| ==> svs[i] != svs[j]
      ensures forall sv: nat :: sv in svs <==>
                || (msgType == 1019 && GpsReady(history, sv, now))
                || (msgType == 1042 && BeidouReady(history, sv, now))
                || (msgType == 1046 && GalileoReady(history, sv, now))
      ensures forall i :: 0 <= i < |out| ==>
                && (msgType == 1019 ==> GpsServed(history, svs[i], out[i]))
                && (msgType == 1042 ==> BeidouServed(history, svs[i], out[i]))
                && (msgType == 1046 ==> GalileoServed(history, svs[i], out[i]))
    {
      hide GpsReady, GalileoReady, BeidouReady, GpsServed, GalileoServed, BeidouServed, Valid;
      out, svs := [], [];
      if msgType == 1019 {
        out, svs := Emit1019(now);
      } else if msgType == 1042 {
        out, svs := Emit1042(now);
      } else if msgType == 1046 {
        out, svs := Emit1046(now);
      }
    }
  }
}
