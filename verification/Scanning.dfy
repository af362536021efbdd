/** The hub's buffered scanner: an in-place buffer that is compacted, grown and refilled by
    reads of any size, proved to emit exactly the frames of a one-shot parse of the stream. */
module Scanning {
  import opened BitSeq
  import opened Crc24
  import opened CrcTable
  import opened Streams
  import opened Framing
  import opened Outcomes

  datatype ReadError = Eof | Failed(code: int)

  /** An input that delivers `rest` in whatever cuts `schedule` dictates (zero-length reads
      included; as much as fits once the schedule is used up) and then fails, either together
      with the last bytes or on a later read. */
  class Reader {
    var rest: seq<Byte>
    var schedule: seq<nat>
    const early: bool
    const failure: ReadError

    constructor (data: seq<Byte>, schedule: seq<nat>, early: bool, failure: ReadError)
      ensures this.rest == data && this.schedule == schedule
      ensures this.early == early && this.failure == failure
    {
      this.rest, this.schedule, this.early, this.failure := data, schedule, early, failure;
    }

    ghost function Left(): nat
      reads this
    {
      |rest| + |schedule|
    }

    method Read(p: array<Byte>, off: nat) returns (n: nat, err: Option<ReadError>)
      requires off < p.Length
      modifies this, p
      ensures off + n <= p.Length
      ensures old(rest) == p[off..off + n] + rest
      ensures p[..off] == old(p[..off])
      ensures err.Some? ==> rest == [] && err.value == failure
      ensures err.None? ==> Left() < old(Left())
    {
      var want := p.Length - off;
      var last := schedule == [];
      if schedule != [] {
        want := if schedule[0] < want then schedule[0] else want;
        schedule := schedule[1..];
      }
      n := if |rest| < want then |rest| else want;
      forall i | 0 <= i < n {
        p[off + i] := rest[i];
      }
      assert p[off..off + n] == rest[..n];
      rest := rest[n..];
      err := if rest == [] && (early || (last && n == 0)) then Some(failure) else None;
    }
  }

  // ---- byte accounting

  /** Bytes in frames, bytes dropped, and those of the dropped that looked like a frame's start. */
  datatype Tally = Tally(framed: nat, dropped: nat, resyncs: nat)

  function Add(t: Tally, p: Piece): Tally {
    match p
    case Framed(f) => t.(framed := t.framed + |f.raw|)
    case Dropped(b) => t.(dropped := t.dropped + 1, resyncs := t.resyncs + if IsSync(b) then 1 else 0)
  }

  /** A resynchronisation is a dropped byte that looked like the start of a frame. */
  lemma Resynced(t: Tally, b: Byte)
    ensures Add(t, Dropped(b)).resyncs == t.resyncs + if b in {0xD3, 0xB5, 0x24} then 1 else 0
    ensures Add(t, Dropped(b)).dropped == t.dropped + 1 && Add(t, Dropped(b)).framed == t.framed
  {
  }

  function TallyOf(h: seq<Piece>): Tally {
    if h == [] then Tally(0, 0, 0) else Add(TallyOf(h[..|h| - 1]), h[|h| - 1])
  }

  /** Bytes put behind a window extend it. */
  lemma Widened(a: seq<Byte>, b: seq<Byte>, start: nat, at: nat, n: nat)
    requires |a| == |b| && start <= at && at + n <= |a| && a[..at] == b[..at]
    ensures b[start..at + n] == a[start..at] + b[at..at + n]
  {
    assert a[start..at] == a[..at][start..];
    assert b[start..at] == b[..at][start..];
  }

  class Scanner {
    const r: Reader
    const table: seq<nat>
    var buf: array<Byte>
    var start: nat
    var end: nat
    var err: Option<ReadError>
    var bytesRead: nat
    var bytesFramed: nat
    var bytesDropped: nat
    var resyncs: nat
    /** Everything the scanner has decided so far. */
    ghost var history: seq<Piece>

    ghost predicate Valid()
      reads this, buf, r
    {
      && start <= end <= buf.Length
      && 8192 <= buf.Length
      && IsTable(table)
      && (err.Some? ==> r.rest == [])
      && bytesRead == bytesFramed + bytesDropped + (end - start)
      && TallyOf(history) == Tally(bytesFramed, bytesDropped, resyncs)
    }

    ghost function Window(): seq<Byte>
      requires start <= end <= buf.Length
      reads this, buf
    {
      buf[start..end]
    }

    /** The part of the stream on which nothing has been decided. */
    ghost function Pending(): seq<Byte>
      requires start <= end <= buf.Length
      reads this, buf, r
    {
      Window() + r.rest
    }

    /** What was decided, with what a one-shot parse would make of the rest; and the bytes of both. */
    ghost function Outcome(): (seq<Piece>, seq<Byte>)
      requires start <= end <= buf.Length
      reads this, buf, r
    {
      (history + Parse(TRY, Pending()), Flatten(history) + Pending())
    }

    constructor (r: Reader, bufSize: int)
      ensures Valid() && fresh(buf) && this.r == r
      ensures history == [] && err == None && Pending() == r.rest
    {
      var t := BuildTable();
      var size := if bufSize < 8192 then 8192 else bufSize;
      this.r, table, buf := r, t, new Byte[size](_ => 0);
      start, end, err := 0, 0, None;
      bytesRead, bytesFramed, bytesDropped, resyncs, history := 0, 0, 0, 0, [];
    }

    // ---- the recognisers, as the loops that compute them

    method ScanRtcm3() returns (v: Verdict)
      requires Valid()
      ensures v == TryRtcm3(Window())
    {
      hide Crc, Bits, DataBits, TallyOf;
      var w := buf[start..end];
      if |w| < 3 { return Need; }
      if w[1] / 4 != 0 { return Reject; }
      var total := RtcmTotal(w);
      if |w| < total {
        if total > MAX_RTCM { return Reject; }
        return Need;
      }
      var got := w[total - 3] as nat * 0x10000 + w[total - 2] as nat * 0x100 + w[total - 1] as nat;
      var crc := Crc24q(table, w[..total - 3]);
      CheckBytes(w[total - 3..total], crc, got);
      if crc != got { return Reject; }
      return Accept(Frame(RTCM3, RtcmType(w[..total]), w[..total]));
    }

    method ScanUbx() returns (v: Verdict)
      requires Valid()
      ensures v == TryUbx(Window())
    {
      hide Fletcher, TallyOf, IsTable;
      var w := buf[start..end];
      if |w| < 2 { return Need; }
      if w[1] != 0x62 { return Reject; }
      if |w| < 6 { return Need; }
      var total := UbxTotal(w);
      if |w| < total { return Need; }
      var a, b := ChecksumLoop(w[2..total - 2]);
      if a != w[total - 2] || b != w[total - 1] { return Reject; }
      return Accept(Frame(UBX, w[2] as nat * 256 + w[3] as nat, w[..total]));
    }

    method ScanNmea() returns (v: Verdict)
      requires Valid()
      ensures v == NmeaFrom(Window(), 1)
    {
      var w := buf[start..end];
      var i := 1;
      while i < |w| && i < MAX_NMEA
        invariant 1 <= i
        invariant NmeaFrom(w, i) == NmeaFrom(w, 1)
      {
        if w[i] == 10 { return Accept(Frame(NMEA, 0, w[..i + 1])); }
        if w[i] == 36 { return Reject; }
        i := i + 1;
      }
      if |w| >= MAX_NMEA { return Reject; }
      return Need;
    }

    /** Consumes a frame, or skips one byte of what is not one. */
    method Decide(v: Verdict)
      requires Valid() && v == Try(Window()) && !v.Need?
      modifies `start, `bytesFramed, `bytesDropped, `resyncs, `history
      ensures Valid() && start > old(start)
      ensures Outcome() == old(Outcome()) && old(history) <= history
      ensures Frames(history) == Frames(old(history)) + (if v.Accept? then [v.frame] else [])
    {
      hide Parse, Try, Frames, TallyOf, IsTable, Crc, Feed, Flatten, First;
      ghost var w := Window();
      ghost var p := if v.Accept? then Framed(v.frame) else Dropped(w[0]);
      TryAdvance(w, r.rest, history, p);
      TallyStep(history, p);
      var n := if v.Accept? then |v.frame.raw| else 1;
      if v.Accept? {
        bytesFramed := bytesFramed + n;
      } else {
        bytesDropped := bytesDropped + 1;
        if IsSync(buf[start]) {
          resyncs := resyncs + 1;
        }
      }
      start := start + n;
      history := history + [p];
      assert n == |Bytes(p)| && Window() == w[n..];
    }

    /** Extracts the next frame that is complete in the window, skipping what is not one. */
    method Scan() returns (f: Option<Frame>)
      requires Valid()
      modifies `start, `bytesFramed, `bytesDropped, `resyncs, `history
      ensures Valid() && start >= old(start)
      ensures Outcome() == old(Outcome()) && old(history) <= history
      ensures f.Some? ==> Frames(history) == Frames(old(history)) + [f.value] && start > old(start)
      ensures f.None? ==> Frames(history) == Frames(old(history)) && Try(Window()).Need?
    {
      hide Parse, TryRtcm3, TryUbx, NmeaFrom, Frames, TallyOf, IsTable, Crc, Flatten;
      while start < end
        invariant Valid() && start >= old(start)
        invariant Outcome() == old(Outcome()) && old(history) <= history
        invariant Frames(history) == Frames(old(history))
        decreases end - start
      {
        var b := buf[start];
        var v: Verdict;
        if b == 0xD3 {
          v := ScanRtcm3();
        } else if b == 0xB5 {
          v := ScanUbx();
        } else if b == 36 {
          v := ScanNmea();
        } else {
          v := Reject;
        }
        if v.Need? { return None; }
        Decide(v);
        if v.Accept? { return Some(v.frame); }
      }
      return None;
    }

    method Compact()
      requires Valid()
      modifies `start, `end, buf
      ensures Valid() && start == 0
      ensures Window() == old(Window()) && history == old(history) && r.rest == old(r.rest)
    {
      hide Parse, Try, Frames, TallyOf, IsTable, Crc, Flatten;
      ghost var w := Window();
      if start > 0 {
        forall i | 0 <= i < end - start {
          buf[i] := buf[start + i];
        }
        end := end - start;
        start := 0;
      }
      assert Window() == w;
    }

    /** Makes room behind the window. The source's other branch, which discards a full buffer of
        maximal size as garbage, is dead: a window that waits is shorter than any frame. */
    method Grow()
      requires Valid() && start == 0
      requires Try(Window()).Need?
      modifies `buf
      ensures Valid() && (buf == old(buf) || fresh(buf)) && end < buf.Length
      ensures Window() == old(Window())
    {
      hide Parse, Frames, TallyOf, IsTable, Crc, Flatten;
      ghost var w := Window();
      if end == buf.Length {
        if buf.Length >= MAX_FRAME {
          assert false;
        } else {
          var size := if buf.Length * 2 < MAX_FRAME then buf.Length * 2 else MAX_FRAME;
          var grow := new Byte[size](_ => 0);
          forall i | 0 <= i < end {
            grow[i] := buf[i];
          }
          buf := grow;
        }
      }
      assert Window() == w;
    }

    /** Compacts the buffer, grows it when full and reads more data. */
    method Fill() returns (e: Option<ReadError>)
      requires Valid() && err.None?
      requires Try(Window()).Need?
      modifies this, buf, r
      ensures Valid() && (buf == old(buf) || fresh(buf))
      ensures Pending() == old(Pending()) && history == old(history)
      ensures err.None? ==> e.None? && r.Left() < old(r.Left())
      ensures e.Some? ==> err == e
      ensures err.Some? ==> err.value == r.failure
    {
      hide Parse, Try, Frames, TallyOf, IsTable, Crc, Flatten;
      Compact();
      Grow();
      var n := Refill();
      if err.Some? {
        if n > 0 {
          return None;
        }
        return err;
      }
      return None;
    }

    /** One read into the room behind the window. */
    method Refill() returns (n: nat)
      requires Valid() && err.None? && end < buf.Length
      modifies `end, `bytesRead, `err, buf, r
      ensures Valid() && Pending() == old(Pending())
      ensures err.None? ==> r.Left() < old(r.Left())
      ensures err.Some? ==> err.value == r.failure
    {
      hide Parse, Try, Frames, TallyOf, IsTable, Crc, Flatten;
      ghost var before, at, rest := buf[..], end, r.rest;
      n, err := r.Read(buf, end);
      end := end + n;
      bytesRead := bytesRead + n;
      Widened(before, buf[..], start, at, n);
      Assoc(before[start..at], buf[at..at + n], r.rest);
    }

    /** The next complete frame, or the reader's error once every frame has been returned. */
    method Next() returns (f: Option<Frame>, e: Option<ReadError>)
      requires Valid() && (err.Some? ==> err.value == r.failure)
      modifies this, buf, r
      ensures Valid() && (buf == old(buf) || fresh(buf))
      ensures err.Some? ==> err.value == r.failure
      ensures Outcome() == old(Outcome()) && old(history) <= history
      ensures f.Some? != e.Some?
      ensures f.Some? ==> Frames(history) == Frames(old(history)) + [f.value]
      ensures f.Some? ==> |Pending()| < |old(Pending())|
      ensures e.Some? ==> Frames(history) == Frames(old(history)) && e.value == r.failure
      ensures e.Some? ==> history == old(Outcome()).0 && r.rest == []
    {
      hide Parse, Try, Frames, TallyOf, IsTable, Crc, Flatten;
      while true
        invariant Valid() && (buf == old(buf) || fresh(buf))
        invariant err.Some? ==> err.value == r.failure
        invariant Outcome() == old(Outcome()) && old(history) <= history
        invariant Frames(history) == Frames(old(history))
        invariant |Pending()| <= |old(Pending())|
        decreases err.None?, r.Left()
      {
        f := Scan();
        if f.Some? { return f, None; }
        if err.Some? {
          NothingMore(Window());
          return None, err;
        }
        var failed := Fill();
        if failed.Some? {
          f := Scan();
          if f.Some? { return f, None; }
          NothingMore(Window());
          return None, failed;
        }
      }
    }
  }

  lemma TallyStep(h: seq<Piece>, p: Piece)
    ensures TallyOf(h + [p]) == Add(TallyOf(h), p)
  {
    assert (h + [p])[..|h|] == h;
  }

  /** Frames and drops account for every decided byte. */
  lemma {:induction false} TallyAccounts(h: seq<Piece>)
    ensures TallyOf(h).framed + TallyOf(h).dropped == |Flatten(h)|
    ensures TallyOf(h).resyncs <= TallyOf(h).dropped
  {
    if h != [] {
      var g := h[..|h| - 1];
      TallyAccounts(g);
      FlattenSnoc(g, h[|h| - 1]);
      assert h == g + [h[|h| - 1]];
    }
  }

  lemma NothingMore(w: seq<Byte>)
    requires Try(w).Need?
    ensures Parse(TRY, w + []) == []
  {
    hide TryRtcm3, TryUbx, NmeaFrom;
    assert w + [] == w;
  }

  /** The hub's pump: reads frames until the input fails. However the reads were cut, the frames
      are those of a one-shot parse of everything delivered, every byte is accounted for, and the
      reader's error is returned only after the last complete frame. */
  method Pump(r: Reader, bufSize: int) returns (frames: seq<Frame>, e: ReadError, s: Scanner)
    modifies r
    ensures frames == Frames(Parse(TRY, old(r.rest)))
    ensures e == r.failure && r.rest == []
    ensures fresh(s) && s.r == r && s.Valid() && s.history == Parse(TRY, old(r.rest))
    ensures Flatten(s.history) + s.Window() == old(r.rest)
  {
    hide Parse, Try, TallyOf, IsTable, Crc;
    s := new Scanner(r, bufSize);
    frames := [];
    assert s.history + Parse(TRY, r.rest) == Parse(TRY, r.rest);
    assert Flatten(s.history) + r.rest == r.rest;
    while true
      invariant fresh(s) && fresh(s.buf) && s.r == r && s.Valid()
      invariant s.err.Some? ==> s.err.value == r.failure
      invariant s.Outcome() == (Parse(TRY, old(r.rest)), old(r.rest))
      invariant frames == Frames(s.history)
      decreases |s.Pending()|
    {
      var f, failed := s.Next();
      if failed.Some? {
        e := failed.value;
        break;
      }
      frames := frames + [f.value];
    }
  }
}
