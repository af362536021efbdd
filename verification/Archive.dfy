/** The archive writer: a local spool, a share reached through calls that may fail or land in
    part, and sidecars that let a restart resume. Every share call takes what happens to it as an
    argument, so a proof covers every pattern of faults. */
module Archive {
  import opened Outcomes
  import opened ArchiveDisk
  import opened SwapTimes
  import Streams

  // ---- what can happen to calls on the share

  /** An append that could not open the file, or that landed `landed` bytes and reported `ok`. */
  datatype Append = NotOpened | Wrote(landed: nat, ok: bool)

  datatype TopUpIo = TopUpIo(statFails: bool, append: Append)

  const NO_FAULT := TopUpIo(false, Wrote(0, true))

  /** `saveFails`: the sidecar write did not take effect, or the process died before it. */
  datatype SyncIo = SyncIo(topUp: TopUpIo, saveFails: bool)

  /** `removeFails`: the spool file was not removed, or the process died before that. */
  datatype FinishIo = FinishIo(topUp: TopUpIo, restatFails: bool, removeFails: bool)

  /** `probeFails(i)`: asking for the i-th name fails with something other than "not found". */
  datatype OpenIo = OpenIo(mkdirFails: bool, probeFails: nat -> bool, saveFails: bool, statFails: bool)

  datatype Copy = CopyFails | RenameFails(landed: bool) | Copied

  datatype FlushIo = FlushIo(mkdirFails: bool, probeFails: nat -> bool, copy: Copy, removeFails: bool)

  datatype PendingIo = PendingIo(finish: FinishIo, flush: FlushIo)

  datatype CloseIo = CloseIo(sync: SyncIo, finish: FinishIo)

  /** `spill`: how much of the write buffer the write itself pushes into the spool file. */
  datatype WriteIo = WriteIo(close: CloseIo, open: OpenIo, spill: nat)

  // ---- topping up

  function Landing(a: Append, rest: Data): Data {
    if a.NotOpened? then []
    else if a.ok || a.landed > |rest| then rest
    else rest[..a.landed]
  }

  function TopUpDisk(d: Disk, name: string, dest: Path, io: TopUpIo): Disk {
    var have := |Held(d.share, dest)|;
    if name !in d.spool || io.statFails || have >= |d.spool[name]| || io.append.NotOpened? then d
    else d.(share := d.share[dest := Held(d.share, dest) + Landing(io.append, d.spool[name][have..])])
  }

  predicate TopUpOk(d: Disk, name: string, dest: Path, io: TopUpIo) {
    && name in d.spool && !io.statFails
    && var have := |Held(d.share, dest)|;
       have == |d.spool[name]| || (have < |d.spool[name]| && io.append.Wrote? && io.append.ok)
  }

  /** Whatever part of an append landed, the share copy stays a prefix of the spool copy. */
  lemma TopUpKeepsPrefix(d: Disk, k: Book, name: string, dest: Path, io: TopUpIo)
    requires Inv(d, k) && Feeds(d, k, name, dest)
    ensures var d' := TopUpDisk(d, name, dest, io);
            && Inv(d', k) && Feeds(d', k, name, dest)
            && (forall m, q :: Feeds(d, k, m, q) ==> Feeds(d', k, m, q))
            && (TopUpOk(d, name, dest, io) ==> Held(d'.share, dest) == d.spool[name])
  {
    hide Inv;
    var h, s := Held(d.share, dest), d.spool[name];
    var x := h + Landing(io.append, s[|h|..]);
    assert s == h + s[|h|..];
    assert x <= s;
    ShareKeeps(d, k, name, dest, x);
  }

  /** One fault-free top-up heals any earlier partial append: the copies are equal afterwards. */
  lemma TopUpHeals(d: Disk, k: Book, name: string, dest: Path)
    requires Inv(d, k) && Feeds(d, k, name, dest)
    ensures TopUpOk(d, name, dest, NO_FAULT)
    ensures Held(TopUpDisk(d, name, dest, NO_FAULT).share, dest) == d.spool[name]
  {
    hide Inv;
    TopUpKeepsPrefix(d, k, name, dest, NO_FAULT);
  }

  // ---- framing

  /** Files of `s` outside `except` are still there, unchanged; temporary files do not count. */
  ghost predicate Kept(s: map<Path, Data>, t: map<Path, Data>, except: set<Path>) {
    forall p :: p in s && p.File? && p !in except ==> p in t && t[p] == s[p]
  }

  /** Nothing flushed, finished or lost is ever forgotten, and `hit` is lost now. */
  ghost predicate Survives(k: Book, k': Book, hit: set<Part>) {
    && (forall n: string :: FlushedOf(k, n) <= FlushedOf(k', n))
    && (forall p :: p in k.done ==> Intact(k', Part(p, k.done[p])) || Part(p, k.done[p]) in hit)
    && k'.lost == k.lost + hit
  }

  /** The same with no loss at all. */
  ghost predicate Grows(k: Book, k': Book) {
    Survives(k, k', {})
  }

  /** Everything accepted for a name: what was flushed and, for the open file, what is buffered. */
  function Taken(k: Book, cur: Option<string>, buf: Data, n: string): Data {
    if cur == Some(n) then FlushedOf(k, n) + buf else FlushedOf(k, n)
  }

  /** How much of what was accepted for a name is in the write buffer only. */
  function Buffered(cur: Option<string>, buf: Data, n: string): nat {
    if cur == Some(n) then |buf| else 0
  }

  /** What of `n` bytes is left when up to `k` are taken away. */
  function Left(n: nat, k: nat): nat {
    if k < n then n - k else 0
  }

  lemma GrowsTransitive(a: Book, b: Book, c: Book)
    requires Grows(a, b) && Grows(b, c)
    ensures Grows(a, c)
  {
  }

  lemma SurvivesTransitive(a: Book, b: Book, c: Book, x: set<Part>, y: set<Part>)
    requires Survives(a, b, x) && Survives(b, c, y)
    ensures Survives(a, c, x + y)
  {
  }

  /** A spool file vanished only because some share file holds exactly its bytes. */
  ghost predicate RemovedSafely(d: Disk, d': Disk) {
    forall n :: n in d.spool && n !in d'.spool ==> exists p :: p in d'.share && p.File? && d'.share[p] == d.spool[n]
  }

  /** The same through the books: the removed file is entered as finished, bytes and all. */
  ghost predicate Settled(d: Disk, d': Disk, k': Book) {
    forall n :: n in d.spool && n !in d'.spool ==>
      exists p: Path :: p.File? && p.name == n && Intact(k', Part(p, d.spool[n]))
  }

  lemma SettledIsSafe(d: Disk, d': Disk, k': Book)
    requires Settled(d, d', k') && Inv(d', k')
    ensures RemovedSafely(d, d')
  {
    forall n | n in d.spool && n !in d'.spool
      ensures exists p :: p in d'.share && p.File? && d'.share[p] == d.spool[n]
    {
      var p: Path :| p.File? && p.name == n && Intact(k', Part(p, d.spool[n]));
      assert p in d'.share && p.File? && d'.share[p] == d.spool[n];
    }
  }

  /** Later steps that take away no spool file and leave the share alone keep removals safe. */
  lemma SafeLater(a: Disk, b: Disk, c: Disk)
    requires RemovedSafely(a, b) && b.spool.Keys <= c.spool.Keys && c.share == b.share
    ensures RemovedSafely(a, c)
  {
  }

  lemma SafeDrained(d: Disk, name: string, b: Data, d': Disk)
    requires RemovedSafely(d, d') && name in d'.spool
    ensures RemovedSafely(Flush(d, name, b), d')
  {
    forall n | n in Flush(d, name, b).spool && n !in d'.spool
      ensures exists p :: p in d'.share && p.File? && d'.share[p] == Flush(d, name, b).spool[n]
    {
      assert n in d.spool;
      var p :| p in d'.share && p.File? && d'.share[p] == d.spool[n];
    }
  }

  lemma NothingRemoved(a: Disk, b: Disk)
    requires a.spool.Keys <= b.spool.Keys
    ensures RemovedSafely(a, b)
  {
  }

  /** The spool files of `d'` are spool files of `d`, unchanged. */
  ghost predicate SpoolShrinks(d: Disk, d': Disk) {
    forall n :: n in d'.spool ==> n in d.spool && d'.spool[n] == d.spool[n]
  }

  ghost predicate SideShrinks(d: Disk, d': Disk) {
    forall n :: n in d'.side ==> n in d.side && d'.side[n] == d.side[n]
  }

  /** The share files the sidecars point at. */
  function Dests(d: Disk): set<Path> {
    set n | n in d.side :: d.side[n].dest
  }

  /** Share files that are neither growing nor in `except` are still there, unchanged, and have not
      been chosen to grow. */
  ghost predicate Spares(d: Disk, c: Option<Path>, d': Disk, c': Option<Path>, except: set<Path>) {
    forall p :: p in d.share && p.File? && c != Some(p) && p !in Dests(d) && p !in except ==>
      p in d'.share && d'.share[p] == d.share[p] && c' != Some(p) && p !in Dests(d')
  }

  lemma SparesTransitive(a: Disk, c: Option<Path>, b: Disk, c': Option<Path>, d: Disk, c'': Option<Path>, x: set<Path>,
                         y: set<Path>)
    requires Spares(a, c, b, c', x) && Spares(b, c', d, c'', y)
    ensures Spares(a, c, d, c'', x + y)
  {
    hide Dests;
  }

  lemma SparesThen(a: Disk, c: Option<Path>, b: Disk, c': Option<Path>, d: Disk, c'': Option<Path>)
    requires Spares(a, c, b, c', {}) && Spares(b, c', d, c'', {})
    ensures Spares(a, c, d, c'', {})
  {
    var none: set<Path> := {};
    SparesTransitive(a, c, b, c', d, c'', none, none);
    assert none + none == none;
  }

  /** Only a chosen file changed, and no file was newly chosen. */
  lemma SparesKept(a: Disk, c: Option<Path>, b: Disk, c': Option<Path>, except: set<Path>)
    requires Kept(a.share, b.share, (if c.Some? then {c.value} else {}) + Dests(a) + except)
    requires Dests(b) <= Dests(a) + (if c.Some? then {c.value} else {})
    requires c'.Some? ==> c' == c || c'.value in Dests(a) || c'.value !in a.share
    ensures Spares(a, c, b, c', except)
  {
  }

  // ---- what a sweep overwrites

  /** Asking for the plain name fails although a file of that name exists, and the copy goes
      through: the one case in which the code overwrites a share file that is not its own. */
  predicate Overwrites(d: Disk, dir: Option<string>, name: string, io: FlushIo) {
    dir.Some? && !io.mkdirFails && io.probeFails(0) && File(dir.value, name, 0) in d.share && Lands(io.copy)
  }

  predicate Usable(d: Disk, dir: Option<string>, name: string) {
    name in d.side && dir.Some? && d.side[name].dest.dir == dir.value
  }

  /** The sweep gets as far as copying the spool file, and overwrites. */
  predicate Strikes(d: Disk, dir: Option<string>, cur: Option<string>, name: string, io: PendingIo) {
    && name in d.spool && cur != Some(name) && (name in d.side ==> cur.Some? && !Usable(d, dir, name))
    && Overwrites(d, dir, name, io.flush)
  }

  /** What one entry of the sweep loses: a finished file that had other bytes. */
  function Hit(d: Disk, k: Book, dir: Option<string>, cur: Option<string>, name: string, io: PendingIo): set<Part> {
    if Strikes(d, dir, cur, name, io) then Struck(k, File(dir.value, name, 0), d.spool[name]) else {}
  }

  function Hits(d: Disk, k: Book, dir: Option<string>, cur: Option<string>, names: set<string>,
                io: string -> PendingIo): set<Part> {
    set n, c | n in names && c in Hit(d, k, dir, cur, n, io(n)) :: c
  }

  function StruckPaths(d: Disk, dir: Option<string>, cur: Option<string>, names: set<string>,
                       io: string -> PendingIo): set<Path> {
    set n | n in names && Strikes(d, dir, cur, n, io(n)) :: File(dir.value, n, 0)
  }

  /** The file is complete on the share and its sidecar can go: the top-up worked, both lengths
      could be asked for, and there is a share file. An empty spool file creates none. */
  predicate Completes(d: Disk, name: string, dest: Path, io: FinishIo) {
    TopUpOk(d, name, dest, io.topUp) && !io.restatFails && (d.spool[name] != [] || dest in d.share)
  }

  /** The name a spool file without a sidecar is copied to: the plain one unless it is known to be
      taken, and then the first number that is known to be free. */
  ghost predicate Target(d: Disk, dir: string, name: string, io: FlushIo, p: Path) {
    if io.probeFails(0) || File(dir, name, 0) !in d.share then p == File(dir, name, 0)
    else FirstFree(d, dir, name, 1, io.probeFails, p)
  }

  ghost predicate FirstFree(d: Disk, dir: string, name: string, from: nat, probeFails: nat -> bool, p: Path) {
    && p.File? && from <= p.alt < 100 && p == File(dir, name, p.alt) && p !in d.share && !probeFails(p.alt)
    && forall j: nat :: from <= j < p.alt ==> probeFails(j) || File(dir, name, j) in d.share
  }

  /** A spool file is gone exactly when the faults of its sweep entry let it go; it is then complete
      where it went, and has no sidecar. */
  ghost predicate GoneExactly(d: Disk, dir: Option<string>, cur: Option<string>, name: string, io: PendingIo,
                              d': Disk, k': Book)
    requires name in d.spool
  {
    && (name !in d'.spool ==> exists p :: LeavesFor(d, dir, cur, name, io, p))
    && (forall p :: LeavesFor(d, dir, cur, name, io, p) ==>
          name !in d'.spool && name !in d'.side && Intact(k', Part(p, d.spool[name])))
    && FedExactly(d, dir, cur, name, io, d')
  }

  /** A file with a usable sidecar is topped up where it points, while another file is open; the
      sidecar goes exactly when the file is complete there. */
  ghost predicate FedExactly(d: Disk, dir: Option<string>, cur: Option<string>, name: string, io: PendingIo, d': Disk)
    requires name in d.spool
  {
    Usable(d, dir, name) && cur.Some? && cur != Some(name) ==>
      var p := d.side[name].dest;
      var t := TopUpDisk(d, name, p, io.finish.topUp).share;
      && (p in d'.share <==> p in t) && Held(d'.share, p) == Held(t, p)
      && if Completes(d, name, p, io.finish) then name !in d'.side
         else name in d'.side && d'.side[name] == d.side[name]
  }

  lemma SameFed(d: Disk, k: Book, b: Disk, j: Book, c: Disk, dir: Option<string>, cur: Option<string>, n: string,
                io: PendingIo)
    requires Same(d, k, b, j, n) && Inv(d, k) && n in d.spool && FedExactly(b, dir, cur, n, io, c)
    ensures FedExactly(d, dir, cur, n, io, c)
  {
    hide Landing;
  }

  lemma FedLater(d: Disk, k: Book, b: Disk, j: Book, c: Disk, i: Book, dir: Option<string>, cur: Option<string>,
                 n: string, io: PendingIo)
    requires Same(b, j, c, i, n) && Inv(d, k) && n in d.spool && FedExactly(d, dir, cur, n, io, b)
    ensures FedExactly(d, dir, cur, n, io, c)
  {
    hide TopUpDisk, Completes;
  }

  lemma LeavesName(d: Disk, k: Book, dir: Option<string>, cur: Option<string>, name: string, io: PendingIo)
    requires Inv(d, k)
    ensures forall p :: LeavesFor(d, dir, cur, name, io, p) ==> p.File? && p.name == name && dir == Some(p.dir)
  {
    hide Completes;
  }

  lemma MovesSame(d: Disk, d': Disk, dir: Option<string>, cur: Option<string>, name: string, io: PendingIo)
    requires d.share == d'.share && name in d.spool && dir.Some? && cur != Some(name)
    requires name in d.side ==> cur.Some? && !Usable(d, dir, name)
    ensures forall p :: LeavesFor(d, dir, cur, name, io, p) <==> MovesTo(d', dir, name, io.flush, p)
  {
  }

  lemma OneTarget(d: Disk, dir: string, name: string, io: FlushIo, p: Path)
    requires Target(d, dir, name, io, p)
    ensures forall q :: Target(d, dir, name, io, q) ==> q == p
  {
  }

  /** The sweep copies the file to `p` and drops it from the spool. */
  ghost predicate MovesTo(d: Disk, dir: Option<string>, name: string, io: FlushIo, p: Path) {
    && dir.Some? && !io.mkdirFails && io.copy == Copied && !io.removeFails
    && Target(d, dir.value, name, io, p)
  }

  /** The sweep ends with the file complete at `p` on the share and gone from the spool: one with a
      usable sidecar, if another file is open, at the destination it has been feeding; one without
      by copying. */
  ghost predicate LeavesFor(d: Disk, dir: Option<string>, cur: Option<string>, name: string, io: PendingIo, p: Path) {
    && name in d.spool && dir.Some? && cur != Some(name) && (name in d.side ==> cur.Some?)
    && if Usable(d, dir, name) then
         p == d.side[name].dest && Completes(d, name, p, io.finish) && !io.finish.removeFails
       else MovesTo(d, dir, name, io.flush, p)
  }

  /** Everything a sweep entry for `n` depends on is as it was. */
  ghost predicate Same(d: Disk, k: Book, d': Disk, k': Book, n: string) {
    && (n in d.spool <==> n in d'.spool) && (n in d.spool ==> d'.spool[n] == d.spool[n])
    && (n in d.side <==> n in d'.side) && (n in d.side ==> d'.side[n] == d.side[n])
    && (forall p: Path :: p.File? && p.name == n ==>
          && (p in d.share <==> p in d'.share) && (p in d.share ==> d'.share[p] == d.share[p])
          && (p in k.done <==> p in k'.done) && (p in k.done ==> k'.done[p] == k.done[p]))
  }

  /** A step about `name` changed nothing that matters to any other name. */
  ghost predicate Elsewhere(d: Disk, k: Book, d': Disk, k': Book, name: string) {
    forall m :: m != name ==> Same(d, k, d', k', m)
  }

  lemma ElsewhereTransitive(a: Disk, i: Book, b: Disk, j: Book, c: Disk, k: Book, name: string)
    requires Elsewhere(a, i, b, j, name) && Elsewhere(b, j, c, k, name)
    ensures Elsewhere(a, i, c, k, name)
  {
    forall m | m != name ensures Same(a, i, c, k, m) {
      assert Same(a, i, b, j, m) && Same(b, j, c, k, m);
    }
  }

  lemma TopUpElsewhere(d: Disk, k: Book, name: string, dest: Path, io: TopUpIo)
    requires dest.name == name
    ensures var d' := TopUpDisk(d, name, dest, io);
            Elsewhere(d, k, d', k, name) && Kept(d.share, d'.share, {dest}) && d'.spool == d.spool && d'.side == d.side
  {
    hide Landing;
  }

  lemma SameHit(d: Disk, k: Book, d': Disk, k': Book, dir: Option<string>, cur: Option<string>, n: string,
                io: PendingIo)
    requires Same(d, k, d', k', n)
    ensures Strikes(d, dir, cur, n, io) == Strikes(d', dir, cur, n, io)
    ensures Hit(d, k, dir, cur, n, io) == Hit(d', k', dir, cur, n, io)
  {
  }

  /** After the top-up, the checks that decide about the sidecar say what the faults said. */
  lemma ToppedUp(d: Disk, k: Book, name: string, dest: Path, io: FinishIo)
    requires Inv(d, k) && Feeds(d, k, name, dest)
    ensures var d' := TopUpDisk(d, name, dest, io.topUp);
            Completes(d, name, dest, io) <==>
            TopUpOk(d, name, dest, io.topUp) && !io.restatFails && dest in d'.share
    ensures d.spool[name] != [] || dest in d.share ==> io == FinishIo(NO_FAULT, false, false) ==>
              Completes(d, name, dest, io)
    ensures io.restatFails || io.topUp.statFails ==> !Completes(d, name, dest, io)
  {
    hide Inv;
    TopUpHeals(d, k, name, dest);
  }

  lemma SameLeaves(d: Disk, k: Book, d': Disk, k': Book, dir: Option<string>, cur: Option<string>, n: string,
                   io: PendingIo, p: Path)
    requires Same(d, k, d', k', n) && Inv(d, k)
    ensures LeavesFor(d, dir, cur, n, io, p) == LeavesFor(d', dir, cur, n, io, p)
  {
  }

  class Writer {
    const nameOf: int -> string
    const hours: nat
    const margin: nat
    var destDir: Option<string>
    var disk: Disk
    var cur: Option<string>
    var buf: Data
    var curDest: Option<Path>
    var synced: int
    var curStart: int
    var nextSwap: int
    /** Proof bookkeeping; an ordinary field only so that a run can consult it. */
    var book: Book

    ghost predicate Valid()
      reads this
    {
      && hours > 0
      && Inv(disk, book)
      && (cur.None? ==> curDest.None? && buf == [])
      && (cur.Some? ==>
            cur.value in disk.spool && cur.value == nameOf(curStart) && nextSwap == curStart + Period(hours))
      && (cur.Some? && curDest.Some? ==> Feeds(disk, book, cur.value, curDest.value))
    }

    constructor (nameOf: int -> string, hours: int, margin: nat, destDir: Option<string>, share: map<Path, Data>)
      ensures Valid() && disk == Disk(map[], map[], share) && cur.None? && book == Book(map[], map[], map[], {})
      ensures this.destDir == destDir && this.margin == margin && this.nameOf == nameOf
      ensures this.hours == if hours <= 0 then 24 else hours
    {
      EmptyInv(share);
      this.nameOf, this.hours, this.margin := nameOf, if hours <= 0 then 24 else hours, margin;
      this.destDir, disk, cur, buf, curDest, synced := destDir, Disk(map[], map[], share), None, [], None, 0;
      curStart, nextSwap, book := 0, 0, Book(map[], map[], map[], {});
    }

    /** The file that may grow. */
    ghost function Grown(): set<Path>
      reads `curDest
    {
      if curDest.Some? then {curDest.value} else {}
    }

    /** The disk with the write buffer in the spool. */
    ghost function Drained(): Disk
      reads `disk, `cur, `buf
    {
      if cur.Some? then Flush(disk, cur.value, buf) else disk
    }

    /** Moves the first `k` buffered bytes into the spool file. */
    method FlushBuf(k: nat)
      requires Valid() && cur.Some? && k <= |buf|
      modifies `disk, `buf, `book
      ensures Valid() && buf == old(buf)[k..]
      ensures disk == Flush(old(disk), cur.value, old(buf)[..k])
      ensures book == BookFlush(old(book), cur.value, old(buf)[..k])
      ensures Grows(old(book), book)
    {
      hide Inv, Feeds, Grows;
      FlushKeeps(disk, book, cur.value, buf[..k]);
      GrowsFlush(book, cur.value, buf[..k]);
      disk := Flush(disk, cur.value, buf[..k]);
      book := BookFlush(book, cur.value, buf[..k]);
      buf := buf[k..];
    }

    /** Brings the share copy up to the spool's length, starting from what is really there. */
    method TopUp(name: string, dest: Path, recorded: int, io: TopUpIo) returns (point: int, err: bool)
      modifies `disk
      ensures disk == TopUpDisk(old(disk), name, dest, io)
      ensures err == !TopUpOk(old(disk), name, dest, io)
      ensures !err ==> point == |Held(disk.share, dest)| == |disk.spool[name]|
      ensures err ==> point == recorded
    {
      if name !in disk.spool {
        return recorded, true;
      }
      var size := |disk.spool[name]|;
      if io.statFails {
        return recorded, true;
      }
      var have := |Held(disk.share, dest)|;
      if have > size {
        return recorded, true;
      }
      if have == size {
        return have, false;
      }
      var n, failed := AppendRange(name, dest, have, io.append);
      if failed {
        return recorded, true;
      }
      return have + n, false;
    }

    /** Appends `spool[from..]` to the share file. */
    method AppendRange(name: string, dest: Path, from: nat, a: Append) returns (n: nat, err: bool)
      requires name in disk.spool && from == |Held(disk.share, dest)| < |disk.spool[name]|
      modifies `disk
      ensures disk == TopUpDisk(old(disk), name, dest, TopUpIo(false, a))
      ensures err <==> a.NotOpened? || !a.ok
      ensures !err ==> from + n == |disk.spool[name]| == |Held(disk.share, dest)|
    {
      if a.NotOpened? {
        return 0, true;
      }
      var rest := disk.spool[name][from..];
      var put := Landing(a, rest);
      disk := disk.(share := disk.share[dest := Held(disk.share, dest) + put]);
      return |put|, !a.ok;
    }

    /** Completes a file whose period has ended and drops the spool copy once both are equal. */
    method FinishOnShare(name: string, dest: Path, recorded: int, io: FinishIo) returns (ok: bool)
      requires Valid() && Feeds(disk, book, name, dest) && cur != Some(name)
      modifies `disk, `book
      ensures Valid() && Grows(old(book), book) && Settled(old(disk), disk, book)
      ensures Kept(old(disk.share), disk.share, {dest})
      ensures Elsewhere(old(disk), old(book), disk, book, name)
      ensures disk.spool == old(disk.spool) || disk.spool == old(disk.spool) - {name}
      ensures disk.side == old(disk.side) || disk.side == old(disk.side) - {name}
      ensures book.flushed == old(book.flushed)
      ensures name !in disk.spool ==> ok && Held(disk.share, dest) == old(disk.spool[name])
      ensures ok == old(Completes(disk, name, dest, io))
      ensures io.restatFails || io.topUp.statFails ==> !ok
      ensures disk.share == TopUpDisk(old(disk), name, dest, io.topUp).share
      ensures ok ==> name !in disk.side
      ensures !ok ==> disk.side == old(disk.side)
      ensures if ok && !io.removeFails then name !in disk.spool && Intact(book, Part(dest, old(disk.spool[name])))
              else disk.spool == old(disk.spool)
      ensures old(disk.spool[name] != [] || dest in disk.share) && io == FinishIo(NO_FAULT, false, false) ==>
                name !in disk.spool && name !in disk.side && Intact(book, Part(dest, old(disk.spool[name])))
    {
      hide Inv, Survives, Settled, Kept, Elsewhere, Feeds, TopUpDisk, TopUpOk;
      ghost var d0 := disk;
      FeedsItsName(disk, book, name, dest);
      var point, err := TopUp(name, dest, recorded, io.topUp);
      TopUpKeepsPrefix(d0, book, name, dest, io.topUp);
      TopUpElsewhere(d0, book, name, dest, io.topUp);
      ToppedUp(d0, book, name, dest, io);
      SameSpool(d0, disk, book);
      GrowsSame(book);
      if !err {
        err := io.restatFails || dest !in disk.share || |disk.share[dest]| != |disk.spool[name]|
            || |disk.spool[name]| != point;
      }
      if err {
        return false;
      }
      ghost var d1, k1 := disk, book;
      FinishKeeps(d0, disk, book, name, dest, io.removeFails);
      disk := disk.(side := disk.side - {name});
      if !io.removeFails {
        book := BookDone(book, name, dest, disk.spool[name]);
        disk := disk.(spool := disk.spool - {name});
      }
      ElsewhereTransitive(d0, k1, d1, k1, disk, book, name);
      return true;
    }

    // ---- files without a sidecar

    /** The first of the numbered names that is certainly free. */
    method FreeName(dir: string, name: string, from: nat, probeFails: nat -> bool) returns (p: Option<Path>)
      requires from <= 1
      ensures p.Some? ==> p.value.File? && p.value.dir == dir && p.value.name == name && p.value !in disk.share
      ensures p.Some? ==> FirstFree(disk, dir, name, from, probeFails, p.value)
      ensures p.None? ==> forall i: nat :: from <= i < 100 ==> probeFails(i) || File(dir, name, i) in disk.share
    {
      var i := from;
      while i < 100
        invariant from <= i <= 100
        invariant forall j: nat :: from <= j < i ==> probeFails(j) || File(dir, name, j) in disk.share
      {
        if !probeFails(i) && File(dir, name, i) !in disk.share {
          return Some(File(dir, name, i));
        }
        i := i + 1;
      }
      return None;
    }

    /** Copies through a temporary file and renames it last. */
    method CopyFile(name: string, dst: Path, c: Copy) returns (err: bool)
      requires name in disk.spool && dst.File?
      modifies `disk
      ensures err <==> c != Copied
      ensures disk == Copying(old(disk), name, dst, c) && Partial(dst.dir, dst.name, dst.alt) !in disk.share
    {
      var tmp := Partial(dst.dir, dst.name, dst.alt);
      if c.CopyFails? {
        disk := disk.(share := disk.share - {tmp});
        return true;
      }
      disk := disk.(share := disk.share[tmp := disk.spool[name]]);
      if c == Copied || c.landed {
        disk := disk.(share := disk.share[dst := disk.share[tmp]] - {tmp});
      }
      disk := disk.(share := disk.share - {tmp});
      return c != Copied;
    }

    /** Moves a completed spool file to the share, alongside whatever is there. */
    method FlushToDest(name: string, io: FlushIo)
      requires Valid() && name in disk.spool && name !in disk.side && cur != Some(name)
      modifies `disk, `book
      ensures Valid() && Settled(old(disk), disk, book)
      ensures Survives(old(book), book,
                       old(if Overwrites(disk, destDir, name, io)
                           then Struck(book, File(destDir.value, name, 0), disk.spool[name]) else {}))
      ensures book.flushed == old(book.flushed) && disk.side == old(disk.side)
      ensures Elsewhere(old(disk), old(book), disk, book, name)
      ensures disk.spool == old(disk.spool) || disk.spool == old(disk.spool) - {name}
      ensures Kept(old(disk.share), disk.share, if old(Overwrites(disk, destDir, name, io))
              then {File(destDir.value, name, 0)} else {})
      ensures old(Overwrites(disk, destDir, name, io)) ==>
                && File(destDir.value, name, 0) in disk.share
                && disk.share[File(destDir.value, name, 0)] == old(disk.spool[name])
      ensures old(destDir.Some? && !io.mkdirFails && (io.probeFails(0) || File(destDir.value, name, 0) !in disk.share))
              && io.copy == Copied && !io.removeFails ==>
                name !in disk.spool && Intact(book, Part(File(destDir.value, name, 0), old(disk.spool[name])))
      ensures forall p :: old(MovesTo(disk, destDir, name, io, p)) ==>
                name !in disk.spool && Intact(book, Part(p, old(disk.spool[name])))
      ensures name !in disk.spool ==> exists p :: old(MovesTo(disk, destDir, name, io, p))
      ensures Kept(old(disk.share), disk.share, {}) <==>
                !old(Overwrites(disk, destDir, name, io)
                    && disk.share[File(destDir.value, name, 0)] != disk.spool[name])
    {
      hide Inv, Feeds, Settled, Survives, Same;
      if destDir.None? || io.mkdirFails {
        NothingYet(disk, book);
        return;
      }
      var dst := File(destDir.value, name, 0);
      // only a successful answer counts as "exists"; a failing one is taken for "free"
      if !io.probeFails(0) && dst in disk.share {
        var alt := FreeName(destDir.value, name, 1, io.probeFails);
        if alt.None? {
          NothingYet(disk, book);
          return;
        }
        dst := alt.value;
      }
      FreeIsNotStruck(disk, book, dst, disk.spool[name]);
      OneTarget(disk, destDir.value, name, io, dst);
      Land(name, dst, io);
      assert name !in disk.spool ==> old(MovesTo(disk, destDir, name, io, dst));
    }

    /** Copies to the chosen name, then drops the spool file. */
    method Land(name: string, dst: Path, io: FlushIo)
      requires Valid() && name in disk.spool && name !in disk.side && cur != Some(name)
      requires dst.File? && dst.name == name
      modifies `disk, `book
      ensures Valid() && Settled(old(disk), disk, book)
      ensures Survives(old(book), book, if Lands(io.copy) then Struck(old(book), dst, old(disk).spool[name]) else {})
      ensures book.flushed == old(book.flushed) && disk.side == old(disk.side)
      ensures Elsewhere(old(disk), old(book), disk, book, name)
      ensures disk.spool == old(disk.spool) || disk.spool == old(disk.spool) - {name}
      ensures Kept(old(disk.share), disk.share, if Lands(io.copy) then {dst} else {})
      ensures Lands(io.copy) ==> dst in disk.share && disk.share[dst] == old(disk.spool[name])
      ensures if io.copy == Copied && !io.removeFails
              then name !in disk.spool && Intact(book, Part(dst, old(disk.spool[name]))) else name in disk.spool
    {
      hide Inv, Survives, Settled, Kept, Elsewhere, Feeds, BookDone, BookStruck, Struck;
      ghost var d, k := disk, book;
      LandKeeps(d, k, name, dst, io.copy, io.removeFails || io.copy != Copied);
      if Lands(io.copy) {
        book := BookStruck(book, dst, disk.spool[name]);
      }
      var err := CopyFile(name, dst, io.copy);
      if err || io.removeFails {
        return;
      }
      book := BookDone(book, name, dst, disk.spool[name]);
      disk := disk.(spool := disk.spool - {name});
    }

    // ---- the periodic sweep

    /** The destination a sidecar names, if it is still inside the configured directory. */
    predicate SideUsable(name: string)
      reads this
    {
      Usable(disk, destDir, name)
    }

    /** Moves every completed spool file to the share; the open file is never touched. What is
        overwritten on the share, and which finished files are lost by it, is said exactly. */
    method FlushPending(io: string -> PendingIo)
      requires Valid()
      modifies `disk, `book
      ensures Valid() && RemovedSafely(old(disk), disk) && SpoolShrinks(old(disk), disk) && SideShrinks(old(disk), disk)
      ensures Survives(old(book), book, old(Hits(disk, book, destDir, cur, disk.spool.Keys, io)))
      ensures book.flushed == old(book.flushed)
      ensures Spares(old(disk), old(curDest), disk, curDest, old(StruckPaths(disk, destDir, cur, disk.spool.Keys, io)))
      ensures forall n :: n in old(disk.spool) ==> GoneExactly(old(disk), destDir, cur, n, io(n), disk, book)
      ensures forall n :: n in old(disk.spool) ==>
                cur == Some(n) || destDir.None? || (cur.None? && n in old(disk.side)) ==>
                  n in disk.spool && disk.spool[n] == old(disk.spool)[n]
    {
      hide GoneExactly, Inv, Feeds, Survives, Hits, StruckPaths, Hit, Strikes, Spares, Kept, SweepState, Settled, Same;
      if destDir.None? {
        SweepStart(disk, book, destDir, cur, io);
        SweepEnd(disk, book, disk, book, destDir, cur, curDest, {}, io);
        StaysPut(disk, disk, book, destDir, cur, io);
        return;
      }
      ghost var d, k, handled: set<string> := disk, book, {};
      SweepStart(disk, book, destDir, cur, io);
      var entries := disk.spool.Keys;
      while entries != {}
        invariant Valid() && entries <= disk.spool.Keys && handled + entries == d.spool.Keys && handled !! entries
        invariant SweepState(d, k, disk, book, destDir, cur, handled, io) && book.flushed == k.flushed
        decreases entries
      {
        var name :| name in entries;
        entries := entries - {name};
        if cur == Some(name) || (name in disk.side && cur.None?) {
          SweepSkip(d, k, disk, book, destDir, cur, handled, name, io);
        } else {
          ghost var before, books := disk, book;
          FlushOne(name, io(name));
          SweepStep(d, k, before, books, disk, book, destDir, cur, handled, name, io);
          OthersStay(before, books, disk, book, name, entries);
        }
        handled := handled + {name};
      }
      SweepEnd(d, k, disk, book, destDir, cur, curDest, handled, io);
      StaysPut(d, disk, book, destDir, cur, io);
    }

    /** One entry of the sweep. */
    method FlushOne(name: string, io: PendingIo)
      requires Valid() && destDir.Some? && name in disk.spool && cur != Some(name) && (name in disk.side ==> cur.Some?)
      modifies `disk, `book
      ensures Valid() && Settled(old(disk), disk, book) && SpoolShrinks(old(disk), disk) && SideShrinks(old(disk), disk)
      ensures Survives(old(book), book, old(Hit(disk, book, destDir, cur, name, io)))
      ensures book.flushed == old(book.flushed)
      ensures Elsewhere(old(disk), old(book), disk, book, name)
      ensures Kept(old(disk.share), disk.share,
                   Dests(old(disk)) + if old(Strikes(disk, destDir, cur, name, io)) then {File(destDir.value, name, 0)}
                       else {})
      ensures GoneExactly(old(disk), destDir, cur, name, io, disk, book)
    {
      hide Inv, Settled, Survives, Kept, Feeds;
      if name in disk.side {
        if SideUsable(name) {
          SideFeeds(disk, book, name);
          var _ := FinishOnShare(name, disk.side[name].dest, disk.side[name].synced, io.finish);
          assert name !in disk.spool ==> old(LeavesFor(disk, destDir, cur, name, io, disk.side[name].dest));
          KeptFeeding(old(disk), disk.share, name);
          return;
        }
        ClearSideKeeps(disk, book, name);
        disk := disk.(side := disk.side - {name});
      }
      ghost var d, k := disk, book;
      MovesSame(old(disk), d, destDir, cur, name, io);
      FlushToDest(name, io.flush);
      ElsewhereTransitive(old(disk), k, d, k, disk, book, name);
      SettledFrom(old(disk), d, disk, book);
      KeptMore(old(disk), disk.share, if old(Overwrites(disk, destDir, name, io.flush))
          then {File(destDir.value, name, 0)} else {});
    }

    // ---- the open file

    /** Records the destination and sync point in the sidecar. */
    method SaveState(name: string, fails: bool)
      requires Valid() && cur == Some(name)
      modifies `disk
      ensures Valid()
      ensures disk.spool == old(disk.spool) && disk.share == old(disk.share)
      ensures disk.side == if curDest.Some? && !fails then old(disk.side)[name := Side(curDest.value, synced)]
                           else old(disk.side)
      ensures Dests(disk) <= Dests(old(disk)) + if curDest.Some? then {curDest.value} else {}
    {
      hide Inv;
      if curDest.Some? && !fails {
        SideKeeps(disk, book, name, Side(curDest.value, synced));
        disk := disk.(side := disk.side[name := Side(curDest.value, synced)]);
      }
    }

    /** Opens the file of the current period. A restart with a usable sidecar resumes the same
        share file; otherwise a name nothing uses is chosen. */
    method Open(now: int, io: OpenIo)
      requires Valid() && cur.None?
      modifies `disk, `cur, `buf, `curDest, `synced, `curStart, `nextSwap, `book
      ensures Valid() && buf == [] && cur == Some(nameOf(Start(hours, now)))
      ensures curStart == Start(hours, now) && nextSwap == Next(hours, now)
      ensures disk.spool == Flush(old(disk), cur.value, []).spool && disk.share == old(disk.share)
      ensures book == BookFlush(old(book), cur.value, []) && Grows(old(book), book)
      ensures destDir.Some? && !io.mkdirFails && old(SideUsable(nameOf(Start(hours, now)))) ==>
                curDest == Some(old(disk.side[nameOf(Start(hours, now))].dest))
      ensures curDest.Some? && !old(SideUsable(nameOf(Start(hours, now)))) ==> curDest.value !in disk.share
      ensures curDest.Some? ==> curDest.value.File? && destDir == Some(curDest.value.dir)
      ensures curDest.Some? && !io.statFails ==> synced <= |Held(disk.share, curDest.value)|
      ensures curDest.Some? ==>
                var recorded := if old(SideUsable(nameOf(Start(hours, now))))
                                then old(disk.side)[cur.value].synced else 0;
                var held := |Held(disk.share, curDest.value)|;
                synced == if io.statFails then recorded else if curDest.value !in disk.share then 0
                          else if recorded <= held then recorded else held
      ensures destDir.None? || io.mkdirFails ==> curDest.None? && disk.side == old(disk.side)
      ensures destDir.Some? && !io.mkdirFails && !old(SideUsable(nameOf(Start(hours, now)))) ==>
                if curDest.Some? then FirstFree(disk, destDir.value, cur.value, 0, io.probeFails, curDest.value)
                else forall i: nat :: i < 100 ==> io.probeFails(i) || File(destDir.value, cur.value, i) in disk.share
      ensures curDest.Some? && (old(SideUsable(nameOf(Start(hours, now)))) || !io.saveFails) ==>
                Records(cur.value, curDest.value)
      ensures disk.side - {cur.value} == old(disk.side) - {cur.value}
      ensures Spares(old(disk), None, disk, curDest, {})
    {
      hide Inv, Feeds, Next, Start, Spares;
      var name := OpenSpool(now);
      SparesShare(old(disk), None, disk, None);
      if destDir.None? || io.mkdirFails {
        return;
      }
      ghost var d := disk;
      ChooseDest(name, io);
      SparesThen(old(disk), None, d, None, disk, curDest);
      // the share's actual length outranks the record
      if curDest.Some? && !io.statFails {
        if curDest.value !in disk.share {
          synced := 0;
        } else if |disk.share[curDest.value]| < synced {
          synced := |disk.share[curDest.value]|;
        }
      }
    }

    /** Appends to the spool file rather than truncating it: a restart keeps what is there. */
    method OpenSpool(now: int) returns (name: string)
      requires Valid() && cur.None?
      modifies `disk, `cur, `buf, `curDest, `synced, `curStart, `nextSwap, `book
      ensures Valid() && buf == [] && cur == Some(name) && curDest.None? && name == nameOf(Start(hours, now))
      ensures curStart == Start(hours, now) && nextSwap == Next(hours, now) && synced == 0
      ensures disk == Flush(old(disk), name, []) && book == BookFlush(old(book), name, []) && Grows(old(book), book)
    {
      hide Inv, Feeds, Next, Grows, Survives;
      nextSwap := SwapBoundary(hours, now);
      BoundaryUnique(hours, now, nextSwap, Next(hours, now));
      curStart := nextSwap - Period(hours);
      name := nameOf(curStart);
      FlushKeeps(disk, book, name, []);
      GrowsFlush(book, name, []);
      disk, book := Flush(disk, name, []), BookFlush(book, name, []);
      cur, buf, curDest, synced := Some(name), [], None, 0;
    }

    /** Settles once and for all which share file the open file feeds. */
    method ChooseDest(name: string, io: OpenIo)
      requires Valid() && cur == Some(name) && destDir.Some? && curDest.None?
      modifies `disk, `curDest, `synced
      ensures Valid()
      ensures disk.spool == old(disk.spool) && disk.share == old(disk.share)
      ensures old(SideUsable(name)) ==> curDest == Some(old(disk.side[name].dest))
      ensures curDest.Some? && !old(SideUsable(name)) ==> curDest.value !in disk.share
      ensures Spares(old(disk), None, disk, curDest, {})
      ensures !old(SideUsable(name)) ==>
                if curDest.Some? then FirstFree(disk, destDir.value, name, 0, io.probeFails, curDest.value)
                else forall i: nat :: i < 100 ==> io.probeFails(i) || File(destDir.value, name, i) in disk.share
      ensures curDest.Some? && (old(SideUsable(name)) || !io.saveFails) ==> Records(name, curDest.value)
      ensures synced == if old(SideUsable(name)) then old(disk.side)[name].synced else old(synced)
      ensures disk.side - {name} == old(disk.side) - {name}
      ensures curDest.Some? ==> curDest.value.File? && destDir == Some(curDest.value.dir)
    {
      hide Inv, Feeds;
      if SideUsable(name) {
        SideFeeds(disk, book, name);
        curDest, synced := Some(disk.side[name].dest), disk.side[name].synced;
      } else {
        var p := FreeName(destDir.value, name, 0, io.probeFails);
        if p.Some? {
          FreshFeeds(disk, book, name, p.value);
        }
        curDest := p;
        SaveState(name, io.saveFails);
      }
    }

    /** Appends what was written since the last sync to the share. */
    method SyncToDest(io: SyncIo)
      requires Valid()
      modifies `disk, `buf, `synced, `book
      ensures Valid() && Grows(old(book), book)
      ensures cur.None? || curDest.None? ==> disk == old(disk) && buf == old(buf) && book == old(book)
      ensures cur.Some? && curDest.Some? ==>
                && buf == [] && book == BookFlush(old(book), cur.value, old(buf))
                && disk.spool == Flush(old(disk), cur.value, old(buf)).spool
                && (io.topUp == NO_FAULT ==> Held(disk.share, curDest.value) == disk.spool[cur.value])
                && disk.share
                   == TopUpDisk(Flush(old(disk), cur.value, old(buf)), cur.value, curDest.value, io.topUp).share
                && (io.topUp == NO_FAULT ==> synced == |disk.spool[cur.value]|)
                && (io == SyncIo(NO_FAULT, false) ==>
                      disk.side == old(disk.side)[cur.value := Side(curDest.value, |disk.spool[cur.value]|)])
                && (disk.side == old(disk.side)
                    || disk.side == old(disk.side)[cur.value := Side(curDest.value, synced)])
      ensures Spares(old(disk), old(curDest), disk, curDest, {}) && Dests(disk) <= Dests(old(disk)) + Grown()
      ensures Kept(old(disk.share), disk.share, Grown())
    {
      hide Inv;
      if cur.None? || curDest.None? {
        return;
      }
      assert buf[..|buf|] == buf;
      FlushBuf(|buf|);
      ghost var d := disk;
      TopUpKeepsPrefix(disk, book, cur.value, curDest.value, io.topUp);
      var point, err := TopUp(cur.value, curDest.value, synced, io.topUp);
      if err {
        TopUpHealsOk(d, book, cur.value, curDest.value, io.topUp);
        return;
      }
      synced := point;
      SaveState(cur.value, io.saveFails);
    }

    /** Syncs, flushes and lets go of the open file. */
    method Suspend(io: SyncIo) returns (dest: Option<Path>, point: int)
      requires Valid() && cur.Some?
      modifies `disk, `cur, `buf, `curDest, `synced, `book
      ensures Valid() && cur.None? && Grows(old(book), book) && dest == old(curDest)
      ensures dest.Some? ==> Feeds(disk, book, old(cur.value), dest.value)
      ensures disk.spool == Flush(old(disk), old(cur.value), old(buf)).spool
      ensures forall n :: FlushedOf(book, n) == FlushedOf(old(book), n) + (if n == old(cur.value) then old(buf) else [])
      ensures Kept(old(disk.share), disk.share, old(Grown())) && old(disk.share.Keys) <= disk.share.Keys
      ensures Spares(old(disk), old(curDest), disk, None, {}) && Dests(disk) <= Dests(old(disk)) + old(Grown())
      ensures disk.side == old(disk.side)
              || (dest.Some? && disk.side == old(disk.side)[old(cur.value) := Side(dest.value, point)])
      ensures dest.Some? && io == SyncIo(NO_FAULT, false) ==>
                disk.side == old(disk.side)[old(cur.value) := Side(dest.value, |disk.spool[old(cur.value)]|)]
                && Held(disk.share, dest.value) == disk.spool[old(cur.value)]
    {
      hide Inv, Feeds, Spares, Kept, Dests, Grown, BookFlush, Grows, Survives;
      ghost var k := book;
      SyncToDest(io);
      assert buf[..|buf|] == buf;
      EmptyFlush(disk, book, cur.value);
      ghost var d, j := disk, book;
      FlushBuf(|buf|);
      SameDests(d, disk);
      FlushedOnce(k, cur.value, old(buf));
      FlushedTwice(k, cur.value, old(buf));
      SparesShare(d, curDest, disk, None);
      SparesThen(old(disk), old(curDest), d, curDest, disk, None);
      GrowsTransitive(k, j, book);
      dest, point := curDest, synced;
      cur, buf, curDest, synced := None, [], None, 0;
    }

    /** The sidecar of `name` names its destination. */
    predicate Records(name: string, dest: Path)
      reads this
    {
      name in disk.side && disk.side[name].dest == dest
    }

    /** Finishes or suspends the open file. */
    method CloseCurrent(complete: bool, io: CloseIo)
      requires Valid()
      modifies `disk, `cur, `buf, `curDest, `synced, `book
      ensures Valid() && cur.None? && Grows(old(book), book)
      ensures old(cur.None?) ==> disk == old(disk) && book == old(book)
      ensures old(cur.Some?) ==>
                && Settled(Flush(old(disk), old(cur.value), old(buf)), disk, book)
                && SpoolShrinks(Flush(old(disk), old(cur.value), old(buf)), disk)
                && (forall n ::
                      FlushedOf(book, n) == FlushedOf(old(book), n) + (if n == old(cur.value) then old(buf) else []))
                && (!complete || old(curDest.None?) ==> disk.spool == Flush(old(disk), old(cur.value), old(buf)).spool)
                && Kept(old(disk.share), disk.share, if old(curDest.Some?) then {old(curDest.value)} else {})
      ensures RemovedSafely(old(Drained()), disk) && Spares(old(disk), old(curDest), disk, None, {})
      ensures complete && io.finish == FinishIo(NO_FAULT, false, false) && old(cur.Some? && curDest.Some?)
              && old(Drained().spool[cur.value] != [] || curDest.value in disk.share) ==>
                var name := old(cur.value);
                && name !in disk.spool && name !in disk.side
                && Intact(book, Part(old(curDest.value), old(Drained().spool[cur.value])))
      ensures !complete && old(cur.Some? && curDest.Some?) ==>
                && (io.sync == SyncIo(NO_FAULT, false) || old(Records(cur.value, curDest.value)) ==>
                      Records(old(cur.value), old(curDest.value)))
                && (io.sync == SyncIo(NO_FAULT, false) ==>
                      Held(disk.share, old(curDest.value)) == disk.spool[old(cur.value)])
    {
      hide Inv, Feeds, Settled, SpoolShrinks;
      if cur.None? {
        NothingRemoved(disk, disk);
        return;
      }
      var name := cur.value;
      var dest, point := Suspend(io.sync);
      SameSpool(Flush(old(disk), name, old(buf)), disk, book);
      SettledIsSafe(Flush(old(disk), name, old(buf)), disk, book);
      if !complete || dest.None? {
        return;
      }
      ghost var d := disk;
      var _ := FinishOnShare(name, dest.value, point, io.finish);
      SameSpoolSettled(Flush(old(disk), name, old(buf)), d, disk, name, book);
      SettledIsSafe(Flush(old(disk), name, old(buf)), disk, book);
      assert Dests(disk) <= Dests(d);
      SparesKept(old(disk), old(curDest), disk, None, {});
    }

    /** The file a frame arriving now goes to: a new one once the period and its margin are over. */
    method Ready(now: int, close: CloseIo, open: OpenIo)
      requires Valid()
      modifies `disk, `cur, `buf, `curDest, `synced, `curStart, `nextSwap, `book
      ensures Valid() && cur.Some? && Grows(old(book), book)
      ensures old(cur).Some? && now <= old(nextSwap) + margin ==>
                && cur == old(cur) && curDest == old(curDest) && curStart == old(curStart) && nextSwap == old(nextSwap)
                && buf == old(buf) && book == old(book) && disk == old(disk)
      ensures old(cur).None? || now > old(nextSwap) + margin ==> curStart <= now < curStart + Period(hours) && buf == []
      ensures forall n :: Taken(book, cur, buf, n) == Taken(old(book), old(cur), old(buf), n)
      ensures RemovedSafely(old(Drained()), disk) && Spares(old(disk), old(curDest), disk, curDest, {})
      ensures close.finish == FinishIo(NO_FAULT, false, false) && old(cur.Some? && curDest.Some?)
              && now > old(nextSwap) + margin
              && old(Drained().spool[cur.value] != [] || curDest.value in disk.share) ==>
                Intact(book, Part(old(curDest.value), old(Drained().spool[cur.value])))
    {
      hide Inv, Feeds, Settled, SpoolShrinks, Next, Kept, Spares, RemovedSafely;
      SparesShare(disk, curDest, disk, curDest);
      if cur.None? {
        Open(now, open);
        NothingRemoved(old(Drained()), disk);
        StartBefore(hours, now);
        assert forall n :: FlushedOf(book, n) + [] == FlushedOf(book, n);
      } else if now <= nextSwap + margin {
        NothingRemoved(old(Drained()), disk);
      } else {
        Rotate(now, close, open);
      }
    }

    /** Finishes the open file and opens the one for now. */
    method Rotate(now: int, close: CloseIo, open: OpenIo)
      requires Valid() && cur.Some?
      modifies `disk, `cur, `buf, `curDest, `synced, `curStart, `nextSwap, `book
      ensures Valid() && cur.Some? && Grows(old(book), book)
      ensures curStart <= now < curStart + Period(hours) && buf == []
      ensures forall n :: FlushedOf(book, n) == Taken(old(book), old(cur), old(buf), n)
      ensures RemovedSafely(old(Drained()), disk) && Spares(old(disk), old(curDest), disk, curDest, {})
      ensures close.finish == FinishIo(NO_FAULT, false, false) && old(curDest.Some?)
              && old(Drained().spool[cur.value] != [] || curDest.value in disk.share) ==>
                && Intact(book, Part(old(curDest.value), old(Drained().spool[cur.value])))
                && (cur != old(cur) ==> old(cur.value) !in disk.spool && old(cur.value) !in disk.side)
    {
      hide Inv, Feeds, Settled, SpoolShrinks, Next, Kept, Spares, RemovedSafely, Drained, Grows, BookFlush, Grown;
      CloseCurrent(true, close);
      ghost var d, k := disk, book;
      Open(now, open);
      StartBefore(hours, now);
      FlushedOnce(k, cur.value, []);
      GrowsTransitive(old(book), k, book);
      SafeLater(old(Drained()), d, disk);
      SparesThen(old(disk), old(curDest), d, None, disk, curDest);
      IntactLater(k, book);
      assert old(cur.value) in disk.side - {cur.value} <==> old(cur.value) in d.side - {cur.value};
      forall n ensures FlushedOf(book, n) == Taken(old(book), old(cur), old(buf), n) {
        assert FlushedOf(book, n) == FlushedOf(k, n) + [];
      }
    }

    /** Appends a frame. */
    method Write(b: Data, now: int, io: WriteIo)
      requires Valid()
      modifies `disk, `cur, `buf, `curDest, `synced, `curStart, `nextSwap, `book
      ensures Valid() && cur.Some? && Grows(old(book), book)
      ensures forall n :: Taken(book, cur, buf, n)
                       == Taken(old(book), old(cur), old(buf), n) + (if cur == Some(n) then b else [])
      ensures (old(cur).Some? ==> old(curStart) <= now) ==> curStart <= now <= curStart + Period(hours) + margin
      ensures |buf| <= Left(Buffered(old(cur), old(buf), cur.value) + |b|, io.spill)
      ensures io.close.finish == FinishIo(NO_FAULT, false, false) && old(cur.Some? && curDest.Some?)
              && now > old(nextSwap) + margin
              && old(Drained().spool[cur.value] != [] || curDest.value in disk.share) ==>
                Intact(book, Part(old(curDest.value), old(Drained().spool[cur.value])))
      ensures RemovedSafely(old(Drained()), disk) && Spares(old(disk), old(curDest), disk, curDest, {})
      ensures old(cur).Some? && now <= old(nextSwap) + margin ==>
                var all := old(buf) + b;
                var j := if io.spill < |all| then io.spill else |all|;
                && cur == old(cur) && curDest == old(curDest) && buf == all[j..]
                && disk == Flush(old(disk), cur.value, all[..j]) && book == BookFlush(old(book), cur.value, all[..j])
    {
      hide Inv, Feeds, Taken, BookFlush, Spares, RemovedSafely, Next;
      Ready(now, io.close, io.open);
      ghost var k, held, d := book, buf, disk;
      buf := buf + b;
      var j := if io.spill < |buf| then io.spill else |buf|;
      FlushBuf(j);
      SafeLater(old(Drained()), d, disk);
      SparesShare(d, curDest, disk, curDest);
      SparesThen(old(disk), old(curDest), d, curDest, disk, curDest);
      GrowsTransitive(old(book), k, book);
      IntactLater(k, book);
      SpillKeeps(k, cur.value, held, b, j);
    }

    /** Pushes the write buffer into the spool file. */
    method Sync()
      requires Valid()
      modifies `disk, `buf, `book
      ensures Valid() && Grows(old(book), book)
      ensures forall n :: FlushedOf(book, n) == Taken(old(book), old(cur), old(buf), n)
      ensures cur.Some? ==> buf == []
      ensures disk == old(Drained())
    {
      hide Inv, Feeds;
      if cur.Some? {
        assert buf[..|buf|] == buf;
        FlushBuf(|buf|);
      }
    }

    // ---- the world around the writer

    /** The process dies, or stops, and starts again, perhaps with another share directory. What
        was still buffered is lost; the disk is not. */
    method Restart(dir: Option<string>)
      requires Valid()
      modifies `destDir, `cur, `buf, `curDest, `synced
      ensures Valid() && cur.None? && destDir == dir
    {
      destDir, cur, buf, curDest, synced := dir, None, [], None, 0;
    }

    /** The share loses the tail of a file, or the file, while the spool still has the bytes. */
    method Truncate(p: Path, x: Option<Data>)
      requires Valid() && p !in book.done && p in disk.share && (x.Some? ==> x.value <= disk.share[p])
      modifies `disk
      ensures Valid()
      ensures disk == old(disk).(share := if x.Some? then old(disk.share)[p := x.value] else old(disk.share) - {p})
    {
      hide Inv;
      TruncateKeeps(disk, book, p, x);
      disk := disk.(share := if x.Some? then disk.share[p := x.value] else disk.share - {p});
    }

    /** Somebody else writes a file the writer has not chosen. */
    method Foreign(p: Path, x: Option<Data>)
      requires Valid() && p !in book.done && curDest != Some(p) && p !in Dests(disk)
      modifies `disk
      ensures Valid()
      ensures disk == old(disk).(share := if x.Some? then old(disk.share)[p := x.value] else old(disk.share) - {p})
    {
      hide Inv;
      assert forall n :: n in disk.side ==> disk.side[n].dest in Dests(disk);
      OtherFileKeeps(disk, book, p, x);
      disk := disk.(share := if x.Some? then disk.share[p := x.value] else disk.share - {p});
    }
  }

  /** The promise never to overwrite really fails: a file somebody else owns is overwritten when
      asking for its name fails and the copy then goes through. */
  method ForeignFileLost() returns (w: Writer, ghost foreign: map<Path, Data>)
    ensures fresh(w) && foreign == map[File("share", "a", 0) := [1]]
    ensures File("share", "a", 0) in w.disk.share && w.disk.share[File("share", "a", 0)] == []
  {
    hide Inv;
    var p := File("share", "a", 0);
    foreign := map[p := [1]];
    w := new Writer(_ => "a", 24, 0, Some("share"), map[p := [1]]);
    w.Open(0, OpenIo(true, _ => false, false, false));
    w.Restart(Some("share"));
    w.FlushToDest("a", FlushIo(false, _ => true, Copied, false));
  }

  /** A finished file of the writer's own is lost the same way, when its name comes up again. */
  method FinishedFileLost() returns (w: Writer)
    ensures fresh(w) && w.Valid() && FlushedOf(w.book, "a") == [1, 2]
    ensures var p := File("share", "a", 0);
            p in w.disk.share && w.disk.share[p] == [2] && Part(p, [1]) in w.book.lost
  {
    hide Inv, Feeds, Start, Next, Settled, Survives, Elsewhere, Spares, RemovedSafely, Kept, Usable, Period;
    w := new Writer(_ => "a", 24, 0, Some("share"), map[]);
    Archived(w, [1], false);
    Archived(w, [2], true);
  }

  /** A suspended or interrupted file resumes its share file when it is opened again in the same
      period, whatever the share did in between, if its sidecar was written. */
  method Resumed(w: Writer, clean: bool, close: CloseIo, now: int, io: OpenIo)
    requires w.Valid() && w.cur.Some? && w.curDest.Some? && w.destDir == Some(w.curDest.value.dir)
    requires if clean then close.sync == SyncIo(NO_FAULT, false) else w.Records(w.cur.value, w.curDest.value)
    requires w.curStart == Start(w.hours, now)
    modifies w
    ensures w.Valid() && w.cur == old(w.cur)
    ensures if io.mkdirFails then w.curDest.None? else w.curDest == old(w.curDest)
    ensures clean ==> w.disk.spool == old(w.Drained()).spool
    ensures !clean ==> w.disk.spool == old(w.disk.spool) && w.disk.share == old(w.disk.share)
  {
    hide Inv, Feeds, Start, Next, Spares, RemovedSafely, Period, Grows, Taken, Held, Settled, Kept;
    if clean {
      w.CloseCurrent(false, close);
    } else {
      w.Restart(w.destDir);
    }
    OpenedAgain(w.disk.spool);
    w.Open(now, io);
  }

  lemma OpenedAgain(spool: map<string, Data>)
    ensures forall n :: n in spool ==> spool[n := Spooled(spool, n) + []] == spool
  {
    forall n | n in spool ensures spool[n := Spooled(spool, n) + []] == spool {
      assert Spooled(spool, n) + [] == spool[n];
    }
  }

  /** A file that was opened but never written, and whose share file does not exist, is never
      finished: without any fault it stays in the spool, sidecar and all, at every sweep. */
  method EmptyFileStays(sweeps: nat) returns (w: Writer)
    ensures fresh(w) && w.Valid() && w.cur == Some("b")
    ensures "a" in w.disk.spool && w.disk.spool["a"] == [] && w.Records("a", File("share", "a", 0))
  {
    hide Inv, Feeds, Spares, RemovedSafely, Grows, Taken, Settled, Kept, Next, Survives, StruckPaths, Hits;
    w := new Writer(t => if t < DAY then "a" else "b", 24, 0, Some("share"), map[]);
    var open := OpenIo(false, _ => false, false, false);
    StartBefore(24, 0);
    StartBefore(24, DAY);
    w.Open(0, open);
    FirstIsFree(w.disk, "share", "a", w.curDest);
    w.Restart(Some("share"));
    ghost var d := w.disk;
    w.Open(DAY, open);
    assert "a" in d.side - {"b"} && (d.side - {"b"})["a"] == (w.disk.side - {"b"})["a"];
    var i := 0;
    while i < sweeps
      invariant fresh(w) && w.Valid() && w.cur == Some("b") && w.destDir == Some("share")
      invariant "a" in w.disk.spool && w.disk.spool["a"] == [] && w.Records("a", File("share", "a", 0))
      invariant File("share", "a", 0) !in w.disk.share
    {
      ghost var d := w.disk;
      w.FlushPending(_ => PendingIo(FinishIo(NO_FAULT, false, false), FlushIo(false, _ => false, Copied, false)));
      NeverFed(d, w.disk, w.book);
      i := i + 1;
    }
  }

  lemma FirstIsFree(d: Disk, dir: string, name: string, p: Option<Path>)
    requires d.share == map[]
    requires if p.Some? then FirstFree(d, dir, name, 0, _ => false, p.value)
             else forall i: nat :: i < 100 ==> File(dir, name, i) in d.share
    ensures p == Some(File(dir, name, 0))
  {
    assert File(dir, name, 0) !in d.share;
  }

  lemma NeverFed(d: Disk, d': Disk, k': Book)
    requires "a" in d.spool && d.spool["a"] == [] && "a" in d.side && d.side["a"].dest == File("share", "a", 0)
    requires File("share", "a", 0) !in d.share
    requires GoneExactly(d, Some("share"), Some("b"), "a",
                         PendingIo(FinishIo(NO_FAULT, false, false), FlushIo(false, _ => false, Copied, false)), d', k')
    ensures "a" in d'.spool && "a" in d'.side && d'.side["a"] == d.side["a"] && File("share", "a", 0) !in d'.share
  {
  }

  /** One file, written, closed by a restart and swept to its plain name. */
  method Archived(w: Writer, b: Data, failing: bool)
    requires w.Valid() && w.cur.None? && w.destDir == Some("share") && w.nameOf(Start(w.hours, 0)) == "a"
    requires "a" !in w.disk.spool && "a" !in w.disk.side && (failing || File("share", "a", 0) !in w.disk.share)
    modifies w
    ensures w.Valid() && w.cur.None? && w.destDir == old(w.destDir)
    ensures "a" !in w.disk.spool && "a" !in w.disk.side
    ensures FlushedOf(w.book, "a") == old(FlushedOf(w.book, "a")) + b
    ensures Intact(w.book, Part(File("share", "a", 0), b))
    ensures File("share", "a", 0) in w.disk.share && w.disk.share[File("share", "a", 0)] == b
    ensures w.book.lost == old(w.book.lost)
                         + if failing then old(Struck(w.book, File("share", "a", 0), b)) else {}
  {
    hide Inv, Feeds, Settled, Elsewhere, Kept, Intact, Usable;
    Spooling(w, b);
    FreeIsNotStruck(w.disk, w.book, File("share", "a", 0), b);
    ghost var lost := w.book.lost;
    assert lost + {} == lost;
    w.FlushToDest("a", FlushIo(false, _ => failing, Copied, false));
    IntactHeld(w.disk, w.book, Part(File("share", "a", 0), b));
  }

  method Spooling(w: Writer, b: Data)
    requires w.Valid() && w.cur.None? && w.destDir == Some("share") && w.nameOf(Start(w.hours, 0)) == "a"
    requires "a" !in w.disk.spool && "a" !in w.disk.side
    modifies w
    ensures w.Valid() && w.cur.None? && w.destDir == old(w.destDir)
    ensures "a" in w.disk.spool && w.disk.spool["a"] == b && "a" !in w.disk.side && w.disk.share == old(w.disk.share)
    ensures FlushedOf(w.book, "a") == old(FlushedOf(w.book, "a")) + b
    ensures w.book.lost == old(w.book.lost) && w.book.done == old(w.book.done)
  {
    hide Inv, Feeds, Start, Next, Spares, RemovedSafely, Period, Usable, Dests, Grows, Survives, Taken, Held, Buffered,
         Left, Settled, Kept, FirstFree, Intact, Writer.Records, Writer.Drained;
    var bare := OpenIo(true, _ => false, false, false);
    var close := CloseIo(SyncIo(NO_FAULT, false), FinishIo(NO_FAULT, false, false));
    w.Open(0, bare);
    StartBefore(w.hours, 0);
    w.Write(b, 0, WriteIo(close, bare, |b|));
    assert ([] + b)[..|b|] == b;
    w.Restart(Some("share"));
  }

  // ---- whole runs

  datatype Event =
    | Arrived(b: Data, now: int, write: WriteIo)
    | Opened(at: int, open: OpenIo)
    | Synced
    | Shared(sync: SyncIo)
    | Swept(io: string -> PendingIo)
    | Closed(complete: bool, close: CloseIo)
    | Restarted(dir: Option<string>)
    | Truncated(p: Path, x: Option<Data>)
    | ForeignWrite(q: Path, y: Option<Data>)

  /** What became of the data at one event: the arriving frame went to the file of the period
      that starts at `start`; the last `count` bytes of a name were dropped; or nothing. */
  datatype Trace = Landed(name: string, start: int) | Dropped(name: string, count: nat) | Quiet

  function TimeOf(e: Event, t: int): int {
    match e
    case Arrived(_, now, _) => now
    case Opened(now, _) => now
    case _ => t
  }

  /** Times do not run backwards. */
  ghost predicate Monotone(es: seq<Event>, t: int) {
    es == [] || (TimeOf(es[0], t) >= t && Monotone(es[1..], TimeOf(es[0], t)))
  }

  function Applied(e: Event, c: Trace, n: string, taken: Data): Data {
    match c
    case Landed(m, _) => if m == n && e.Arrived? then taken + e.b else taken
    case Dropped(m, count) => if m == n && count <= |taken| then taken[..|taken| - count] else taken
    case Quiet => taken
  }

  /** The bytes accepted for a name and not dropped with a write buffer, in order. */
  function Replayed(es: seq<Event>, log: seq<Trace>, n: string, taken: Data): Data
    requires |es| == |log|
  {
    if es == [] then taken
    else Applied(es[|es| - 1], log[|es| - 1], n, Replayed(es[..|es| - 1], log[..|es| - 1], n, taken))
  }

  /** How much of a name can be in the write buffer only, after an event. */
  function Buffering(e: Event, c: Trace, n: string, have: nat): nat {
    match e
    case Arrived(b, _, io) => if c.Landed? && c.name == n then Left(have + |b|, io.spill) else 0
    case Synced => 0
    case Closed(_, _) => 0
    case Restarted(_) => 0
    case _ => have
  }

  /** The same after a run: at most what arrived for the name since the buffer was last flushed,
      less what the writes themselves pushed into the spool. */
  function Waiting(es: seq<Event>, log: seq<Trace>, n: string, have: nat): nat
    requires |es| == |log|
  {
    if es == [] then have
    else Buffering(es[|es| - 1], log[|es| - 1], n, Waiting(es[..|es| - 1], log[..|es| - 1], n, have))
  }

  /** Every frame is accepted for the file of its own period, and bytes are dropped only at a
      restart. */
  ghost predicate Explains(w: Writer, e: Event, c: Trace) {
    match e
    case Arrived(_, now, _) =>
      c.Landed? && c.name == w.nameOf(c.start) && c.start <= now <= c.start + Period(w.hours) + w.margin
    case Restarted(_) => !c.Landed?
    case _ => c == Quiet
  }

  /** The share file that an event itself may change although the writer does not own it. */
  ghost predicate MayTouch(e: Event, p: Path) {
    match e
    case Truncated(q, _) => p == q
    case ForeignWrite(q, _) => p == q
    case Swept(io) => p.File? && p.alt == 0 && io(p.name).flush.probeFails(0) && Lands(io(p.name).flush.copy)
    case _ => false
  }

  ghost function TouchedBy(w: Writer, e: Event): set<Path>
    reads w
  {
    match e
    case Truncated(q, _) => {q}
    case ForeignWrite(q, _) => {q}
    case Swept(io) => StruckPaths(w.disk, w.destDir, w.cur, w.disk.spool.Keys, io)
    case _ => {}
  }

  ghost function LostBy(w: Writer, e: Event): set<Part>
    reads w
  {
    if e.Swept? then Hits(w.disk, w.book, w.destDir, w.cur, w.disk.spool.Keys, e.io) else {}
  }

  method OpenStep(w: Writer, now: int, io: OpenIo)
    requires w.Valid()
    modifies w
    ensures w.Valid() && Grows(old(w.book), w.book)
    ensures RemovedSafely(old(w.Drained()), w.disk) && Spares(old(w.disk), old(w.curDest), w.disk, w.curDest, {})
    ensures forall n :: Taken(w.book, w.cur, w.buf, n) == old(Taken(w.book, w.cur, w.buf, n))
    ensures if old(w.cur.Some?) then w.curStart == old(w.curStart) && w.cur == old(w.cur) && w.buf == old(w.buf)
            else w.curStart <= now && w.buf == []
  {
    hide Inv, Feeds, Spares, RemovedSafely, Next, Dests;
    GrowsSame(w.book);
    SparesShare(w.disk, w.curDest, w.disk, w.curDest);
    NothingRemoved(w.Drained(), w.disk);
    if w.cur.None? {
      w.Open(now, io);
      NothingRemoved(old(w.Drained()), w.disk);
      StartBefore(w.hours, now);
      assert forall n :: FlushedOf(w.book, n) + [] == FlushedOf(w.book, n);
    }
  }

  method SyncStep(w: Writer)
    requires w.Valid()
    modifies w`disk, w`buf, w`book
    ensures w.Valid() && Grows(old(w.book), w.book)
    ensures RemovedSafely(old(w.Drained()), w.disk) && Spares(old(w.disk), old(w.curDest), w.disk, w.curDest, {})
    ensures forall n :: Taken(w.book, w.cur, w.buf, n) == old(Taken(w.book, w.cur, w.buf, n))
    ensures w.cur.Some? ==> w.buf == []
  {
    hide Inv, Feeds, Spares, RemovedSafely, Grows, BookFlush;
    w.Sync();
    NothingRemoved(old(w.Drained()), w.disk);
    SparesShare(old(w.disk), w.curDest, w.disk, w.curDest);
    assert forall n :: FlushedOf(w.book, n) + [] == FlushedOf(w.book, n);
  }

  method ShareStep(w: Writer, io: SyncIo)
    requires w.Valid()
    modifies w`disk, w`buf, w`synced, w`book
    ensures w.Valid() && Grows(old(w.book), w.book)
    ensures RemovedSafely(old(w.Drained()), w.disk) && Spares(old(w.disk), old(w.curDest), w.disk, w.curDest, {})
    ensures forall n :: Taken(w.book, w.cur, w.buf, n) == old(Taken(w.book, w.cur, w.buf, n))
    ensures w.buf == old(w.buf) || w.buf == []
  {
    hide Inv, Feeds, Spares, RemovedSafely, Grows, BookFlush, Kept, Dests;
    w.SyncToDest(io);
    NothingRemoved(old(w.Drained()), w.disk);
    if w.cur.Some? {
      FlushedOnce(old(w.book), w.cur.value, old(w.buf));
      assert forall n :: FlushedOf(w.book, n) + [] == FlushedOf(w.book, n);
    }
  }

  method SweptStep(w: Writer, io: string -> PendingIo)
    requires w.Valid()
    modifies w`disk, w`book
    ensures w.Valid() && Survives(old(w.book), w.book, old(LostBy(w, Swept(io))))
    ensures RemovedSafely(old(w.Drained()), w.disk)
    ensures Spares(old(w.disk), w.curDest, w.disk, w.curDest, old(TouchedBy(w, Swept(io))))
    ensures forall n :: Taken(w.book, w.cur, w.buf, n) == old(Taken(w.book, w.cur, w.buf, n))
  {
    hide Inv, Feeds, Spares, RemovedSafely, Survives, Hits, StruckPaths;
    w.FlushPending(io);
    if w.cur.Some? {
      SafeDrained(old(w.disk), w.cur.value, old(w.buf), w.disk);
    }
  }

  method TruncateStep(w: Writer, p: Path, x: Option<Data>)
    requires w.Valid()
    modifies w`disk
    ensures w.Valid() && w.disk.spool == old(w.disk.spool)
    ensures Spares(old(w.disk), w.curDest, w.disk, w.curDest, {p})
  {
    if p in w.disk.share && p !in w.book.done && (x.None? || x.value <= w.disk.share[p]) {
      w.Truncate(p, x);
    }
  }

  method ForeignStep(w: Writer, p: Path, x: Option<Data>)
    requires w.Valid()
    modifies w`disk
    ensures w.Valid() && w.disk.spool == old(w.disk.spool)
    ensures Spares(old(w.disk), w.curDest, w.disk, w.curDest, {p})
  {
    if p !in w.book.done && w.curDest != Some(p) && p !in Dests(w.disk) {
      w.Foreign(p, x);
    }
  }

  /** One event; what the surroundings may not do is skipped. */
  method Step(w: Writer, e: Event) returns (ghost c: Trace)
    requires w.Valid()
    modifies w
    ensures w.Valid() && Survives(old(w.book), w.book, old(LostBy(w, e)))
    ensures RemovedSafely(if e.Restarted? then old(w.disk) else old(w.Drained()), w.disk)
    ensures Spares(old(w.disk), old(w.curDest), w.disk, w.curDest, old(TouchedBy(w, e)))
    ensures forall n :: Taken(w.book, w.cur, w.buf, n) == Applied(e, c, n, old(Taken(w.book, w.cur, w.buf, n)))
    ensures forall t :: TimeOf(e, t) >= t && old(w.cur.Some? ==> w.curStart <= t) ==>
              (w.cur.Some? ==> w.curStart <= TimeOf(e, t)) && Explains(w, e, c)
    ensures c.Dropped? ==> e.Restarted? && old(w.cur) == Some(c.name) && c.count == |old(w.buf)|
    ensures forall n :: Buffered(w.cur, w.buf, n) <= Buffering(e, c, n, Buffered(old(w.cur), old(w.buf), n))
  {
    hide Inv, Feeds, Spares, RemovedSafely, Survives, Hits, StruckPaths, Next, Dests;
    c := Quiet;
    GrowsSame(w.book);
    NothingRemoved(w.Drained(), w.Drained());
    NothingRemoved(w.disk, w.disk);
    match e {
      case Arrived(b, now, io) =>
        w.Write(b, now, io);
        c := Landed(w.cur.value, w.curStart);
      case Opened(now, io) => OpenStep(w, now, io);
      case Synced => SyncStep(w);
      case Shared(io) => ShareStep(w, io);
      case Swept(io) => SweptStep(w, io);
      case Closed(complete, io) => w.CloseCurrent(complete, io);
      case Restarted(dir) =>
        if w.cur.Some? {
          c := Dropped(w.cur.value, |w.buf|);
        }
        w.Restart(dir);
        SparesShare(old(w.disk), old(w.curDest), w.disk, None);
      case Truncated(p, x) =>
        TruncateStep(w, p, x);
        NothingRemoved(old(w.Drained()), w.disk);
      case ForeignWrite(p, x) =>
        ForeignStep(w, p, x);
        NothingRemoved(old(w.Drained()), w.disk);
    }
  }

  /** In every run, whatever lands and whatever fails, sweeps that overwrite included: every byte
      flushed for a name is in a part that is intact on the share, in the spool, or in a part that
      a sweep overwrote; only such a sweep, or somebody else, changes a share file that is not
      growing; every file that may still grow is a prefix of its spool file; and what was flushed
      is exactly what arrived, in order, but for write buffers dropped at restarts: what was in
      the spool once stays accounted for, and a restart costs no more than was waiting. */
  method Run(w: Writer, es: seq<Event>, t: int) returns (ghost log: seq<Trace>)
    requires w.Valid() && Monotone(es, t) && (w.cur.Some? ==> w.curStart <= t)
    modifies w
    ensures w.Valid() && |log| == |es|
    ensures forall n: string :: FlushedOf(w.book, n) == Joined(PartsOf(w.book, n)) + Spooled(w.disk.spool, n)
    ensures forall n: string, c :: c in PartsOf(w.book, n) && c !in w.book.lost ==>
              c.at in w.disk.share && w.disk.share[c.at] == c.bytes
    ensures forall c :: c in w.book.lost && c !in old(w.book.lost) ==>
              exists i :: 0 <= i < |es| && MayTouch(es[i], c.at)
    ensures forall p :: p in old(w.disk.share) && p.File? && old(w.curDest) != Some(p) && p !in old(Dests(w.disk))
                        && (forall i :: 0 <= i < |es| ==> !MayTouch(es[i], p)) ==>
              p in w.disk.share && w.disk.share[p] == old(w.disk.share)[p]
    ensures forall n :: n in w.disk.side ==> Held(w.disk.share, w.disk.side[n].dest) <= Spooled(w.disk.spool, n)
    ensures forall i :: 0 <= i < |es| ==> Explains(w, es[i], log[i])
    ensures forall n :: Taken(w.book, w.cur, w.buf, n) == Replayed(es, log, n, old(Taken(w.book, w.cur, w.buf, n)))
    ensures forall n: string :: old(FlushedOf(w.book, n)) <= FlushedOf(w.book, n)
    ensures forall i :: 0 <= i < |es| && log[i].Dropped? ==>
              log[i].count <= WaitingAt(es, log, old(w.cur), old(w.buf), log[i].name, i)
  {
    hide Grows, Joined, Survives, Spares, Explains, MayTouch, Applied, RemovedSafely, Taken, Dests, Buffering, Buffered,
         FlushedOf;
    log := [];
    RunStart(w.book, w.disk, w.curDest);
    DropsNone(w.cur, w.buf);
    ghost var k0, d0, c0 := w.book, w.disk, w.curDest;
    var i, now := 0, t;
    assert es[0..] == es && es[..0] == [];
    while i < |es|
      invariant 0 <= i == |log| <= |es| && w.Valid() && Monotone(es[i..], now) && (w.cur.Some? ==> w.curStart <= now)
      invariant RunState(k0, d0, c0, w.book, w.disk, w.curDest, es[..i])
      invariant forall j :: 0 <= j < i ==> Explains(w, es[j], log[j])
      invariant forall n ::
                  Taken(w.book, w.cur, w.buf, n) == Replayed(es[..i], log, n, old(Taken(w.book, w.cur, w.buf, n)))
      invariant DropsCovered(es[..i], log, old(w.cur), old(w.buf), w.cur, w.buf)
    {
      hide Inv, Feeds, RunState, DropsCovered;
      ghost var k, d, c, hit, touched := w.book, w.disk, w.curDest, LostBy(w, es[i]), TouchedBy(w, es[i]);
      ghost var cur, buf := w.cur, w.buf;
      assert es[i..][0] == es[i] && es[i..][1..] == es[i + 1..];
      TouchedMay(w, es[i]);
      ghost var trace := Step(w, es[i]);
      RunMore(k0, d0, c0, k, d, c, w.book, w.disk, w.curDest, es[..i], es[i], hit, touched);
      assert es[..i + 1] == es[..i] + [es[i]];
      DropsMore(es[..i], log, es[i], trace, old(w.cur), old(w.buf), cur, buf, w.cur, w.buf);
      forall n ensures Replayed(es[..i + 1], log + [trace], n, old(Taken(w.book, w.cur, w.buf, n)))
                    == Applied(es[i], trace, n, Replayed(es[..i], log, n, old(Taken(w.book, w.cur, w.buf, n)))) {
        ReplayedMore(es[..i], log, es[i], trace, n, old(Taken(w.book, w.cur, w.buf, n)));
      }
      log := log + [trace];
      now := TimeOf(es[i], now);
      i := i + 1;
    }
    assert es[..i] == es;
    InvMeans(w.disk, w.book);
    RunMeans(k0, d0, c0, w.book, w.disk, w.curDest, es);
    DropsMean(es, log, old(w.cur), old(w.buf), w.cur, w.buf);
  }

  /** No restart dropped more than was waiting, and no more than is waiting now is buffered. */
  ghost predicate DropsCovered(es: seq<Event>, log: seq<Trace>, cur0: Option<string>, buf0: Data,
                               cur: Option<string>, buf: Data)
    requires |es| == |log|
  {
    && (forall i :: 0 <= i < |es| && log[i].Dropped? ==> log[i].count <= WaitingAt(es, log, cur0, buf0, log[i].name, i))
    && (forall n :: Buffered(cur, buf, n) <= WaitingAt(es, log, cur0, buf0, n, |es|))
  }

  /** What may be waiting before the `i`-th event, from a writer that starts with `buf` for `cur`. */
  function WaitingAt(es: seq<Event>, log: seq<Trace>, cur: Option<string>, buf: Data, n: string, i: nat): nat
    requires i <= |es| == |log|
  {
    Waiting(es[..i], log[..i], n, Buffered(cur, buf, n))
  }

  lemma DropsNone(cur: Option<string>, buf: Data)
    ensures DropsCovered([], [], cur, buf, cur, buf)
  {
  }

  lemma DropsMean(es: seq<Event>, log: seq<Trace>, cur0: Option<string>, buf0: Data, cur: Option<string>, buf: Data)
    requires |es| == |log| && DropsCovered(es, log, cur0, buf0, cur, buf)
    ensures forall i :: 0 <= i < |es| && log[i].Dropped? ==>
              log[i].count <= WaitingAt(es, log, cur0, buf0, log[i].name, i)
  {
  }

  lemma DropsMore(es: seq<Event>, log: seq<Trace>, e: Event, c: Trace, cur0: Option<string>, buf0: Data,
                  cur: Option<string>, buf: Data, cur': Option<string>, buf': Data)
    requires |es| == |log| && DropsCovered(es, log, cur0, buf0, cur, buf)
    requires c.Dropped? ==> cur == Some(c.name) && c.count == |buf|
    requires forall n :: Buffered(cur', buf', n) <= Buffering(e, c, n, Buffered(cur, buf, n))
    ensures DropsCovered(es + [e], log + [c], cur0, buf0, cur', buf')
  {
    hide Waiting, Buffering;
    var es', log' := es + [e], log + [c];
    forall n, i: nat | i <= |es|
      ensures WaitingAt(es', log', cur0, buf0, n, i) == WaitingAt(es, log, cur0, buf0, n, i)
    {
      assert es'[..i] == es[..i] && log'[..i] == log[..i];
    }
    forall n ensures Buffered(cur', buf', n) <= WaitingAt(es', log', cur0, buf0, n, |es'|) {
      WaitingMore(es, log, e, c, n, Buffered(cur0, buf0, n));
      assert es[..|es|] == es && log[..|log|] == log && es'[..|es'|] == es' && log'[..|log'|] == log';
      BufferingMonotone(e, c, n, Buffered(cur, buf, n), WaitingAt(es, log, cur0, buf0, n, |es|));
    }
    assert c.Dropped? ==> Buffered(cur, buf, c.name) <= WaitingAt(es, log, cur0, buf0, c.name, |es|);
  }

  lemma WaitingMore(es: seq<Event>, log: seq<Trace>, e: Event, c: Trace, n: string, have: nat)
    requires |es| == |log|
    ensures Waiting(es + [e], log + [c], n, have) == Buffering(e, c, n, Waiting(es, log, n, have))
  {
    hide Buffering;
    assert (es + [e])[..|es|] == es && (log + [c])[..|log|] == log;
  }

  lemma BufferingMonotone(e: Event, c: Trace, n: string, a: nat, b: nat)
    requires a <= b
    ensures Buffering(e, c, n, a) <= Buffering(e, c, n, b)
  {
  }

  /** The books and the share after the events `es`, against the start. */
  ghost predicate RunState(k0: Book, d0: Disk, c0: Option<Path>, k: Book, d: Disk, c: Option<Path>, es: seq<Event>) {
    && (forall n :: FlushedOf(k0, n) <= FlushedOf(k, n))
    && (forall p :: p in k.lost && p !in k0.lost ==> exists i :: 0 <= i < |es| && MayTouch(es[i], p.at))
    && (forall p :: p in d0.share && p.File? && c0 != Some(p) && p !in Dests(d0)
                    && (forall i :: 0 <= i < |es| ==> !MayTouch(es[i], p)) ==>
          p in d.share && d.share[p] == d0.share[p] && c != Some(p) && p !in Dests(d))
  }

  lemma RunStart(k: Book, d: Disk, c: Option<Path>)
    ensures RunState(k, d, c, k, d, c, [])
  {
  }

  lemma RunMeans(k0: Book, d0: Disk, c0: Option<Path>, k: Book, d: Disk, c: Option<Path>, es: seq<Event>)
    requires RunState(k0, d0, c0, k, d, c, es)
    ensures forall n :: FlushedOf(k0, n) <= FlushedOf(k, n)
    ensures forall p :: p in k.lost && p !in k0.lost ==> exists i :: 0 <= i < |es| && MayTouch(es[i], p.at)
    ensures forall p :: p in d0.share && p.File? && c0 != Some(p) && p !in Dests(d0)
                        && (forall i :: 0 <= i < |es| ==> !MayTouch(es[i], p)) ==>
              p in d.share && d.share[p] == d0.share[p]
  {
    hide MayTouch, Dests;
  }

  /** Whatever an event loses or overwrites is something it may touch. */
  lemma TouchedMay(w: Writer, e: Event)
    requires w.Valid()
    ensures forall p :: p in TouchedBy(w, e) ==> MayTouch(e, p)
    ensures forall c :: c in LostBy(w, e) ==> MayTouch(e, c.at)
  {
    hide Inv;
  }

  lemma RunMore(k0: Book, d0: Disk, c0: Option<Path>, j: Book, b: Disk, cb: Option<Path>, k: Book, d: Disk,
                c: Option<Path>,
                es: seq<Event>, e: Event, hit: set<Part>, touched: set<Path>)
    requires RunState(k0, d0, c0, j, b, cb, es)
    requires Survives(j, k, hit) && Spares(b, cb, d, c, touched)
    requires forall p :: p in touched ==> MayTouch(e, p)
    requires forall p :: p in hit ==> MayTouch(e, p.at)
    ensures RunState(k0, d0, c0, k, d, c, es + [e])
  {
    hide MayTouch, Dests;
    var all := es + [e];
    assert all[|es|] == e;
    forall p | p in k.lost && p !in k0.lost ensures exists i :: 0 <= i < |all| && MayTouch(all[i], p.at) {
      if p in j.lost {
        var i :| 0 <= i < |es| && MayTouch(es[i], p.at);
        assert MayTouch(all[i], p.at);
      } else {
        assert MayTouch(all[|es|], p.at);
      }
    }
    forall p | p in d0.share && p.File? && c0 != Some(p) && p !in Dests(d0)
               && (forall i :: 0 <= i < |all| ==> !MayTouch(all[i], p))
      ensures p in d.share && d.share[p] == d0.share[p] && c != Some(p) && p !in Dests(d)
    {
      assert forall i :: 0 <= i < |es| ==> es[i] == all[i];
      assert !MayTouch(all[|es|], p);
    }
  }

  lemma ReplayedMore(es: seq<Event>, log: seq<Trace>, e: Event, c: Trace, n: string, taken: Data)
    requires |es| == |log|
    ensures Replayed(es + [e], log + [c], n, taken) == Applied(e, c, n, Replayed(es, log, n, taken))
  {
    assert (es + [e])[..|es|] == es && (log + [c])[..|log|] == log;
  }

  lemma IntactLater(k: Book, k': Book)
    requires Grows(k, k')
    ensures forall c :: Intact(k, c) ==> Intact(k', c)
  {
  }

  lemma IntactHeld(d: Disk, k: Book, c: Part)
    requires Inv(d, k) && Intact(k, c)
    ensures c.at in d.share && d.share[c.at] == c.bytes
  {
  }

  lemma InvMeans(d: Disk, k: Book)
    requires Inv(d, k)
    ensures forall n: string :: FlushedOf(k, n) == Joined(PartsOf(k, n)) + Spooled(d.spool, n)
    ensures forall n: string, c :: c in PartsOf(k, n) && c !in k.lost ==> c.at in d.share && d.share[c.at] == c.bytes
    ensures forall n :: n in d.side ==> Held(d.share, d.side[n].dest) <= Spooled(d.spool, n)
  {
    forall n: string
      ensures FlushedOf(k, n) == Joined(PartsOf(k, n)) + Spooled(d.spool, n)
      ensures forall c :: c in PartsOf(k, n) && c !in k.lost ==> c.at in d.share && d.share[c.at] == c.bytes
    {
      assert NameComplete(d.spool, k, n);
      forall c | c in PartsOf(k, n) && c !in k.lost ensures c.at in d.share && d.share[c.at] == c.bytes {
        assert Intact(k, c);
      }
    }
  }

  /** Spilling part of the buffer moves bytes from the buffer to the spool, in order. */
  lemma SpillKeeps(k: Book, name: string, held: Data, b: Data, j: nat)
    requires j <= |held + b|
    ensures var k' := BookFlush(k, name, (held + b)[..j]);
            forall n :: Taken(k', Some(name), (held + b)[j..], n)
                     == Taken(k, Some(name), held, n) + (if Some(name) == Some(n) then b else [])
  {
    var all := held + b;
    var k' := BookFlush(k, name, all[..j]);
    assert all == all[..j] + all[j..];
    Streams.Assoc(FlushedOf(k, name), all[..j], all[j..]);
    Streams.Assoc(FlushedOf(k, name), held, b);
    assert forall n :: n != name ==> FlushedOf(k', n) == FlushedOf(k, n);
  }

  lemma GrowsFlush(k: Book, n: string, b: Data)
    ensures Grows(k, BookFlush(k, n, b))
  {
  }

  lemma GrowsSame(k: Book)
    ensures Grows(k, k)
  {
  }

  lemma SideFeeds(d: Disk, k: Book, name: string)
    requires Inv(d, k) && name in d.side
    ensures Feeds(d, k, name, d.side[name].dest)
  {
  }

  lemma NothingYet(d: Disk, k: Book)
    ensures Settled(d, d, k) && SpoolShrinks(d, d) && SideShrinks(d, d) && Grows(k, k)
    ensures Kept(d.share, d.share, Dests(d)) && forall m :: Same(d, k, d, k, m)
  {
  }

  /** The sweep so far: the names in `handled` have had their turn, everything else is untouched. */
  ghost predicate SweepState(d: Disk, k: Book, b: Disk, j: Book, dir: Option<string>, cur: Option<string>,
                             handled: set<string>, io: string -> PendingIo)
  {
    && Settled(d, b, j) && SpoolShrinks(d, b) && SideShrinks(d, b)
    && Survives(k, j, Hits(d, k, dir, cur, handled, io))
    && (forall m :: m !in handled ==> Same(d, k, b, j, m))
    && Kept(d.share, b.share, Dests(d) + StruckPaths(d, dir, cur, handled, io))
    && AllGone(d, b, j, dir, cur, handled, io)
  }

  ghost predicate AllGone(d: Disk, b: Disk, j: Book, dir: Option<string>, cur: Option<string>, handled: set<string>,
                          io: string -> PendingIo)
  {
    forall m :: m in handled ==> m in d.spool && GoneExactly(d, dir, cur, m, io(m), b, j)
  }

  lemma SweepStart(d: Disk, k: Book, dir: Option<string>, cur: Option<string>, io: string -> PendingIo)
    ensures SweepState(d, k, d, k, dir, cur, {}, io)
  {
    hide Hit, Strikes;
    NothingYet(d, k);
    assert Hits(d, k, dir, cur, {}, io) == {};
  }

  lemma HitsMore(d: Disk, k: Book, dir: Option<string>, cur: Option<string>, handled: set<string>, name: string,
                 io: string -> PendingIo)
    ensures Hits(d, k, dir, cur, handled + {name}, io) == Hits(d, k, dir, cur, handled, io)
            + Hit(d, k, dir, cur, name, io(name))
    ensures StruckPaths(d, dir, cur, handled + {name}, io)
         == StruckPaths(d, dir, cur, handled, io) + if Strikes(d, dir, cur, name, io(name))
             then {File(dir.value, name, 0)} else {}
  {
    hide Hit, Strikes;
  }

  lemma SweepSkip(d: Disk, k: Book, b: Disk, j: Book, dir: Option<string>, cur: Option<string>,
                  handled: set<string>, name: string, io: string -> PendingIo)
    requires SweepState(d, k, b, j, dir, cur, handled, io) && name !in handled && name in b.spool
    requires cur == Some(name) || (name in b.side && cur.None?)
    ensures SweepState(d, k, b, j, dir, cur, handled + {name}, io)
  {
    hide Hits, StruckPaths, Survives, Kept, Settled, SpoolShrinks, SideShrinks;
    HitsMore(d, k, dir, cur, handled, name, io);
    assert Same(d, k, b, j, name);
    assert !Strikes(d, dir, cur, name, io(name)) && GoneExactly(d, dir, cur, name, io(name), b, j);
    hide GoneExactly;
    assert Hits(d, k, dir, cur, handled, io) + {} == Hits(d, k, dir, cur, handled, io);
    assert StruckPaths(d, dir, cur, handled, io) + {} == StruckPaths(d, dir, cur, handled, io);
  }

  lemma SweepStep(d: Disk, k: Book, b: Disk, j: Book, c: Disk, i: Book, dir: Option<string>, cur: Option<string>,
                  handled: set<string>, name: string, io: string -> PendingIo)
    requires Inv(d, k) && SweepState(d, k, b, j, dir, cur, handled, io) && name !in handled && name in b.spool
    requires GoneExactly(b, dir, cur, name, io(name), c, i)
    requires Settled(b, c, i) && SpoolShrinks(b, c) && SideShrinks(b, c)
    requires Survives(j, i, Hit(b, j, dir, cur, name, io(name)))
    requires Elsewhere(b, j, c, i, name)
    requires Kept(b.share, c.share, Dests(b) + if Strikes(b, dir, cur, name, io(name)) then {File(dir.value, name, 0)}
             else {})
    ensures SweepState(d, k, c, i, dir, cur, handled + {name}, io)
  {
    hide GoneExactly, AllGone, Inv;
    assert Same(d, k, b, j, name);
    GoneMore(d, k, b, j, c, i, dir, cur, handled, name, io);
    SameHit(d, k, b, j, dir, cur, name, io(name));
    HitsMore(d, k, dir, cur, handled, name, io);
    hide Hits, StruckPaths, Hit, Strikes;
    SurvivesTransitive(k, j, i, Hits(d, k, dir, cur, handled, io), Hit(d, k, dir, cur, name, io(name)));
    SettledCompose(d, b, j, c, i, name);
    SameCompose(d, k, b, j, c, i, handled, name);
    KeptCompose(d, b, c, StruckPaths(d, dir, cur, handled, io),
                if Strikes(d, dir, cur, name, io(name)) then {File(dir.value, name, 0)} else {});
  }

  lemma SameSpoolOf(d: Disk, k: Book, b: Disk, j: Book, n: string)
    requires Same(d, k, b, j, n)
    ensures n in d.spool <==> n in b.spool
    ensures n in d.spool ==> b.spool[n] == d.spool[n]
  {
  }

  lemma SamePart(b: Disk, j: Book, c: Disk, i: Book, n: string)
    requires Same(b, j, c, i, n)
    ensures (n in b.spool <==> n in c.spool) && (n in b.side <==> n in c.side)
    ensures forall p: Path, x :: p.File? && p.name == n && Intact(j, Part(p, x)) ==> Intact(i, Part(p, x))
  {
  }

  lemma GoneMore(d: Disk, k: Book, b: Disk, j: Book, c: Disk, i: Book, dir: Option<string>, cur: Option<string>,
                 handled: set<string>, name: string, io: string -> PendingIo)
    requires Inv(d, k) && Same(d, k, b, j, name) && name in b.spool && GoneExactly(b, dir, cur, name, io(name), c, i)
    requires AllGone(d, b, j, dir, cur, handled, io)
    requires name !in handled && Elsewhere(b, j, c, i, name)
    ensures AllGone(d, c, i, dir, cur, handled + {name}, io)
  {
    hide Inv, LeavesFor, FedExactly, Same;
    SameSpoolOf(d, k, b, j, name);
    SameFed(d, k, b, j, c, dir, cur, name, io(name));
    forall p ensures LeavesFor(d, dir, cur, name, io(name), p) == LeavesFor(b, dir, cur, name, io(name), p) {
      SameLeaves(d, k, b, j, dir, cur, name, io(name), p);
    }
    forall m | m in handled ensures GoneExactly(d, dir, cur, m, io(m), c, i) {
      LeavesName(d, k, dir, cur, m, io(m));
      assert Same(b, j, c, i, m);
      FedLater(d, k, b, j, c, i, dir, cur, m, io(m));
      SamePart(b, j, c, i, m);
    }
  }

  lemma SettledCompose(d: Disk, b: Disk, j: Book, c: Disk, i: Book, name: string)
    requires Settled(d, b, j) && SpoolShrinks(d, b) && SideShrinks(d, b) && name in b.spool
    requires Settled(b, c, i) && SpoolShrinks(b, c) && SideShrinks(b, c)
    requires Elsewhere(b, j, c, i, name)
    ensures Settled(d, c, i) && SpoolShrinks(d, c) && SideShrinks(d, c)
  {
    forall n | n in d.spool && n !in c.spool
      ensures exists p: Path :: p.File? && p.name == n && Intact(i, Part(p, d.spool[n]))
    {
      if n in b.spool {
        assert b.spool[n] == d.spool[n];
      } else {
        var p: Path :| p.File? && p.name == n && Intact(j, Part(p, d.spool[n]));
        assert Same(b, j, c, i, n);
        assert Intact(i, Part(p, d.spool[n]));
      }
    }
  }

  lemma SameCompose(d: Disk, k: Book, b: Disk, j: Book, c: Disk, i: Book, handled: set<string>, name: string)
    requires forall m :: m !in handled ==> Same(d, k, b, j, m)
    requires Elsewhere(b, j, c, i, name)
    ensures forall m :: m !in handled + {name} ==> Same(d, k, c, i, m)
  {
    forall m | m !in handled + {name} ensures Same(d, k, c, i, m) {
      assert Same(d, k, b, j, m) && Same(b, j, c, i, m);
    }
  }

  lemma KeptCompose(d: Disk, b: Disk, c: Disk, x: set<Path>, y: set<Path>)
    requires Kept(d.share, b.share, Dests(d) + x) && Kept(b.share, c.share, Dests(b) + y) && SideShrinks(d, b)
    ensures Kept(d.share, c.share, Dests(d) + (x + y))
  {
    assert Dests(b) <= Dests(d);
  }

  /** The open file stays, and without an open file everything that might be resumed. */
  lemma StaysPut(d: Disk, b: Disk, j: Book, dir: Option<string>, cur: Option<string>, io: string -> PendingIo)
    requires forall n :: n in d.spool ==> GoneExactly(d, dir, cur, n, io(n), b, j)
    ensures forall n :: n in d.spool && (cur == Some(n) || dir.None? || (cur.None? && n in d.side)) ==> n in b.spool
  {
    hide Completes, MovesTo, FedExactly;
  }

  lemma AllGoneMeans(d: Disk, b: Disk, j: Book, dir: Option<string>, cur: Option<string>, handled: set<string>,
                     io: string -> PendingIo)
    requires AllGone(d, b, j, dir, cur, handled, io)
    ensures forall m :: m in handled ==> m in d.spool && GoneExactly(d, dir, cur, m, io(m), b, j)
  {
  }

  lemma NothingGone(d: Disk, k: Book, b: Disk, j: Book, dir: Option<string>, cur: Option<string>,
                    io: string -> PendingIo)
    requires dir.None? && forall m :: Same(d, k, b, j, m)
    ensures forall n :: n in d.spool ==> GoneExactly(d, dir, cur, n, io(n), b, j)
  {
    forall n | n in d.spool ensures GoneExactly(d, dir, cur, n, io(n), b, j) {
      assert Same(d, k, b, j, n);
    }
  }

  lemma SweepEnd(d: Disk, k: Book, b: Disk, j: Book, dir: Option<string>, cur: Option<string>, c: Option<Path>,
                 handled: set<string>, io: string -> PendingIo)
    requires SweepState(d, k, b, j, dir, cur, handled, io) && Inv(b, j)
    requires handled == d.spool.Keys || (dir.None? && handled == {})
    ensures RemovedSafely(d, b) && SpoolShrinks(d, b) && SideShrinks(d, b)
    ensures Survives(k, j, Hits(d, k, dir, cur, d.spool.Keys, io))
    ensures Spares(d, c, b, c, StruckPaths(d, dir, cur, d.spool.Keys, io))
    ensures forall n :: n in d.spool ==> GoneExactly(d, dir, cur, n, io(n), b, j)
  {
    hide GoneExactly, AllGone;
    SettledIsSafe(d, b, j);
    AllGoneMeans(d, b, j, dir, cur, handled, io);
    if handled != d.spool.Keys {
      NothingGone(d, k, b, j, dir, cur, io);
      assert Hits(d, k, dir, cur, d.spool.Keys, io) == Hits(d, k, dir, cur, handled, io);
      assert StruckPaths(d, dir, cur, d.spool.Keys, io) == StruckPaths(d, dir, cur, handled, io);
    }
    hide Hits, StruckPaths, Survives, Inv, RemovedSafely, Settled;
    assert Dests(b) <= Dests(d);
    SparesKept(d, c, b, c, StruckPaths(d, dir, cur, handled, io));
  }

  /** The names still to come are still in the spool. */
  lemma OthersStay(b: Disk, j: Book, c: Disk, i: Book, name: string, entries: set<string>)
    requires entries <= b.spool.Keys && name !in entries && Elsewhere(b, j, c, i, name)
    ensures entries <= c.spool.Keys
  {
    forall m | m in entries ensures m in c.spool {
      assert Same(b, j, c, i, m);
    }
  }

  /** Nothing on the share changed, and only the spool did. */
  lemma SparesShare(a: Disk, c: Option<Path>, b: Disk, c': Option<Path>)
    requires b.share == a.share && b.side == a.side && (c'.Some? ==> c' == c)
    ensures Spares(a, c, b, c', {})
  {
  }

  lemma SettledFrom(a: Disk, b: Disk, c: Disk, k: Book)
    requires b.spool == a.spool && Settled(b, c, k)
    ensures Settled(a, c, k)
  {
  }

  lemma KeptFeeding(d: Disk, t: map<Path, Data>, name: string)
    requires name in d.side && Kept(d.share, t, {d.side[name].dest})
    ensures Kept(d.share, t, Dests(d) + {})
  {
    assert d.side[name].dest in Dests(d);
  }

  lemma KeptMore(d: Disk, t: map<Path, Data>, except: set<Path>)
    requires Kept(d.share, t, except)
    ensures Kept(d.share, t, Dests(d) + except)
  {
  }

  lemma FeedsItsName(d: Disk, k: Book, name: string, dest: Path)
    requires Feeds(d, k, name, dest)
    ensures dest.File? && dest.name == name && name in d.spool && dest !in k.done
  {
  }

  /** Dropping the sidecar, and the spool file once the share file holds its bytes. */
  lemma FinishKeeps(d0: Disk, d: Disk, k: Book, name: string, dest: Path, stays: bool)
    requires Inv(d, k) && d.spool == d0.spool && name in d.spool
    requires dest.File? && dest.name == name && dest !in k.done && dest in d.share && d.share[dest] == d.spool[name]
    ensures var d' := Disk(if stays then d.spool else d.spool - {name}, d.side - {name}, d.share);
            var k' := if stays then k else BookDone(k, name, dest, d.spool[name]);
            && Inv(d', k') && Grows(k, k') && Settled(d0, d', k') && Elsewhere(d, k, d', k', name)
            && (forall m, q :: m != name && Feeds(d, k, m, q) ==> Feeds(d', k', m, q))
  {
    hide Inv, Feeds, Survives, Settled, Elsewhere, BookDone;
    var e := d.(side := d.side - {name});
    ClearSideKeeps(d, k, name);
    SideElsewhere(d, k, name);
    SameSpool(d0, e, k);
    GrowsSame(k);
    if !stays {
      RemoveKeeps(e, k, name, dest);
      DoneSettles(d0, e, k, name, dest);
      SurvivesDone(k, k, name, dest, d.spool[name], {});
      ElsewhereTransitive(d, k, e, k, e.(spool := e.spool - {name}), BookDone(k, name, dest, d.spool[name]), name);
    }
  }

  lemma SideElsewhere(d: Disk, k: Book, name: string)
    ensures Elsewhere(d, k, d.(side := d.side - {name}), k, name)
  {
  }

  lemma FreshFeeds(d: Disk, k: Book, name: string, p: Path)
    requires Inv(d, k) && name in d.spool && p.File? && p.name == name && p !in d.share
    ensures Feeds(d, k, name, p)
  {
  }

  lemma TopUpHealsOk(d: Disk, k: Book, name: string, dest: Path, io: TopUpIo)
    requires Inv(d, k) && Feeds(d, k, name, dest) && !TopUpOk(d, name, dest, io)
    ensures io != NO_FAULT
  {
    hide Inv;
    TopUpHeals(d, k, name, dest);
  }

  lemma SameDests(a: Disk, b: Disk)
    requires a.side == b.side
    ensures Dests(a) == Dests(b)
  {
  }

  lemma FlushedOnce(k: Book, name: string, b: Data)
    ensures forall n :: FlushedOf(BookFlush(k, name, b), n) == FlushedOf(k, n) + (if n == name then b else [])
  {
    assert forall n :: FlushedOf(k, n) + [] == FlushedOf(k, n);
  }

  lemma FlushedTwice(k: Book, name: string, b: Data)
    ensures forall n :: FlushedOf(BookFlush(BookFlush(k, name, b), name, []), n)
                     == FlushedOf(k, n) + (if n == name then b else [])
  {
    FlushedOnce(k, name, b);
    FlushedOnce(BookFlush(k, name, b), name, []);
    hide BookFlush;
    forall n
      ensures FlushedOf(BookFlush(BookFlush(k, name, b), name, []), n) == FlushedOf(k, n)
              + (if n == name then b else [])
    {
      assert FlushedOf(BookFlush(BookFlush(k, name, b), name, []), n) == FlushedOf(BookFlush(k, name, b), n) + [];
    }
  }

  lemma EmptyFlush(d: Disk, k: Book, name: string)
    requires name in d.spool
    ensures Flush(d, name, []) == d
    ensures FlushedOf(BookFlush(k, name, []), name) == FlushedOf(k, name)
  {
    assert d.spool[name] + [] == d.spool[name];
    assert d.spool[name := d.spool[name]] == d.spool;
  }

  lemma SameSpool(a: Disk, b: Disk, k: Book)
    requires b.spool == a.spool
    ensures Settled(a, b, k) && SpoolShrinks(a, b)
  {
  }

  lemma SameSpoolSettled(a: Disk, b: Disk, c: Disk, name: string, k: Book)
    requires b.spool == a.spool && Settled(b, c, k) && (c.spool == b.spool || c.spool == b.spool - {name})
    ensures Settled(a, c, k) && SpoolShrinks(a, c)
  {
  }

  predicate Lands(c: Copy) {
    c == Copied || c == RenameFails(true)
  }

  function Copying(d: Disk, name: string, dst: Path, c: Copy): Disk
    requires name in d.spool
  {
    var tmp := Partial(dst.dir, dst.name, dst.alt);
    d.(share := if Lands(c) then d.share[dst := d.spool[name]] - {tmp} else d.share - {tmp})
  }

  /** Copying a spool file without sidecar keeps everything in order; a finished file it lands on
      is struck from the books. */
  lemma CopyKeeps(d: Disk, k: Book, name: string, dst: Path, c: Copy)
    requires Inv(d, k) && name in d.spool && name !in d.side && dst.File? && dst.name == name
    ensures var d', k' := Copying(d, name, dst, c), if Lands(c) then BookStruck(k, dst, d.spool[name]) else k;
            Inv(d', k') && forall m, q :: m != name && Feeds(d, k, m, q) ==> Feeds(d', k', m, q)
  {
    hide NothingLost;
    var tmp := Partial(dst.dir, dst.name, dst.alt);
    if Lands(c) {
      StrikeKeeps(d, k, dst, d.spool[name]);
      OtherFileKeeps(d.(share := d.share[dst := d.spool[name]]), BookStruck(k, dst, d.spool[name]), tmp, None);
    } else {
      OtherFileKeeps(d, k, tmp, None);
    }
  }

  lemma CopyElsewhere(d: Disk, k: Book, name: string, dst: Path, c: Copy)
    requires name in d.spool && dst.File? && dst.name == name
    ensures var d', k' := Copying(d, name, dst, c), if Lands(c) then BookStruck(k, dst, d.spool[name]) else k;
            && Elsewhere(d, k, d', k', name) && Kept(d.share, d'.share, if Lands(c) then {dst} else {})
            && Survives(k, k', if Lands(c) then Struck(k, dst, d.spool[name]) else {}) && k'.flushed == k.flushed
  {
  }

  /** Copying, and dropping the spool file unless it stays. */
  lemma LandKeeps(d: Disk, k: Book, name: string, dst: Path, c: Copy, stays: bool)
    requires Inv(d, k) && name in d.spool && name !in d.side && dst.File? && dst.name == name && (stays || c == Copied)
    ensures var e, j := Copying(d, name, dst, c), if Lands(c) then BookStruck(k, dst, d.spool[name]) else k;
            var d', k' := if stays then e else e.(spool := e.spool - {name}), if stays then j
                else BookDone(j, name, dst, d.spool[name]);
            && Inv(d', k') && Settled(d, d', k') && Elsewhere(d, k, d', k', name) && k'.flushed == k.flushed
            && Survives(k, k', if Lands(c) then Struck(k, dst, d.spool[name]) else {})
            && Kept(d.share, d'.share, if Lands(c) then {dst} else {})
            && (Lands(c) ==> dst in d'.share && d'.share[dst] == d.spool[name])
            && (!stays ==> name !in d'.spool && Intact(k', Part(dst, d.spool[name])))
            && (forall m, q :: m != name && Feeds(d, k, m, q) ==> Feeds(d', k', m, q))
  {
    hide Inv, Feeds, Survives, BookStruck, Struck, Kept, Elsewhere, Settled, Lands;
    var e, j := Copying(d, name, dst, c), if Lands(c) then BookStruck(k, dst, d.spool[name]) else k;
    CopyKeeps(d, k, name, dst, c);
    CopyElsewhere(d, k, name, dst, c);
    CopyLands(d, name, dst, c);
    SameSpool(d, e, j);
    if !stays {
      RemoveKeeps(e, j, name, dst);
      DoneSettles(d, e, j, name, dst);
      StruckDone(k, dst, d.spool[name]);
      SurvivesDone(k, j, name, dst, d.spool[name], Struck(k, dst, d.spool[name]));
      ElsewhereTransitive(d, k, e, j, e.(spool := e.spool - {name}), BookDone(j, name, dst, d.spool[name]), name);
    }
  }

  lemma StruckDone(k: Book, p: Path, x: Data)
    ensures p in BookStruck(k, p, x).done ==> BookStruck(k, p, x).done[p] == x
  {
  }

  lemma CopyLands(d: Disk, name: string, dst: Path, c: Copy)
    requires name in d.spool && dst.File?
    ensures var e := Copying(d, name, dst, c);
            e.spool == d.spool && e.side == d.side && (c == Copied ==> Lands(c))
            && (Lands(c) ==> dst in e.share && e.share[dst] == d.spool[name])
  {
  }

  lemma DoneSettles(d: Disk, e: Disk, j: Book, name: string, dst: Path)
    requires e.spool == d.spool && name in d.spool && dst.File? && dst.name == name
    ensures var d', k' := e.(spool := e.spool - {name}), BookDone(j, name, dst, d.spool[name]);
            Settled(d, d', k') && Elsewhere(e, j, d', k', name)
  {
    assert Intact(BookDone(j, name, dst, d.spool[name]), Part(dst, d.spool[name]));
  }

  lemma SurvivesDone(k: Book, j: Book, name: string, dst: Path, x: Data, hit: set<Part>)
    requires Survives(k, j, hit) && (dst in j.done ==> j.done[dst] == x)
    ensures Survives(k, BookDone(j, name, dst, x), hit)
  {
  }

  lemma FreeIsNotStruck(d: Disk, k: Book, p: Path, x: Data)
    requires Inv(d, k)
    ensures p !in d.share ==> Struck(k, p, x) == {}
  {
  }
}
