/** What the archive keeps on disk and on the share, the books a proof needs about it, and the
    elementary changes that keep both in order. */
module ArchiveDisk {
  import opened BitSeq
  import opened Outcomes
  import Streams

  type Data = seq<Byte>

  /** A file on the share: the archive name itself (`alt` 0) or one of the numbered names
      alongside it, or the temporary file of a copy. */
  datatype Path = File(dir: string, name: string, alt: nat) | Partial(dir: string, name: string, alt: nat)

  /** The sidecar of a spool file: the share file it feeds and how far. */
  datatype Side = Side(dest: Path, synced: int)

  datatype Disk = Disk(spool: map<string, Data>, side: map<string, Side>, share: map<Path, Data>)

  function Held(m: map<Path, Data>, p: Path): Data {
    if p in m then m[p] else []
  }

  function Spooled(spool: map<string, Data>, n: string): Data {
    if n in spool then spool[n] else []
  }

  /** What replaced a spool file: a share file and the bytes it held then. */
  datatype Part = Part(at: Path, bytes: Data)

  /** The books: the share files that replaced spool files and are intact, with their bytes; the
      order in which a name's spool files were replaced; every byte ever flushed to a name's
      spool file; and the parts that were overwritten with other bytes since. */
  datatype Book = Book(done: map<Path, Data>, parts: map<string, seq<Part>>, flushed: map<string, Data>,
      lost: set<Part>)

  function Joined(ps: seq<Part>): Data {
    if ps == [] then [] else Joined(ps[..|ps| - 1]) + ps[|ps| - 1].bytes
  }

  function PartsOf(k: Book, n: string): seq<Part> {
    if n in k.parts then k.parts[n] else []
  }

  function FlushedOf(k: Book, n: string): Data {
    if n in k.flushed then k.flushed[n] else []
  }

  /** A share file chosen for the spool file `n` that may still grow: not one that already
      replaced a spool file, and holding no more than a prefix of what the spool holds. */
  ghost predicate Feeds(d: Disk, k: Book, n: string, p: Path) {
    p.File? && p.name == n && p !in k.done && n in d.spool && Held(d.share, p) <= d.spool[n]
  }

  ghost predicate DoneIntact(d: Disk, k: Book) {
    forall p :: p in k.done ==> p.File? && p in d.share && d.share[p] == k.done[p]
  }

  ghost predicate SidesFeed(d: Disk, k: Book) {
    forall n :: n in d.side ==> Feeds(d, k, n, d.side[n].dest)
  }

  /** Every byte flushed for a name is in a part that is intact on the share, or still in the
      spool, or in a part that was overwritten. */
  ghost predicate NothingLost(spool: map<string, Data>, k: Book) {
    forall n: string :: NameComplete(spool, k, n)
  }

  ghost predicate NameComplete(spool: map<string, Data>, k: Book, n: string) {
    && (forall c :: c in PartsOf(k, n) ==> Intact(k, c) || c in k.lost)
    && FlushedOf(k, n) == Joined(PartsOf(k, n)) + Spooled(spool, n)
  }

  predicate Intact(k: Book, c: Part) {
    c.at in k.done && k.done[c.at] == c.bytes
  }

  ghost predicate Inv(d: Disk, k: Book) {
    DoneIntact(d, k) && SidesFeed(d, k) && NothingLost(d.spool, k)
  }

  // ---- elementary changes

  function Flush(d: Disk, n: string, b: Data): Disk {
    d.(spool := d.spool[n := Spooled(d.spool, n) + b])
  }

  function BookFlush(k: Book, n: string, b: Data): Book {
    k.(flushed := k.flushed[n := FlushedOf(k, n) + b])
  }

  lemma FlushKeeps(d: Disk, k: Book, n: string, b: Data)
    requires Inv(d, k)
    ensures Inv(Flush(d, n, b), BookFlush(k, n, b))
    ensures forall m, p :: Feeds(d, k, m, p) ==> Feeds(Flush(d, n, b), BookFlush(k, n, b), m, p)
  {
    forall m: string ensures NameComplete(Flush(d, n, b).spool, BookFlush(k, n, b), m) {
      assert NameComplete(d.spool, k, m);
      FlushName(d, k, n, b, m);
    }
    hide NameComplete;
    assert forall m, p :: Feeds(d, k, m, p) ==> Feeds(Flush(d, n, b), BookFlush(k, n, b), m, p);
  }

  lemma FlushName(d: Disk, k: Book, n: string, b: Data, m: string)
    requires NameComplete(d.spool, k, m)
    ensures NameComplete(Flush(d, n, b).spool, BookFlush(k, n, b), m)
  {
    hide Joined;
    assert PartsOf(BookFlush(k, n, b), m) == PartsOf(k, m);
    Streams.Assoc(Joined(PartsOf(k, m)), Spooled(d.spool, m), b);
  }

  /** A chosen share file changes, to some other prefix of its spool file. */
  lemma ShareKeeps(d: Disk, k: Book, n: string, p: Path, x: Data)
    requires Inv(d, k) && Feeds(d, k, n, p) && x <= d.spool[n]
    ensures var d' := d.(share := d.share[p := x]);
            Inv(d', k) && forall m, q :: Feeds(d, k, m, q) ==> Feeds(d', k, m, q)
  {
  }

  /** A share file that is not one of the books changes, appears or disappears, and it feeds nothing. */
  lemma OtherFileKeeps(d: Disk, k: Book, p: Path, x: Option<Data>)
    requires Inv(d, k) && p !in k.done
    requires forall n :: n in d.side ==> d.side[n].dest != p
    ensures var d' := d.(share := if x.Some? then d.share[p := x.value] else d.share - {p});
            Inv(d', k) && forall m, q :: q != p && Feeds(d, k, m, q) ==> Feeds(d', k, m, q)
  {
  }

  /** A share file loses its tail, or vanishes, while the spool still has the bytes. */
  lemma TruncateKeeps(d: Disk, k: Book, p: Path, x: Option<Data>)
    requires Inv(d, k) && p !in k.done && p in d.share && (x.Some? ==> x.value <= d.share[p])
    ensures var d' := d.(share := if x.Some? then d.share[p := x.value] else d.share - {p});
            Inv(d', k) && forall m, q :: Feeds(d, k, m, q) ==> Feeds(d', k, m, q)
  {
  }

  lemma SideKeeps(d: Disk, k: Book, n: string, s: Side)
    requires Inv(d, k) && Feeds(d, k, n, s.dest)
    ensures var d' := d.(side := d.side[n := s]);
            Inv(d', k) && forall m, q :: Feeds(d, k, m, q) ==> Feeds(d', k, m, q)
  {
  }

  lemma ClearSideKeeps(d: Disk, k: Book, n: string)
    requires Inv(d, k)
    ensures var d' := d.(side := d.side - {n});
            Inv(d', k) && forall m, q :: Feeds(d, k, m, q) ==> Feeds(d', k, m, q)
  {
  }

  function BookDone(k: Book, n: string, p: Path, x: Data): Book {
    k.(done := k.done[p := x], parts := k.parts[n := PartsOf(k, n) + [Part(p, x)]])
  }

  /** The spool file is removed because the share file holds exactly its bytes. */
  lemma RemoveKeeps(d: Disk, k: Book, n: string, p: Path)
    requires Inv(d, k) && n in d.spool && n !in d.side
    requires p.File? && p.name == n && p in d.share && d.share[p] == d.spool[n]
    ensures var d', k' := d.(spool := d.spool - {n}), BookDone(k, n, p, d.spool[n]);
            Inv(d', k') && forall m, q :: m != n && Feeds(d, k, m, q) ==> Feeds(d', k', m, q)
  {
    var d', k' := d.(spool := d.spool - {n}), BookDone(k, n, p, d.spool[n]);
    forall m: string ensures NameComplete(d'.spool, k', m) {
      assert NameComplete(d.spool, k, m);
      RemoveName(d, k, n, p, m);
    }
    hide NameComplete;
    assert forall m, q :: m != n && Feeds(d, k, m, q) ==> Feeds(d', k', m, q);
  }

  lemma RemoveName(d: Disk, k: Book, n: string, p: Path, m: string)
    requires NameComplete(d.spool, k, m) && n in d.spool && DoneIntact(d, k)
    requires p in d.share && d.share[p] == d.spool[n]
    ensures NameComplete(d.spool - {n}, BookDone(k, n, p, d.spool[n]), m)
  {
    hide Joined;
    var x := d.spool[n];
    var k' := BookDone(k, n, p, x);
    if m == n {
      JoinedSnoc(PartsOf(k, n), Part(p, x));
    } else {
      assert PartsOf(k', m) == PartsOf(k, m);
    }
  }

  lemma JoinedSnoc(ps: seq<Part>, c: Part)
    ensures Joined(ps + [c]) == Joined(ps) + c.bytes
  {
    assert (ps + [c])[..|ps|] == ps;
  }

  /** The part a share file stood for is lost when other bytes take its place. */
  function Struck(k: Book, p: Path, x: Data): set<Part> {
    if p in k.done && k.done[p] != x then {Part(p, k.done[p])} else {}
  }

  function BookStruck(k: Book, p: Path, x: Data): Book {
    if p in k.done && k.done[p] != x then k.(done := k.done - {p}, lost := k.lost + Struck(k, p, x)) else k
  }

  /** A copy lands on a share file that feeds nothing, whatever that file was. */
  lemma StrikeKeeps(d: Disk, k: Book, p: Path, x: Data)
    requires Inv(d, k) && p.File?
    requires forall n :: n in d.side ==> d.side[n].dest != p
    ensures var d', k' := d.(share := d.share[p := x]), BookStruck(k, p, x);
            Inv(d', k') && forall m, q :: q != p && Feeds(d, k, m, q) ==> Feeds(d', k', m, q)
  {
    var k' := BookStruck(k, p, x);
    forall n: string ensures NameComplete(d.spool, k', n) {
      assert NameComplete(d.spool, k, n);
      assert PartsOf(k', n) == PartsOf(k, n);
    }
    hide NameComplete;
    if p !in k'.done {
      BookStruckInv(d, k, p, x);
      OtherFileKeeps(d, k', p, Some(x));
    } else {
      assert d.share[p := x] == d.share;
    }
  }

  lemma BookStruckInv(d: Disk, k: Book, p: Path, x: Data)
    requires Inv(d, k) && NothingLost(d.spool, BookStruck(k, p, x))
    ensures Inv(d, BookStruck(k, p, x))
    ensures forall m, q :: Feeds(d, k, m, q) ==> Feeds(d, BookStruck(k, p, x), m, q)
  {
  }

  /** A fresh archive. */
  lemma EmptyInv(share: map<Path, Data>)
    ensures Inv(Disk(map[], map[], share), Book(map[], map[], map[], {}))
  {
  }
}
