/** The conversion progress bar: one file's passes, mapped onto a job of several files. Times are
    seconds. */
module Progress {
  import opened Outcomes

  function HalfPow(n: nat): (r: real)
    ensures 0.0 < r <= 1.0
  {
    if n == 0 then 1.0 else HalfPow(n - 1) / 2.0
  }

  lemma {:induction false} HalfPowShrinks(m: nat, n: nat)
    requires m <= n
    ensures HalfPow(n) <= HalfPow(m)
    decreases n
  {
    if m < n {
      HalfPowShrinks(m, n - 1);
    }
  }

  datatype Bar = Bar(pass: nat, last: Option<int>, frac: real)

  const FRESH: Bar := Bar(1, None, 0.0)

  const SLACK: int := 300

  function Clamp(x: real): real { if x < 0.0 then 0.0 else if x > 1.0 then 1.0 else x }

  /** How far into the file a timestamp lies. */
  function Along(start: int, end: int, t: int): (f: real)
    requires start < end
    ensures 0.0 <= f <= 1.0
  {
    Clamp((t - start) as real / (end - start) as real)
  }

  /** The bar position a timestamp of the given pass stands for: pass k covers the k-th half of
      what is left. */
  function Position(pass: nat, f: real): real
    requires pass >= 1
  {
    1.0 - HalfPow(pass - 1) + Share(HalfPow(pass), f)
  }

  function Share(h: real, f: real): real { h * f }

  function Fed(b: Bar, start: int, end: int, t: int): Bar
    requires b.pass >= 1
  {
    var pass := if b.last.Some? && t < b.last.value - SLACK then b.pass + 1 else b.pass;
    if end <= start then Bar(pass, Some(t), b.frac)
    else
      var v := Position(pass, Along(start, end, t));
      var up := if v > b.frac then v else b.frac;
      Bar(pass, Some(t), if up > 0.99 then 0.99 else up)
  }

  /** A timestamp within the file moves the bar to its place in the pass, the first pass covering
      one half and each further one half of what is left, never back and never beyond 99%. A stamp
      more than five minutes before the last begins another pass. */
  lemma FedValue(b: Bar, start: int, end: int, t: int)
    requires b.pass >= 1
    ensures var n := Fed(b, start, end, t);
            && n.last == Some(t)
            && n.pass == (if b.last.Some? && t < b.last.value - 300 then b.pass + 1 else b.pass)
            && (end <= start ==> n.frac == b.frac)
    ensures start < end && start <= t <= end ==>
              var n := Fed(b, start, end, t);
              var h := HalfPow(n.pass);
              var v := 1.0 - 2.0 * h + h * ((t - start) as real / (end - start) as real);
              n.frac == if v > b.frac then if v > 0.99 then 0.99 else v else if b.frac > 0.99 then 0.99 else b.frac
    ensures HalfPow(1) == 0.5 && HalfPow(b.pass + 1) == HalfPow(b.pass) / 2.0
  {
    if start < end && start <= t <= end {
      Within(t - start, end - start);
    }
    assert HalfPow(0) == 1.0;
  }

  lemma Within(x: int, y: int)
    requires 0 <= x <= y && y > 0
    ensures 0.0 <= x as real / y as real <= 1.0
  {
    var q := x as real / y as real;
    assert q * y as real == x as real;
    if q > 1.0 {
      Grows(y as real, 1.0, q);
    } else if q < 0.0 {
      Grows(y as real, 0.0, -q);
    }
  }

  /** What holds of a bar at every moment. */
  ghost predicate Sound(b: Bar) {
    b.pass >= 1 && 0.0 <= b.frac <= 0.99 && b.frac <= 1.0 - HalfPow(b.pass)
  }

  lemma FedSound(b: Bar, start: int, end: int, t: int)
    requires Sound(b)
    ensures var n := Fed(b, start, end, t); Sound(n) && b.frac <= n.frac && b.pass <= n.pass
  {
    hide HalfPow, Share, Along;
    var n := Fed(b, start, end, t);
    HalfPowShrinks(b.pass, n.pass);
    if start < end {
      PositionBound(n.pass, Along(start, end, t));
    }
  }

  lemma PositionBound(pass: nat, f: real)
    requires pass >= 1
    requires 0.0 <= f <= 1.0
    ensures 0.0 <= Position(pass, f) <= 1.0 - HalfPow(pass)
  {
    Scales(HalfPow(pass), f);
  }

  lemma Scales(h: real, f: real)
    requires 0.0 < h && 0.0 <= f <= 1.0
    ensures 0.0 <= Share(h, f) <= h
  {
    Grows(h, f, 1.0);
  }

  lemma Grows(h: real, f: real, g: real)
    requires 0.0 < h && 0.0 <= f <= g
    ensures 0.0 <= h * f <= h * g
  {
  }

  /** Within one pass the bar shows the furthest timestamp of the pass: a pass that reaches the
      end of the file fills its whole share, up to 99%. */
  lemma PassFills(b: Bar, start: int, end: int, t: int)
    requires Sound(b) && start < end <= t
    ensures var n := Fed(b, start, end, t);
            n.frac == (if 1.0 - HalfPow(n.pass) > 0.99 then 0.99 else 1.0 - HalfPow(n.pass))
  {
    var n := Fed(b, start, end, t);
    Ratio(t - start, end - start);
    HalfPowShrinks(b.pass, n.pass);
  }

  lemma Ratio(x: int, y: int)
    requires 0 < y <= x
    ensures x as real / y as real >= 1.0
  {
    var q := x as real / y as real;
    assert q * y as real == x as real;
    if q < 1.0 {
      Below(q, y as real);
    }
  }

  lemma Below(q: real, y: real)
    requires q < 1.0 && y > 0.0
    ensures q * y < y
  {
  }

  lemma PassCounts(b: Bar)
    requires Sound(b)
    ensures b.pass >= 1
  {
  }

  class Tracker {
    const start: int
    const end: int
    var pass: nat
    var last: Option<int>
    var frac: real

    function State(): Bar
      reads this
    {
      Bar(pass, last, frac)
    }

    ghost predicate Valid()
      reads this
    {
      Sound(State())
    }

    constructor (s: int, e: int)
      ensures Valid() && State() == FRESH && start == s && end == e
    {
      start, end, pass, last, frac := s, e, 1, None, 0.0;
      new;
      assert HalfPow(1) == HalfPow(0) / 2.0;
    }

    /** Takes in one line of converter output; `line` is its timestamp, if it has one. */
    method Feed(line: Option<int>)
      requires Valid()
      modifies this
      ensures Valid() && frac >= old(frac)
      ensures State() == if line.None? then old(State()) else Fed(old(State()), start, end, line.value)
    {
      hide HalfPow, Share, Sound;
      if line.None? {
        return;
      }
      var t := line.value;
      PassCounts(State());
      FedSound(State(), start, end, t);
      if last.Some? && t < last.value - SLACK {
        pass := pass + 1;
      }
      last := Some(t);
      if end - start <= 0 {
        return;
      }
      var f := (t - start) as real / (end - start) as real;
      if f < 0.0 {
        f := 0.0;
      }
      if f > 1.0 {
        f := 1.0;
      }
      var v := 1.0 - HalfPow(pass - 1) + Share(HalfPow(pass), f);
      if v > frac {
        frac := v;
      }
      if frac > 0.99 {
        frac := 0.99;
      }
    }
  }

  // ---- a job of several files

  /** The values a job's percentage takes never decrease and stay below 1. */
  ghost predicate Rising(shown: seq<real>) {
    && (forall i, j :: 0 <= i <= j < |shown| ==> shown[i] <= shown[j])
    && (forall i :: 0 <= i < |shown| ==> 0.0 <= shown[i] < 1.0)
  }

  function OfJob(idx: nat, frac: real, total: nat): real
    requires total > 0
  {
    (idx as real + frac) / total as real
  }

  /** Each file has an equal share of the job. */
  lemma Shares(idx: nat, frac: real, total: nat)
    requires total > 0
    ensures OfJob(idx, frac, total) * total as real == idx as real + frac
  {
  }

  lemma OfJobOrder(i: nat, f: real, j: nat, g: real, total: nat)
    requires i <= j < total && 0.0 <= f <= 0.99 && 0.0 <= g <= 0.99 && (i == j ==> f <= g)
    ensures 0.0 <= OfJob(i, f, total) <= OfJob(j, g, total) < 1.0
  {
    var n := total as real;
    Quotients(0.0, i as real + f, n);
    Quotients(i as real + f, j as real + g, n);
    Quotients(j as real + g, n - 0.01, n);
    assert n / n == 1.0;
    Strictly(n - 0.01, n);
  }

  lemma Quotients(x: real, y: real, n: real)
    requires n > 0.0 && x <= y
    ensures x / n <= y / n && 0.0 / n == 0.0
  {
  }

  lemma Strictly(x: real, n: real)
    requires n > 0.0 && x < n
    ensures x / n < 1.0
  {
    if x / n >= 1.0 {
      Grows(n, 1.0, x / n);
      assert false;
    }
  }

  class Job {
    var percent: real
    /** Every value the percentage has had, and what the latest one reported. */
    ghost var shown: seq<real>
    ghost var file: nat
    ghost var frac: real

    ghost predicate Valid(total: nat)
      reads this
    {
      && Rising(shown)
      && (shown != [] ==>
            file < total && 0.0 <= frac <= 0.99 && shown[|shown| - 1] == percent == OfJob(file, frac, total))
    }

    constructor ()
      ensures percent == 0.0 && shown == []
    {
      percent, shown, file, frac := 0.0, [], 0, 0.0;
    }

    /** Reports one file's progress, mapped onto the job; the files come in order. */
    method Report(idx: nat, total: nat, f: real)
      requires Valid(total) && idx < total && 0.0 <= f <= 0.99
      requires shown != [] ==> file <= idx && (file == idx ==> frac <= f)
      modifies this
      ensures Valid(total) && file == idx && frac == f
      ensures shown == old(shown) + [OfJob(idx, f, total)]
    {
      hide OfJob;
      if shown != [] {
        OfJobOrder(file, frac, idx, f, total);
      } else {
        OfJobOrder(idx, f, idx, f, total);
      }
      percent := OfJob(idx, f, total);
      shown, file, frac := shown + [percent], idx, f;
    }
  }

  datatype Task = Task(start: int, end: int, lines: seq<Option<int>>)

  /** The file's bar after `n` lines. */
  function BarAt(task: Task, n: nat): (b: Bar)
    requires n <= |task.lines|
    ensures b.pass >= 1
  {
    if n == 0 then FRESH
    else
      var b := BarAt(task, n - 1);
      match task.lines[n - 1]
      case None => b
      case Some(t) => Fed(b, task.start, task.end, t)
  }

  /** The percentages one file's first `n` lines call for. */
  function ShownFor(task: Task, idx: nat, total: nat, n: nat): (s: seq<real>)
    requires idx < total && n <= |task.lines|
    ensures |s| == n
  {
    if n == 0 then []
    else ShownFor(task, idx, total, n - 1) + [OfJob(idx, BarAt(task, n).frac, total)]
  }

  /** The same for the first `i` files, one after the other. */
  function AllShown(tasks: seq<Task>, i: nat): (s: seq<real>)
    requires i <= |tasks|
    ensures |s| == Lines(tasks, i)
  {
    if i == 0 then []
    else AllShown(tasks, i - 1) + ShownFor(tasks[i - 1], i - 1, |tasks|, |tasks[i - 1].lines|)
  }

  function Lines(tasks: seq<Task>, i: nat): nat
    requires i <= |tasks|
  {
    if i == 0 then 0 else Lines(tasks, i - 1) + |tasks[i - 1].lines|
  }

  /** Converts a job's files in order, reporting after every line of output. */
  method RunJob(job: Job, tasks: seq<Task>)
    requires job.shown == []
    modifies job
    ensures Rising(job.shown)
    ensures job.shown == AllShown(tasks, |tasks|) && |job.shown| == Lines(tasks, |tasks|)
  {
    hide Rising, ShownFor;
    NothingShown();
    var i := 0;
    while i < |tasks|
      invariant 0 <= i <= |tasks| && job.Valid(|tasks|) && (job.shown != [] ==> job.file < i)
      invariant job.shown == AllShown(tasks, i)
    {
      RunTask(job, tasks[i], i, |tasks|);
      i := i + 1;
    }
  }

  lemma NothingShown()
    ensures Rising([])
  {
  }

  method RunTask(job: Job, task: Task, idx: nat, total: nat)
    requires idx < total && job.Valid(total) && (job.shown != [] ==> job.file < idx)
    modifies job
    ensures job.Valid(total) && (job.shown != [] ==> job.file <= idx)
    ensures job.shown == old(job.shown) + ShownFor(task, idx, total, |task.lines|)
  {
    hide OfJob, Rising, Fed;
    var bar := new Tracker(task.start, task.end);
    var n := 0;
    while n < |task.lines|
      invariant 0 <= n <= |task.lines| && bar.Valid() && job.Valid(total)
      invariant job.shown != [] ==> job.file <= idx && (job.file == idx ==> job.frac <= bar.frac)
      invariant bar.State() == BarAt(task, n) && job.shown == old(job.shown) + ShownFor(task, idx, total, n)
    {
      bar.Feed(task.lines[n]);
      job.Report(idx, total, bar.frac);
      n := n + 1;
    }
  }
}
