/** When the archive starts a new file. */
module SwapTimes {
  /** Time is counted in nanoseconds. */
  const HOUR: int := 3_600_000_000_000
  const DAY: int := 24 * HOUR

  function DayStart(t: int): int {
    t - t % DAY
  }

  function Period(hours: nat): int {
    hours * HOUR
  }

  /** In nanoseconds; a day has 86400 seconds and begins at midnight. */
  lemma Days(hours: nat, t: int)
    ensures Period(hours) == hours * 3600 * 1_000_000_000
    ensures DayStart(t) <= t < DayStart(t) + 86400 * 1_000_000_000 && DayStart(t) % (86400 * 1_000_000_000) == 0
  {
    assert DayStart(t) == t / DAY * DAY;
    Whole(t / DAY);
  }

  lemma Whole(k: int)
    ensures k * DAY % DAY == 0
  {
  }

  /** The first instant after `t` that is a whole number of periods after midnight. */
  ghost predicate NextBoundary(hours: nat, t: int, b: int)
    requires hours > 0
  {
    t < b && b - Period(hours) <= t && exists k: nat :: b == DayStart(t) + k * Period(hours)
  }

  lemma BoundaryUnique(hours: nat, t: int, b: int, c: int)
    requires hours > 0 && NextBoundary(hours, t, b) && NextBoundary(hours, t, c)
    ensures b == c
  {
    var d := Period(hours);
    var j: nat :| b == DayStart(t) + j * d;
    var k: nat :| c == DayStart(t) + k * d;
    Apart(j, k, d);
  }

  lemma Apart(j: int, k: int, d: int)
    requires d > 0 && -d < j * d - k * d < d
    ensures j == k
  {
    if j > k {
      AtLeastOnce(j - k, d);
      Distribute(j - k, k, d);
      assert false;
    } else if k > j {
      AtLeastOnce(k - j, d);
      Distribute(k - j, j, d);
      assert false;
    }
  }

  lemma AtLeastOnce(n: int, d: int)
    requires n >= 1 && d > 0
    ensures n * d >= d
  {
    assert n * d == (n - 1) * d + d;
    Nonneg(n - 1, d);
  }

  lemma Nonneg(a: int, b: int)
    requires a >= 0 && b >= 0
    ensures a * b >= 0
  {
  }

  method SwapBoundary(hours: nat, t: int) returns (b: int)
    requires hours > 0
    ensures NextBoundary(hours, t, b)
  {
    var d := hours * HOUR;
    b := DayStart(t);
    ghost var k: nat := 0;
    while b <= t
      invariant b == DayStart(t) + k * d && b - d <= t
      decreases t - b
    {
      b := b + d;
      assert (k + 1) * d == k * d + d;
      k := k + 1;
    }
    assert k * d == k * Period(hours);
  }

  /** The boundary exists for every instant; SwapBoundary computes it. */
  function Next(hours: nat, t: int): (b: int)
    requires hours > 0
    ensures NextBoundary(hours, t, b)
  {
    var d := Period(hours);
    var k: nat := (t - DayStart(t)) / d + 1;
    Turns(t - DayStart(t), d);
    DayStart(t) + k * d
  }

  lemma Turns(x: int, d: int)
    requires x >= 0 && d > 0
    ensures x / d >= 0 && x < (x / d + 1) * d && (x / d + 1) * d - d <= x
  {
    assert x == x / d * d + x % d;
    assert (x / d + 1) * d == x / d * d + d;
  }

  function Start(hours: nat, t: int): int
    requires hours > 0
  {
    Next(hours, t) - Period(hours)
  }

  /** Every instant lies in the period it is given. */
  lemma StartBefore(hours: nat, t: int)
    requires hours > 0
    ensures Start(hours, t) <= t < Next(hours, t)
    ensures Start(hours, t) >= DayStart(t)
  {
    var d := Period(hours);
    Turns(t - DayStart(t), d);
    assert ((t - DayStart(t)) / d + 1) * d - d == (t - DayStart(t)) / d * d;
    Nonneg((t - DayStart(t)) / d, d);
  }

  /** All instants of one period agree on where it starts. */
  ghost predicate PeriodsStable(hours: nat)
    requires hours > 0
  {
    forall t, u :: Start(hours, t) <= u < Next(hours, t) ==> Start(hours, u) == Start(hours, t)
  }

  lemma NextIsMultiple(hours: nat, t: int) returns (j: int)
    requires hours > 0 && 24 % hours == 0
    ensures Next(hours, t) == j * Period(hours)
  {
    hide Next, DayStart;
    var q, m := 24 / hours, t / DAY;
    var k: nat :| Next(hours, t) == DayStart(t) + k * Period(hours);
    WholeDays(t);
    assert q * hours == 24;
    DayInPeriods(m, q, hours);
    j := m * q + k;
  }

  lemma WholeDays(t: int)
    ensures DayStart(t) == t / DAY * DAY
  {
  }

  /** When the period divides the day, boundaries are the multiples of the period, and the next
      one is the least multiple after `t`. */
  lemma LeastAligned(hours: nat, t: int, c: int)
    requires hours > 0 && 24 % hours == 0
    ensures Next(hours, t) % Period(hours) == 0
    ensures c % Period(hours) == 0 && c > t ==> Next(hours, t) <= c
  {
    hide Next, DayStart;
    var d := Period(hours);
    var j := NextIsMultiple(hours, t);
    MultipleMod(j, d);
    if c % d == 0 && t < c < Next(hours, t) {
      Closer(j, c, d);
      assert false;
    }
  }

  lemma Closer(j: int, c: int, d: int)
    requires d > 0 && c % d == 0
    ensures c >= j * d || c <= j * d - d
  {
    var k := c / d;
    assert c == k * d;
    if -d < k * d - j * d < d {
      Apart(k, j, d);
    }
  }

  lemma DayInPeriods(m: int, q: int, hours: nat)
    requires q * hours == 24
    ensures m * DAY == (m * q) * Period(hours)
    ensures forall k :: m * DAY + k * Period(hours) == (m * q + k) * Period(hours)
  {
    assert DAY == q * Period(hours) by {
      assert q * (hours * HOUR) == (q * hours) * HOUR;
    }
    assert m * (q * Period(hours)) == (m * q) * Period(hours);
    forall k ensures m * DAY + k * Period(hours) == (m * q + k) * Period(hours) {
      Distribute(m * q, k, Period(hours));
    }
  }

  lemma Distribute(a: int, b: int, d: int)
    ensures (a + b) * d == a * d + b * d
  {
  }

  lemma MultipleMod(n: int, d: int)
    requires d > 0
    ensures (n * d) % d == 0
  {
    var r, q := (n * d) % d, (n * d) / d;
    assert n * d == q * d + r;
    Apart(n, q, d);
  }

  lemma DividingIsStable(hours: nat, t: int, u: int)
    requires hours > 0 && 24 % hours == 0
    requires Start(hours, t) <= u < Next(hours, t)
    ensures Start(hours, u) == Start(hours, t)
  {
    hide Next, DayStart;
    var d := Period(hours);
    var j := NextIsMultiple(hours, t);
    var k := NextIsMultiple(hours, u);
    Apart(j, k, d);
  }

  /** For a period that does not divide the day, the last period of a day and the first of the
      next overlap: an instant after midnight is given a different start. */
  lemma NotDividing(hours: nat)
    requires hours > 0 && 24 % hours != 0
    ensures !PeriodsStable(hours)
  {
    var d := Period(hours);
    var k := 24 / hours;
    var t, u := k * d, DAY;
    assert k * hours + 24 % hours == 24;
    Scale(k, hours);
    Scale(k + 1, hours);
    assert 0 <= t < DAY < t + d;
    assert DayStart(t) == 0 && DayStart(u) == DAY;
    assert t + d == 0 + (k + 1) * d by { Distribute(k, 1, d); }
    assert NextBoundary(hours, t, t + d);
    BoundaryUnique(hours, t, t + d, Next(hours, t));
    StartBefore(hours, u);
    assert Start(hours, t) <= u < Next(hours, t);
    assert Start(hours, u) >= DAY > Start(hours, t);
  }

  lemma Scale(k: nat, hours: nat)
    ensures k * Period(hours) == (k * hours) * HOUR && k * hours * HOUR >= 0
  {
    Nonneg(k, hours);
  }

  /** Restarting within a period resumes it, for every period, exactly when the period length
      divides the day. */
  lemma StableIffDividesDay(hours: nat)
    requires hours > 0
    ensures PeriodsStable(hours) <==> 24 % hours == 0
  {
    if 24 % hours == 0 {
      forall t, u | Start(hours, t) <= u < Next(hours, t) ensures Start(hours, u) == Start(hours, t) {
        DividingIsStable(hours, t, u);
      }
    } else {
      NotDividing(hours);
    }
  }
}
