/** The elements of a finite set of integers in increasing order. */
module SortedSets {
  ghost predicate Least(s: set<int>, m: int) {
    m in s && forall x :: x in s ==> m <= x
  }

  lemma Pick<T>(s: set<T>) returns (a: T)
    requires s != {}
    ensures a in s
  {
    a :| a in s;
  }

  lemma {:induction false} LeastExists(s: set<int>)
    requires s != {}
    ensures exists m :: Least(s, m)
    decreases |s|
  {
    var a := Pick(s);
    var t := s - {a};
    assert forall x :: x in s ==> x == a || x in t;
    if t == {} {
      assert Least(s, a);
    } else {
      LeastExists(t);
      var m :| Least(t, m);
      assert Least(s, if a < m then a else m);
    }
  }

  function Min(s: set<int>): (m: int)
    requires s != {}
    ensures Least(s, m)
  {
    LeastExists(s);
    var m :| m in s && forall x :: x in s ==> m <= x;
    m
  }

  ghost predicate Lists(r: seq<int>, s: set<int>) {
    && |r| == |s|
    && (forall x :: x in s ==> x in r)
    && (forall i :: 0 <= i < |r| ==> r[i] in s)
    && (forall i, j :: 0 <= i < j < |r| ==> r[i] < r[j])
  }

  lemma ListsMin(r: seq<int>, s: set<int>, m: int)
    requires Least(s, m) && Lists(r, s - {m})
    ensures Lists([m] + r, s)
  {
    var q := [m] + r;
    assert |s| == |s - {m}| + 1;
    forall x | x in s ensures x in q {
      if x == m {
        assert q[0] == m;
      } else {
        assert x in r;
      }
    }
    forall i, j | 0 <= i < j < |q| ensures q[i] < q[j] {
      assert q[j] == r[j - 1] && r[j - 1] in s - {m};
    }
  }

  function Sorted(s: set<int>): (r: seq<int>)
    ensures Lists(r, s)
    decreases |s|
  {
    if s == {} then []
    else
      var m := Min(s);
      var r := Sorted(s - {m});
      ListsMin(r, s, m);
      [m] + r
  }
}
