/** The total of a finite table of numbers, and how it changes with one entry. */
module Totals {
  import opened Sums

  ghost function Total<K>(m: map<K, int>): int
  {
    if m == map[] then 0
    else
      var k :| k in m;
      m[k] + Total(m - {k})
  }

  lemma {:induction false} TotalSplit<K>(m: map<K, int>, k: K)
    requires k in m
    ensures Total(m) == m[k] + Total(m - {k})
    decreases |m|
  {
    var j :| j in m && Total(m) == m[j] + Total(m - {j});
    if j != k {
      TotalSplit(m - {j}, k);
      TotalSplit(m - {k}, j);
      assert m - {j} - {k} == m - {k} - {j};
    }
  }

  lemma TotalUpdate<K>(m: map<K, int>, k: K, v: int)
    ensures Total(m[k := v]) == Total(m) + v - (if k in m then m[k] else 0)
  {
    TotalSplit(m[k := v], k);
    assert m[k := v] - {k} == m - {k};
    if k in m {
      TotalSplit(m, k);
    } else {
      assert m - {k} == m;
    }
  }

  lemma TotalRemove<K>(m: map<K, int>, k: K)
    ensures Total(m - {k}) == Total(m) - (if k in m then m[k] else 0)
  {
    if k in m {
      TotalSplit(m, k);
    } else {
      assert m - {k} == m;
    }
  }

  lemma {:induction false} TotalBounds<K>(m: map<K, int>, k: K)
    requires k in m && forall j | j in m :: m[j] >= 0
    ensures 0 <= m[k] <= Total(m)
    decreases |m|
  {
    TotalSplit(m, k);
    if m - {k} != map[] {
      var j :| j in m - {k};
      TotalBounds(m - {k}, j);
    }
  }

  lemma {:induction false} TotalNonNegative<K>(m: map<K, int>)
    requires forall j | j in m :: m[j] >= 0
    ensures Total(m) >= 0
  {
    if m != map[] {
      var j :| j in m;
      TotalBounds(m, j);
    }
  }

  /** A total is what a list of its keys has and what the other keys have. */
  lemma {:induction false} TotalOfList<K>(m: map<K, int>, xs: seq<K>)
    requires Distinct(xs) && forall x | x in xs :: x in m
    ensures Total(m) == Sum(m, xs) + Total(m - (set x | x in xs))
  {
    if xs == [] {
      assert m - (set x | x in xs) == m;
    } else {
      var k, rest := xs[0], m - {xs[0]};
      TotalSplit(m, k);
      assert k !in xs[1..];
      TotalOfList(rest, xs[1..]);
      SumAgree(m, rest, xs[1..]);
      assert rest - (set x | x in xs[1..]) == m - (set x | x in xs);
    }
  }
}
