/** Parent chains: walking `k` steps up a parent relation, and what keeps the relation a forest. */
module Ancestry {
  import opened Options

  /** The `k`-th enclosing element of `x`, or None when the chain ends before. */
  function Up<T(==)>(p: map<T, Option<T>>, x: Option<T>, k: nat): Option<T>
    decreases k
  {
    if k == 0 || x == None then x
    else if x.value in p then Up(p, p[x.value], k - 1)
    else None
  }

  /** `a` is `x` itself or encloses it at some depth. */
  ghost predicate Inside<T>(p: map<T, Option<T>>, x: T, a: T) {
    exists k: nat :: Up(p, Some(x), k) == Some(a)
  }

  ghost predicate ChainsWithin<T>(p: map<T, Option<T>>, n: nat) {
    forall x :: x in p ==> Up(p, Some(x), n) == None
  }

  /** Every upward walk ends: the relation is a forest. */
  ghost predicate Forest<T>(p: map<T, Option<T>>) {
    exists n: nat :: ChainsWithin(p, n)
  }

  lemma {:induction false} UpOfNone<T>(p: map<T, Option<T>>, k: nat)
    ensures Up(p, None, k) == None
  {
  }

  lemma {:induction false} UpCompose<T>(p: map<T, Option<T>>, x: Option<T>, j: nat, k: nat)
    ensures Up(p, Up(p, x, j), k) == Up(p, x, j + k)
    decreases j
  {
    if j == 0 || x == None {
      UpOfNone(p, j);
    } else if x.value in p {
      UpCompose(p, p[x.value], j - 1, k);
    }
  }

  lemma UpStaysNone<T>(p: map<T, Option<T>>, x: Option<T>, j: nat, k: nat)
    requires Up(p, x, j) == None && j <= k
    ensures Up(p, x, k) == None
  {
    UpCompose(p, x, j, k - j);
  }

  lemma InsideRefl<T>(p: map<T, Option<T>>, x: T)
    ensures Inside(p, x, x)
  {
    assert Up(p, Some(x), 0) == Some(x);
  }

  /** What encloses the parent encloses the child. */
  lemma InsideStep<T>(p: map<T, Option<T>>, x: T, y: T, a: T)
    requires x in p && p[x] == Some(y)
    requires Inside(p, y, a)
    ensures Inside(p, x, a)
  {
    var k: nat :| Up(p, Some(y), k) == Some(a);
    assert Up(p, Some(x), k + 1) == Some(a);
  }

  lemma InsideTransitive<T>(p: map<T, Option<T>>, x: T, y: T, z: T)
    requires Inside(p, x, y) && Inside(p, y, z)
    ensures Inside(p, x, z)
  {
    var j: nat :| Up(p, Some(x), j) == Some(y);
    var k: nat :| Up(p, Some(y), k) == Some(z);
    UpCompose(p, Some(x), j, k);
    assert Up(p, Some(x), j + k) == Some(z);
  }

  /** Being inside, unfolded by one step. */
  lemma InsideCases<T>(p: map<T, Option<T>>, x: T, a: T)
    ensures Inside(p, x, a) <==> x == a || (x in p && p[x].Some? && Inside(p, p[x].value, a))
  {
    if Inside(p, x, a) && x != a {
      var k: nat :| Up(p, Some(x), k) == Some(a);
      assert k != 0;
      if x in p {
        UpOfNone(p, k - 1);
        assert Up(p, p[x], k - 1) == Some(a);
      }
    }
    if x == a {
      InsideRefl(p, x);
    }
    if x in p && p[x].Some? && Inside(p, p[x].value, a) {
      InsideStep(p, x, p[x].value, a);
    }
  }

  lemma {:induction false} UpPeriod<T>(p: map<T, Option<T>>, x: Option<T>, k: nat, m: nat)
    requires Up(p, x, k) == x
    ensures Up(p, x, k * m) == x
    decreases m
  {
    if m > 0 {
      UpPeriod(p, x, k, m - 1);
      UpCompose(p, x, k * (m - 1), k);
      assert k * (m - 1) + k == k * m;
    }
  }

  /** In a forest nothing sits strictly inside itself. */
  lemma NoCycle<T>(p: map<T, Option<T>>, x: T, k: nat)
    requires Forest(p) && x in p && k > 0
    ensures Up(p, Some(x), k) != Some(x)
  {
    if Up(p, Some(x), k) == Some(x) {
      var n: nat :| ChainsWithin(p, n);
      UpPeriod(p, Some(x), k, n);
      assert k * n >= n by {
        assert (k - 1) * n >= 0;
        assert k * n == (k - 1) * n + n;
      }
      UpStaysNone(p, Some(x), n, k * n);
      assert false;
    }
  }
  /** A chain that never meets `a` is not touched by a change of `a`'s parent. */
  lemma {:induction false} UpUntouched<T>(p: map<T, Option<T>>, a: T, b: Option<T>, x: Option<T>, k: nat)
    requires forall j: nat :: j < k ==> Up(p, x, j) != Some(a)
    ensures Up(p[a := b], x, k) == Up(p, x, k)
    decreases k
  {
    if k > 0 && x.Some? {
      assert Up(p, x, 0) == x;
      if x.value in p {
        forall j: nat | j < k - 1
          ensures Up(p, p[x.value], j) != Some(a)
        {
          assert Up(p, x, j + 1) == Up(p, p[x.value], j);
        }
        UpUntouched(p, a, b, p[x.value], k - 1);
      }
    }
  }

  lemma {:induction false} LinkedChainEnds<T>(p: map<T, Option<T>>, a: T, b: Option<T>, x: Option<T>, m: nat, n: nat)
    requires Up(p, x, m) == None
    requires Up(p[a := b], b, n) == None
    ensures Up(p[a := b], x, m + 1 + n) == None
    decreases m
  {
    var q := p[a := b];
    if x.Some? {
      assert m > 0;
      if x.value == a {
        assert Up(q, x, m + 1 + n) == Up(q, b, m + n);
        UpStaysNone(q, b, n, m + n);
      } else if x.value in p {
        assert Up(q, x, m + 1 + n) == Up(q, p[x.value], m + n);
        LinkedChainEnds(p, a, b, p[x.value], m - 1, n);
      }
    }
  }

  /** Hanging `a` under `b` keeps the forest when `a` neither is `b` nor encloses it. */
  lemma LinkKeepsForest<T>(p: map<T, Option<T>>, a: T, b: T)
    requires Forest(p) && b in p && a in p
    requires !Inside(p, b, a)
    ensures Forest(p[a := Some(b)])
  {
    var n: nat :| ChainsWithin(p, n);
    var q := p[a := Some(b)];
    UpUntouched(p, a, Some(b), Some(b), n);
    forall x | x in q
      ensures Up(q, Some(x), n + 1 + n) == None
    {
      LinkedChainEnds(p, a, Some(b), Some(x), n, n);
    }
    assert ChainsWithin(q, n + 1 + n);
  }

  /** Hanging `a` under `b` makes a cycle when `a` is `b` or encloses it: the test is exact. */
  lemma LinkBreaksForest<T>(p: map<T, Option<T>>, a: T, b: T)
    requires Forest(p) && b in p && a in p
    requires Inside(p, b, a)
    ensures !Forest(p[a := Some(b)])
  {
    var q := p[a := Some(b)];
    var k := FirstMeeting(p, Some(b), a);
    UpUntouched(p, a, Some(b), Some(b), k);
    assert Up(q, Some(a), k + 1) == Some(a);
    if Forest(q) {
      NoCycle(q, a, k + 1);
      assert false;
    }
  }

  lemma FirstMeeting<T>(p: map<T, Option<T>>, x: Option<T>, a: T) returns (k: nat)
    requires exists j: nat :: Up(p, x, j) == Some(a)
    ensures Up(p, x, k) == Some(a)
    ensures forall j: nat :: j < k ==> Up(p, x, j) != Some(a)
  {
    k :| Up(p, x, k) == Some(a);
    while exists j: nat :: j < k && Up(p, x, j) == Some(a)
      invariant Up(p, x, k) == Some(a)
      decreases k
    {
      var j: nat :| j < k && Up(p, x, j) == Some(a);
      k := j;
    }
  }

  lemma {:induction false} CutChainEnds<T>(p: map<T, Option<T>>, a: T, x: Option<T>, n: nat)
    requires Up(p, x, n) == None
    ensures Up(p[a := None], x, n) == None
    decreases n
  {
    if n > 0 && x.Some? && x.value != a && x.value in p {
      CutChainEnds(p, a, p[x.value], n - 1);
    } else {
      UpOfNone(p[a := None], n);
      if x.Some? && n > 0 && x.value == a {
        UpOfNone(p[a := None], n - 1);
      }
    }
  }

  /** Taking an element out of its parent keeps the forest. */
  lemma CutKeepsForest<T>(p: map<T, Option<T>>, a: T)
    requires Forest(p) && a in p
    ensures Forest(p[a := None])
  {
    var n: nat :| ChainsWithin(p, n);
    forall x | x in p
      ensures Up(p[a := None], Some(x), n) == None
    {
      CutChainEnds(p, a, Some(x), n);
    }
    assert ChainsWithin(p[a := None], n);
  }

  lemma InsideUntouched<T>(p: map<T, Option<T>>, a: T, v: Option<T>, x: T, z: T)
    requires !Inside(p, x, a)
    ensures Inside(p[a := v], x, z) <==> Inside(p, x, z)
  {
    forall k: nat
      ensures Up(p[a := v], Some(x), k) == Up(p, Some(x), k)
    {
      UpUntouched(p, a, v, Some(x), k);
    }
    if Inside(p[a := v], x, z) {
      var k: nat :| Up(p[a := v], Some(x), k) == Some(z);
      assert Up(p, Some(x), k) == Some(z);
    }
  }
}
