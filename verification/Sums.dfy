/** Sums of a snapshot `m` over the objects of a list, and the modular arithmetic of a 32-bit word. */
module Sums {

  /** Number of values of an unsigned 32-bit word. */
  const WORD: nat := 0x1_0000_0000

  function Value<T(==)>(m: map<T, int>, x: T): int {
    if x in m then m[x] else 0
  }

  function Sum<T(==)>(m: map<T, int>, xs: seq<T>): int {
    if xs == [] then 0 else Value(m, xs[0]) + Sum(m, xs[1..])
  }

  ghost predicate Distinct<T>(xs: seq<T>) {
    forall i, j :: 0 <= i < j < |xs| ==> xs[i] != xs[j]
  }

  predicate OffByWords(a: int, b: int, k: int) {
    a == b + WORD * k
  }

  /** Two values that an unsigned 32-bit word cannot tell apart. */
  ghost predicate Cong(a: int, b: int) {
    exists k :: OffByWords(a, b, k)
  }

  lemma {:induction false} SumConcat<T>(m: map<T, int>, xs: seq<T>, ys: seq<T>)
    ensures Sum(m, xs + ys) == Sum(m, xs) + Sum(m, ys)
  {
    if xs == [] {
      assert xs + ys == ys;
    } else {
      assert (xs + ys)[1..] == xs[1..] + ys;
      SumConcat(m, xs[1..], ys);
    }
  }

  lemma {:induction false} SumAgree<T>(m: map<T, int>, m': map<T, int>, xs: seq<T>)
    requires forall x :: x in xs ==> Value(m, x) == Value(m', x)
    ensures Sum(m, xs) == Sum(m', xs)
  {
    if xs != [] {
      SumAgree(m, m', xs[1..]);
    }
  }

  /** The sum with the element at position `i` taken out. */
  lemma SumRemoveAt<T>(m: map<T, int>, xs: seq<T>, i: nat)
    requires i < |xs|
    ensures Sum(m, xs) == Sum(m, xs[..i] + xs[i + 1..]) + Value(m, xs[i])
  {
    assert xs == xs[..i] + ([xs[i]] + xs[i + 1..]);
    SumConcat(m, xs[..i], [xs[i]] + xs[i + 1..]);
    SumConcat(m, [xs[i]], xs[i + 1..]);
    SumConcat(m, xs[..i], xs[i + 1..]);
    assert Sum(m, [xs[i]]) == Value(m, xs[i]);
  }

  lemma SumReplaceAt<T>(m: map<T, int>, xs: seq<T>, i: nat, y: T)
    requires i < |xs|
    ensures Sum(m, xs[i := y]) == Sum(m, xs) - Value(m, xs[i]) + Value(m, y)
  {
    SumRemoveAt(m, xs, i);
    SumRemoveAt(m, xs[i := y], i);
    assert xs[i := y][..i] + xs[i := y][i + 1..] == xs[..i] + xs[i + 1..];
  }

  /** In a list without repetition, changing one value shifts the sum by that change exactly when the list holds it. */
  lemma {:induction false} SumUpdate<T>(m: map<T, int>, xs: seq<T>, x: T, v: int)
    requires Distinct(xs)
    ensures Sum(m[x := v], xs) == Sum(m, xs) + (if x in xs then v - Value(m, x) else 0)
  {
    if xs != [] {
      SumUpdate(m, xs[1..], x, v);
      assert x in xs <==> x == xs[0] || x in xs[1..];
    }
  }

  lemma {:induction false} ZeroSum<T>(m: map<T, int>, xs: seq<T>)
    requires forall x | x in xs :: Value(m, x) == 0
    ensures Sum(m, xs) == 0
  {
    if xs != [] {
      ZeroSum(m, xs[1..]);
    }
  }

  lemma {:induction false} SumNonNegative<T>(m: map<T, int>, xs: seq<T>)
    requires forall x :: x in m ==> 0 <= m[x]
    ensures 0 <= Sum(m, xs)
  {
    if xs != [] {
      SumNonNegative(m, xs[1..]);
    }
  }

  lemma CongRefl(a: int)
    ensures Cong(a, a)
  {
    assert OffByWords(a, a, 0);
  }

  lemma CongTransitive(a: int, b: int, c: int)
    requires Cong(a, b) && Cong(b, c)
    ensures Cong(a, c)
  {
    var j :| OffByWords(a, b, j);
    var k :| OffByWords(b, c, k);
    assert OffByWords(a, c, j + k);
  }

  lemma CongAdd(a: int, b: int, c: int, d: int)
    requires Cong(a, b) && Cong(c, d)
    ensures Cong(a + c, b + d) && Cong(a - c, b - d)
  {
    var j :| OffByWords(a, b, j);
    var k :| OffByWords(c, d, k);
    assert OffByWords(a + c, b + d, j + k);
    assert OffByWords(a - c, b - d, j - k);
  }

  lemma CongWrap(a: int)
    ensures Cong(a % WORD, a)
  {
    assert OffByWords(a % WORD, a, -(a / WORD));
  }

  /** Two words that cannot be told apart are equal. */
  lemma CongWords(a: int, b: int)
    requires Cong(a, b) && 0 <= a < WORD
    ensures a == b % WORD
  {
    var k :| OffByWords(a, b, k);
    assert a == b + WORD * k;
  }
}
