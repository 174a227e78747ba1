/** The cached weight of a container against the weights of everything in it, at every depth. */
module DeepWeights {
  import opened Sums
  import opened Options
  import opened Ancestry
  import opened ItemHeap
  import opened Items

  /** The own weights of the items of a list and of everything inside them, down to a depth of `depth` containers. */
  ghost function DeepWeight<T>(h: Heap<T>, xs: seq<T>, depth: nat): int
    decreases depth, |xs|
  {
    if xs == [] then 0
    else
      (if xs[0] !in h then 0
       else h[xs[0]].OwnWeight() + (if depth == 0 then 0 else DeepWeight(h, h[xs[0]].contents, depth - 1)))
      + DeepWeight(h, xs[1..], depth)
  }

  lemma WeightOfOne<T>(r: Rec<T>, deep: int)
    requires Cong(r.totalWeight, deep) && (!r.isContainer ==> deep == 0)
    ensures Cong(r.Weight(), r.OwnWeight() + deep)
  {
    hide StackWeight;
    if r.isContainer {
      CongWrap(r.OwnWeight() + r.totalWeight);
      var j :| OffByWords(r.Weight(), r.OwnWeight() + r.totalWeight, j);
      var k :| OffByWords(r.totalWeight, deep, k);
      assert OffByWords(r.Weight(), r.OwnWeight() + deep, j + k);
    } else {
      CongRefl(r.Weight());
    }
  }

  lemma TotalIsSum<T>(h: Heap<T>, x: T)
    requires Balanced(h) && x in h
    ensures Cong(h[x].totalWeight, Sum(Weights(h), h[x].contents))
  {
    assert Cong(Defect(h, x), 0);
    var k :| OffByWords(Defect(h, x), 0, k);
    assert OffByWords(h[x].totalWeight, Sum(Weights(h), h[x].contents), k);
  }

  /** `k` is how deep the items of the list lie; no item lies deeper than `n`. */
  lemma {:induction false} SumIsDeep<T>(h: Heap<T>, xs: seq<T>, depth: nat, n: nat, k: nat)
    requires ContentsLinked(h) && Balanced(h) && ChainsWithin(Parents(h), n) && n <= depth + k
    requires forall x | x in xs :: x in h && Up(Parents(h), Some(x), k) != None
    ensures Cong(Sum(Weights(h), xs), DeepWeight(h, xs, depth))
    decreases depth, |xs|
  {
    hide Balanced, StackWeight, ContentsLinked, Cong;
    if xs == [] {
      CongRefl(0);
    } else {
      var x := xs[0];
      SumIsDeep(h, xs[1..], depth, n, k);
      ItemIsDeep(h, x, depth, n, k);
      CongAdd(h[x].Weight(), h[x].OwnWeight() + DeepWeight(h, h[x].contents, depth - 1),
              Sum(Weights(h), xs[1..]), DeepWeight(h, xs[1..], depth));
    }
  }

  lemma {:induction false} ItemIsDeep<T>(h: Heap<T>, x: T, depth: nat, n: nat, k: nat)
    requires ContentsLinked(h) && Balanced(h) && ChainsWithin(Parents(h), n) && n <= depth + k
    requires x in h && Up(Parents(h), Some(x), k) != None
    ensures depth > 0 && Cong(h[x].Weight(), h[x].OwnWeight() + DeepWeight(h, h[x].contents, depth - 1))
    decreases depth, 0
  {
    hide Balanced, StackWeight, Cong, Sum;
    if depth == 0 {
      UpStaysNone(Parents(h), Some(x), n, k);
    }
    forall y | y in h[x].contents
      ensures y in h && Up(Parents(h), Some(y), k + 1) != None
    {
      assert Up(Parents(h), Some(y), k + 1) == Up(Parents(h), Some(x), k);
    }
    SumIsDeep(h, h[x].contents, depth - 1, n, k + 1);
    TotalIsSum(h, x);
    CongTransitive(h[x].totalWeight, Sum(Weights(h), h[x].contents), DeepWeight(h, h[x].contents, depth - 1));
    WeightOfOne(h[x], DeepWeight(h, h[x].contents, depth - 1));
  }

  /**
   In a valid heap every cached weight is the recursive sum over
   the contents, in 32 bits, with any bound on the nesting.
   */
  lemma CachedWeightIsDeep<T>(h: Heap<T>, c: T, n: nat)
    requires Valid(h) && c in h && ChainsWithin(Parents(h), n)
    ensures h[c].totalWeight == DeepWeight(h, h[c].contents, n) % WORD
  {
    hide Forest, StackWeight, Sum, ParentsLinked;
    assert forall y | y in h[c].contents :: Up(Parents(h), Some(y), 0) == Some(y);
    SumIsDeep(h, h[c].contents, n, n, 0);
    TotalIsSum(h, c);
    CongTransitive(h[c].totalWeight, Sum(Weights(h), h[c].contents), DeepWeight(h, h[c].contents, n));
    CongWords(h[c].totalWeight, DeepWeight(h, h[c].contents, n));
  }

  /** The same for the cached number of items of a container. */
  lemma CachedAmmoIsSum<T>(h: Heap<T>, c: T)
    requires AmmoBalanced(h) && c in h
    ensures h[c].ammoCount == Sum(Counts(h), h[c].contents) % WORD
  {
    hide Sum;
    assert Cong(AmmoDefect(h, c), 0);
    var k :| OffByWords(AmmoDefect(h, c), 0, k);
    assert OffByWords(h[c].ammoCount, Sum(Counts(h), h[c].contents), k);
    CongWords(h[c].ammoCount, Sum(Counts(h), h[c].contents));
  }

  // ----- The number of items over the operations that change a content

  /**
   Changing a content keeps the cached number exact precisely when the change announced is the change that happens.
   */
  lemma RetypeKeepsAmmoIff<T>(h: Heap<T>, c: T, item: T, kind: ItemType, count: nat, subType: nat, ammo: int)
    requires ContentsLinked(h) && AmmoBalanced(h) && c in h && item in h && item in h[c].contents && item != c
    ensures AmmoBalanced(Retype(h, c, item, kind, count, subType, ammo)) <==> Cong(ammo, count - h[item].count)
  {
    hide Cong, Sum, ShiftWeights, ContentsLinked, Typed;
    var h1 := Typed(h, c, item, kind, count, subType, ammo);
    var h2 := Retype(h, c, item, kind, count, subType, ammo);
    forall x | x in h
      ensures Cong(AmmoDefect(h2, x), 0) <==> x != c || Cong(ammo, count - h[item].count)
    {
      ShiftKeepsAmmo(h1, c, h1[item].Weight() - h[item].Weight(), x);
      TypedAmmo(h, c, item, kind, count, subType, ammo, x);
    }
    assert AmmoBalanced(h2) ==> Cong(AmmoDefect(h2, c), 0);
  }

  lemma ReplaceKeepsAmmo<T>(h: Heap<T>, c: T, i: nat, item: T)
    requires AmmoBalanced(h) && c in h && item in h && i < |h[c].contents| && h[c].contents[i] in h && c != item
    requires h[c].contents[i] != c
    ensures AmmoBalanced(Replace(h, c, i, item))
  {
    hide Cong, ShiftWeights, Sum, Swapped, AmmoDefect;
    var out := h[c].contents[i];
    var h1 := Swapped(h, c, i, item);
    var h2 := ShiftWeights(h1, c, h[item].Weight() - h[out].Weight());
    forall x | x in h
      ensures Cong(AmmoDefect(Replace(h, c, i, item), x), 0)
    {
      SwappedAmmo(h, c, i, item, x);
      ShiftKeepsAmmo(h1, c, h[item].Weight() - h[out].Weight(), x);
      OrphanAmmo(h2, out, x);
    }
  }

  lemma OrphanAmmo<T>(h: Heap<T>, out: T, x: T)
    requires out in h && x in h
    ensures AmmoDefect(h[out := h[out].(parent := None)], x) == AmmoDefect(h, x)
  {
    assert Counts(h[out := h[out].(parent := None)]) == Counts(h);
  }

  lemma SwappedAmmo<T>(h: Heap<T>, c: T, i: nat, item: T, x: T)
    requires c in h && item in h && i < |h[c].contents| && h[c].contents[i] in h && c != item && x in h
    requires Cong(AmmoDefect(h, x), 0)
    ensures Cong(AmmoDefect(Swapped(h, c, i, item), x), 0)
  {
    hide Cong;
    assert Counts(Swapped(h, c, i, item)) == Counts(h);
    if x == c {
      var diff := h[item].count - h[h[c].contents[i]].count;
      SumReplaceAt(Counts(h), h[c].contents, i, item);
      WrappedAmmo(h[c].ammoCount, diff, Sum(Counts(h), h[c].contents));
      CongTransitive(AmmoDefect(Swapped(h, c, i, item), x), AmmoDefect(h, x), 0);
    }
  }

  /** A type whose number is no count: charges, or the kind of a fluid. */
  predicate KeepsItsCount(kind: ItemType) {
    kind.fluid || (!kind.stackable && kind.charges != 0)
  }

  /**
   `UpdateThing` keeps the cached number exact if and only if the number given is a count that fits a byte, or, for
   charges and fluids, happens to be the count the item has.
   */
  lemma UpdateKeepsAmmoIff<T>(h: Heap<T>, c: T, item: T, kind: ItemType, n: nat)
    requires Valid(h) && AmmoBalanced(h) && c in h && item in h && item in h[c].contents
    requires n < WORD && h[item].count < WORD
    ensures AmmoBalanced(Updated(h, c, item, kind, n)) <==> if KeepsItsCount(kind) then n == h[item].count else n < 256
  {
    hide Valid, AmmoBalanced, Retype, Cong;
    HeldOutside(h, c, item);
    RetypeLinked(h);
    var count := CountAfter(kind, h[item].count, n);
    RetypeKeepsAmmoIff(h, c, item, kind, count, SubTypeAfter(kind, h[item].subType, n), n - h[item].count);
    DifferenceIff(n, count, h[item].count);
  }

  lemma RetypeLinked<T>(h: Heap<T>)
    requires Valid(h)
    ensures ContentsLinked(h)
  {
    hide ContentsLinked;
  }

  lemma DifferenceIff(n: nat, count: nat, had: nat)
    requires n < WORD
    ensures Cong(n - had, count - had) <==> n == count % WORD
  {
    if Cong(n - had, count - had) {
      var k :| OffByWords(n - had, count - had, k);
      assert OffByWords(n, count, k);
      CongWords(n, count);
    }
    if n == count % WORD {
      assert OffByWords(n - had, count - had, -(count / WORD));
    }
  }

  /** `RemoveThing` keeps the cached number exact, for parts of a stack and for whole items. */
  lemma RemoveKeepsAmmo<T>(h: Heap<T>, c: T, item: T, n: nat)
    requires Valid(h) && AmmoBalanced(h) && c in h && item in h
    ensures AmmoBalanced(Removed(h, c, item, n))
  {
    hide Valid, AmmoBalanced, Retype, Unlink, Cong, CountLeft;
    if item in h[c].contents {
      HeldOutside(h, c, item);
      RetypeLinked(h);
      if h[item].kind.stackable && n != h[item].count {
        var left := CountLeft(h[item].count, n);
        CongRefl(left - h[item].count);
        RetypeKeepsAmmoIff(h, c, item, h[item].kind, left, h[item].subType, left - h[item].count);
      } else {
        UnlinkKeepsAmmo(h, c, IndexOf(h[c].contents, item));
      }
    }
  }

  // ----- Where it fails

  const WAND := ItemType(1, 0, false, false, 5, true, true, false, false, false)
  const BOX := ItemType(2, 0, false, false, 0, true, true, false, false, false)

  /** A box with a wand of five charges in it. */
  ghost function Boxed<T>(box: T, wand: T): (h: Heap<T>)
    requires box != wand
    ensures h.Keys == {box, wand} && h[box] == Rec(BOX, 0, 1, 0, None, true, 8, true, false, [wand], 0, 1)
    ensures h[wand] == Rec(WAND, 0, 1, 5, Some(box), false, 0, true, false, [], 0, 0)
  {
    map[box := Rec(BOX, 0, 1, 0, None, true, 8, true, false, [wand], 0, 1),
        wand := Rec(WAND, 0, 1, 5, Some(box), false, 0, true, false, [], 0, 0)]
  }

  /** Taking the wand down to three charges leaves the box with a cached number that is wrong. */
  lemma ChargesSpoilAmmo<T>(box: T, wand: T)
    requires box != wand
    ensures var h := Boxed(box, wand);
            && Valid(h) && AmmoBalanced(h) && wand in h[box].contents
            && !AmmoBalanced(Updated(h, box, wand, WAND, 3))
  {
    hide Boxed, Cong, Forest, AmmoBalanced, Balanced, Updated;
    var h := Boxed(box, wand);
    BoxedForest(box, wand);
    BoxedSums(box, wand);
    UpdateKeepsAmmoIff(h, box, wand, WAND, 3);
  }

  lemma BoxedForest<T>(box: T, wand: T)
    requires box != wand
    ensures Forest(Parents(Boxed(box, wand)))
  {
    hide Boxed;
    var p := Parents(Boxed(box, wand));
    assert p[box] == None && p[wand] == Some(box);
    assert Up(p, Some(box), 2) == Up(p, None, 1) && Up(p, Some(wand), 2) == Up(p, Some(box), 1) == Up(p, None, 0);
    assert ChainsWithin(p, 2);
  }

  lemma BoxedSums<T>(box: T, wand: T)
    requires box != wand
    ensures Balanced(Boxed(box, wand)) && AmmoBalanced(Boxed(box, wand))
  {
    hide Boxed, Cong;
    var h := Boxed(box, wand);
    assert [wand][1..] == [];
    assert Sum(Weights(h), [wand]) == 0 && Sum(Counts(h), [wand]) == 1;
    CongRefl(0);
  }
}
