/** How many pieces of a kind a container holds, and how every operation of a container changes that. */
module Conservation {
  import opened Sums
  import opened Options
  import opened Ancestry
  import opened ItemHeap

  ghost function KeyCounts<T>(h: Heap<T>, k: Key): map<T, int> {
    map x | x in h :: if h[x].GetKey() == k then h[x].count else 0
  }

  /** The pieces of kind `k` that lie directly in `c`. */
  ghost function CountIn<T>(h: Heap<T>, c: T, k: Key): int
    requires c in h
  {
    Sum(KeyCounts(h, k), h[c].contents)
  }

  /** The step from `h` to `h'` brings `d` pieces of kind `k` into `c` and changes no other number anywhere. */
  ghost predicate CountsMove<T>(h: Heap<T>, h': Heap<T>, c: T, k: Key, d: int) {
    && h.Keys <= h'.Keys
    && forall x, q | x in h :: CountIn(h', x, q) == CountIn(h, x, q) + (if x == c && q == k then d else 0)
  }

  /** `out` pieces of kind `k` leave `from` and `into` of them arrive in `to`; no other number changes anywhere. */
  ghost predicate Transferred<T>(h: Heap<T>, h': Heap<T>, from: T, to: T, k: Key, out: int, into: int) {
    && h.Keys <= h'.Keys
    && forall x, q | x in h ::
         CountIn(h', x, q) == CountIn(h, x, q) - (if x == from && q == k then out else 0)
                                               + (if x == to && q == k then into else 0)
  }

  /** No stack that lies in a container holds more than a full stack; containers and fluids do not stack. */
  ghost predicate StacksBounded<T>(h: Heap<T>) {
    forall x | x in h :: && (h[x].parent.Some? && h[x].kind.stackable ==> h[x].count <= STACK_SIZE)
                         && (h[x].isContainer ==> !h[x].kind.stackable)
                         && (h[x].kind.stackable ==> !h[x].kind.fluid)
  }

  lemma SameCounts<T>(h: Heap<T>, h': Heap<T>, x: T, q: Key)
    requires x in h && x in h' && h'[x].contents == h[x].contents
    requires forall y | y in h[x].contents ::
               y in h && y in h' && h'[y].GetKey() == h[y].GetKey() && h'[y].count == h[y].count
    ensures CountIn(h', x, q) == CountIn(h, x, q)
  {
    SumAgree(KeyCounts(h, q), KeyCounts(h', q), h[x].contents);
  }

  lemma ShiftSameCounts<T>(h: Heap<T>, at: T, diff: int, x: T, q: Key)
    requires x in h
    ensures CountIn(ShiftWeights(h, at, diff), x, q) == CountIn(h, x, q)
  {
    hide Inside;
    assert KeyCounts(ShiftWeights(h, at, diff), q) == KeyCounts(h, q);
  }

  lemma AddCounts<T>(h: Heap<T>, c: T, item: T, front: bool)
    requires c in h && item in h && c != item
    ensures CountsMove(h, Add(h, c, item, front), c, h[item].GetKey(), h[item].count)
  {
    hide Add, CountIn;
    forall x, q | x in h
      ensures CountIn(Add(h, c, item, front), x, q)
           == CountIn(h, x, q) + (if x == c && q == h[item].GetKey() then h[item].count else 0)
    {
      AddCountsAt(h, c, item, front, x, q);
    }
  }

  lemma AddCountsAt<T>(h: Heap<T>, c: T, item: T, front: bool, x: T, q: Key)
    requires c in h && item in h && c != item && x in h
    ensures CountIn(Add(h, c, item, front), x, q)
         == CountIn(h, x, q) + (if x == c && q == h[item].GetKey() then h[item].count else 0)
  {
    hide ShiftWeights, StackWeight, Listed, CountIn;
    ShiftSameCounts(Listed(h, c, item, front), c, h[item].Weight(), x, q);
    ListedCounts(h, c, item, front, x, q);
  }

  lemma ListedCounts<T>(h: Heap<T>, c: T, item: T, front: bool, x: T, q: Key)
    requires c in h && item in h && c != item && x in h
    ensures CountIn(Listed(h, c, item, front), x, q)
         == CountIn(h, x, q) + (if x == c && q == h[item].GetKey() then h[item].count else 0)
  {
    assert KeyCounts(Listed(h, c, item, front), q) == KeyCounts(h, q);
    if x == c {
      SumOfListed(KeyCounts(h, q), h[c].contents, item, front);
    }
  }

  lemma UnlinkCounts<T>(h: Heap<T>, c: T, i: nat)
    requires c in h && i < |h[c].contents| && h[c].contents[i] in h && h[c].contents[i] != c
    ensures var item := h[c].contents[i];
            CountsMove(h, Unlink(h, c, i), c, h[item].GetKey(), 0 - h[item].count)
  {
    hide ShiftWeights, Struck, CountIn, StackWeight;
    var item := h[c].contents[i];
    var h1 := ShiftWeights(h, c, -h[item].Weight());
    ShiftKeepsContents(h, c, -h[item].Weight(), c);
    forall x, q | x in h
      ensures CountIn(Unlink(h, c, i), x, q)
           == CountIn(h, x, q) - (if x == c && q == h[item].GetKey() then h[item].count else 0)
    {
      ShiftSameCounts(h, c, -h[item].Weight(), x, q);
      ShiftKeepsContents(h, c, -h[item].Weight(), x);
      ShiftKeepsContents(h, c, -h[item].Weight(), item);
      StruckCounts(h1, c, i, x, q);
    }
  }

  lemma StruckCounts<T>(h: Heap<T>, c: T, i: nat, x: T, q: Key)
    requires c in h && i < |h[c].contents| && h[c].contents[i] in h && h[c].contents[i] != c && x in h
    ensures var item := h[c].contents[i];
            CountIn(Struck(h, c, i), x, q)
            == CountIn(h, x, q) - (if x == c && q == h[item].GetKey() then h[item].count else 0)
  {
    assert KeyCounts(Struck(h, c, i), q) == KeyCounts(h, q);
    if x == c {
      SumRemoveAt(KeyCounts(h, q), h[c].contents, i);
    }
  }

  lemma RetypeCounts<T>(h: Heap<T>, c: T, item: T, count: nat, subType: nat, ammo: int)
    requires ContentsLinked(h) && c in h && item in h && item in h[c].contents && item != c
    ensures CountsMove(h, Retype(h, c, item, h[item].kind, count, subType, ammo), c, h[item].GetKey(),
                       count - h[item].count)
  {
    hide Retype, CountIn, ContentsLinked;
    forall x, q | x in h
      ensures CountIn(Retype(h, c, item, h[item].kind, count, subType, ammo), x, q)
           == CountIn(h, x, q) + (if x == c && q == h[item].GetKey() then count - h[item].count else 0)
    {
      RetypeCountsAt(h, c, item, count, subType, ammo, x, q);
    }
  }

  lemma RetypeCountsAt<T>(h: Heap<T>, c: T, item: T, count: nat, subType: nat, ammo: int, x: T, q: Key)
    requires ContentsLinked(h) && c in h && item in h && item in h[c].contents && item != c && x in h
    ensures CountIn(Retype(h, c, item, h[item].kind, count, subType, ammo), x, q)
         == CountIn(h, x, q) + (if x == c && q == h[item].GetKey() then count - h[item].count else 0)
  {
    hide ShiftWeights, Typed, StackWeight, CountIn, ContentsLinked;
    var h1 := Typed(h, c, item, h[item].kind, count, subType, ammo);
    ShiftSameCounts(h1, c, h1[item].Weight() - h[item].Weight(), x, q);
    TypedCounts(h, c, item, count, subType, ammo, x, q);
  }

  lemma TypedCounts<T>(h: Heap<T>, c: T, item: T, count: nat, subType: nat, ammo: int, x: T, q: Key)
    requires ContentsLinked(h) && c in h && item in h && item in h[c].contents && item != c && x in h
    ensures CountIn(Typed(h, c, item, h[item].kind, count, subType, ammo), x, q)
         == CountIn(h, x, q) + (if x == c && q == h[item].GetKey() then count - h[item].count else 0)
  {
    hide ContentsLinked, Sum;
    var h1 := Typed(h, c, item, h[item].kind, count, subType, ammo);
    var v := if h[item].GetKey() == q then count else 0;
    assert KeyCounts(h1, q) == KeyCounts(h, q)[item := v];
    HeldOnce(h, c, item, x);
    SumUpdate(KeyCounts(h, q), h[x].contents, item, v);
  }

  /** A new item that lies nowhere yet. */
  ghost predicate IsLoose<T>(r: Rec<T>) {
    r.parent == None && r.contents == [] && r.totalWeight == 0 && r.ammoCount == 0
  }

  lemma NewItemKeepsValid<T>(h: Heap<T>, x: T, r: Rec<T>)
    requires Valid(h) && x !in h && IsLoose(r)
    ensures Valid(h[x := r])
  {
    hide Cong, Forest, Sum, StackWeight;
    var h1 := h[x := r];
    NewItemForest(h, x, r);
    NewItemLinks(h, x, r);
    forall y | y in h1
      ensures Cong(Defect(h1, y), 0)
    {
      NewItemDefect(h, x, r, y);
    }
  }

  lemma NewItemDefect<T>(h: Heap<T>, x: T, r: Rec<T>, y: T)
    requires ContentsLinked(h) && x !in h && IsLoose(r) && y in h[x := r]
    requires y in h ==> Cong(Defect(h, y), 0)
    ensures Cong(Defect(h[x := r], y), 0)
  {
    hide StackWeight;
    if y == x {
      CongRefl(0);
    } else {
      SumAgree(Weights(h), Weights(h[x := r]), h[y].contents);
    }
  }

  lemma NewItemLinks<T>(h: Heap<T>, x: T, r: Rec<T>)
    requires ContentsLinked(h) && ParentsLinked(h, {}) && x !in h && IsLoose(r)
    ensures ContentsLinked(h[x := r]) && ParentsLinked(h[x := r], {})
  {
    var h1 := h[x := r];
    forall y | y in h1 && h1[y].parent.Some?
      ensures h1[y].parent.value in h1 && y in h1[h1[y].parent.value].contents
    {
      assert h[y].parent.value in h && y in h[h[y].parent.value].contents;
    }
  }

  lemma NewItemForest<T>(h: Heap<T>, x: T, r: Rec<T>)
    requires Forest(Parents(h)) && x !in h && IsLoose(r)
    ensures Forest(Parents(h[x := r]))
  {
    var p := Parents(h);
    assert Parents(h[x := r]) == p[x := None];
    var n: nat :| ChainsWithin(p, n);
    forall y | y in p[x := None]
      ensures Up(p[x := None], Some(y), n + 1) == None
    {
      NewRootChain(p, x, Some(y), n);
    }
    assert ChainsWithin(p[x := None], n + 1);
  }

  lemma {:induction false} NewRootChain<T>(p: map<T, Option<T>>, x: T, y: Option<T>, n: nat)
    requires x !in p && (y == None || y == Some(x) || Up(p, y, n) == None)
    ensures Up(p[x := None], y, n + 1) == None
    decreases n
  {
    if y.Some? && y.value != x && y.value in p && n > 0 {
      NewRootChain(p, x, p[y.value], n - 1);
    }
    UpOfNone(p[x := None], n);
  }

  lemma NewItemCounts<T>(h: Heap<T>, x: T, r: Rec<T>, c: T, k: Key)
    requires ContentsLinked(h) && x !in h
    ensures CountsMove(h, h[x := r], c, k, 0)
  {
    forall y, q | y in h
      ensures CountIn(h[x := r], y, q) == CountIn(h, y, q)
    {
      SameCounts(h, h[x := r], y, q);
    }
  }

  lemma Compose<T>(h: Heap<T>, h1: Heap<T>, h2: Heap<T>, from: T, to: T, k: Key, out: int, a: int, b: int)
    requires Transferred(h, h1, from, to, k, out, a) && CountsMove(h1, h2, to, k, b)
    ensures Transferred(h, h2, from, to, k, out, a + b)
  {
    hide CountIn;
  }

  /**
   A transfer that brings everything it takes keeps the number of pieces of every kind, summed over any list of
   containers that has both ends.
   */
  lemma TransferConserves<T>(h: Heap<T>, h': Heap<T>, from: T, to: T, k: Key, m: int, cs: seq<T>, q: Key)
    requires Transferred(h, h', from, to, k, m, m)
    requires Distinct(cs) && (forall c | c in cs :: c in h) && (from in cs <==> to in cs)
    ensures TotalIn(h', cs, q) == TotalIn(h, cs, q)
  {
    TotalMoves(h, h', from, to, k, m, m, cs, q);
  }

  /** The pieces of kind `q` in the containers of a list. */
  ghost function TotalIn<T>(h: Heap<T>, cs: seq<T>, q: Key): int
    requires forall c | c in cs :: c in h
  {
    if cs == [] then 0 else CountIn(h, cs[0], q) + TotalIn(h, cs[1..], q)
  }

  lemma {:induction false} TotalMoves<T>(h: Heap<T>, h': Heap<T>, from: T, to: T, k: Key, out: int, into: int,
                                         cs: seq<T>, q: Key)
    requires Transferred(h, h', from, to, k, out, into)
    requires Distinct(cs) && (forall c | c in cs :: c in h)
    ensures forall c | c in cs :: c in h'
    ensures TotalIn(h', cs, q) == TotalIn(h, cs, q) - (if q == k && from in cs then out else 0)
                                                    + (if q == k && to in cs then into else 0)
  {
    hide CountIn;
    if cs != [] {
      TotalMoves(h, h', from, to, k, out, into, cs[1..], q);
      assert forall c :: c in cs <==> c == cs[0] || c in cs[1..];
    }
  }
}
