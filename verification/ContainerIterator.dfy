/** Iterating over everything inside a container, and the questions answered with it. */
module ContainerIterators {
  import opened Sums
  import opened Options
  import opened Ancestry
  import opened ItemHeap
  import opened Items
  import opened Walk

  /** `over` holds the containers still to walk, the first of them up to position `cur`. */
  class ContainerIterator {
    var over: seq<Item>
    var cur: nat

    ghost const root: Item
    ghost var visited: seq<Item>
    ghost var passed: nat
    ghost var depths: seq<nat>
    ghost var levels: seq<nat>

    ghost predicate AtStop(h: Heap<Item>)
      reads this
    {
      && WalkInv(h, root, visited, passed, cur)
      && DepthInv(h, root, visited, passed, depths, levels)
      && root in h && passed <= |Opened(h, root, visited)|
      && over == Opened(h, root, visited)[passed..]
    }

    constructor (c: Item, ghost S: set<Item>)
      requires c in S && Valid(HeapOf(S))
      ensures AtStop(HeapOf(S)) && root == c && visited == []
    {
      hide Valid, WalkInv, DepthInv, Opened, HeapOf;
      over := if c.itemlist != [] then [c] else [];
      cur := 0;
      root, visited, passed, depths := c, [], 0, [];
      levels := if c.itemlist != [] then [0] else [];
      new;
      HeapAt(S, c);
      WalkStarts(HeapOf(S), c);
    }

    predicate HasNext()
      reads this
    {
      over != []
    }

    /** The item the iterator points at; there always is one while it has a next. */
    method Current(ghost S: set<Item>) returns (x: Item)
      requires Valid(HeapOf(S)) && AtStop(HeapOf(S)) && HasNext()
      ensures x in S && x !in visited && IsNext(HeapOf(S), root, visited, passed, cur, x)
    {
      hide Valid, WalkInv, DepthInv, Opened, ContentsLinked;
      NextIsThere(S, root, visited, passed, cur, depths, levels);
      x := over[0].itemlist[cur];
    }

    /** Moves on; a container passed over is remembered for later when it has contents. */
    method Advance(ghost S: set<Item>)
      requires Valid(HeapOf(S)) && AtStop(HeapOf(S)) && HasNext()
      modifies this
      ensures AtStop(HeapOf(S))
      ensures |visited| == |old(visited)| + 1 && visited[..|old(visited)|] == old(visited)
      ensures IsNext(HeapOf(S), root, old(visited), old(passed), old(cur), visited[|old(visited)|])
    {
      hide Valid, WalkInv, DepthInv, Opened, HeapOf, IsNext;
      ghost var h := HeapOf(S);
      ghost var o := Opened(h, root, visited);
      assert over == o[passed..] && over[0] == o[passed] && |over| == |o| - passed;
      NextIsThere(S, root, visited, passed, cur, depths, levels);
      var i := over[0].itemlist[cur];
      ghost var d, e := AdvanceKeeps(S, root, visited, passed, cur, depths, levels, i);
      if i.isContainer && i.itemlist != [] {
        over := over + [i];
      }
      cur := cur + 1;
      if cur == |over[0].itemlist| {
        over := over[1..];
        passed := passed + 1;
        cur := 0;
      }
      visited := visited + [i];
      depths, levels := d, e;
    }
  }

  lemma WalkStarts<T>(h: Heap<T>, c: T)
    requires c in h
    ensures WalkInv(h, c, [], 0, 0)
    ensures DepthInv(h, c, [], 0, [], if h[c].contents != [] then [0] else [])
    ensures Opened(h, c, []) == if h[c].contents != [] then [c] else []
  {
  }

  /** `x` is the item a walk points at. */
  ghost predicate IsNext<T>(h: Heap<T>, root: T, v: seq<T>, p: nat, cur: nat, x: T) {
    && root in h && p < |Opened(h, root, v)| && Opened(h, root, v)[p] in h
    && cur < |h[Opened(h, root, v)[p]].contents| && h[Opened(h, root, v)[p]].contents[cur] == x
  }

  lemma NextIsThere(S: set<Item>, root: Item, v: seq<Item>, p: nat, cur: nat, d: seq<nat>, e: seq<nat>)
    requires Valid(HeapOf(S)) && WalkInv(HeapOf(S), root, v, p, cur) && DepthInv(HeapOf(S), root, v, p, d, e)
    requires root in HeapOf(S) && p < |Opened(HeapOf(S), root, v)|
    ensures var o := Opened(HeapOf(S), root, v);
            && o[p] in S && cur < |o[p].itemlist|
            && var x := o[p].itemlist[cur];
               x in S && x !in v && x != root && IsNext(HeapOf(S), root, v, p, cur, x)
  {
    hide Opened, Forest, Balanced, ParentsLinked, ContentsLinked;
    NextIsNew(HeapOf(S), root, v, p, cur);
    NextIsNotRoot(HeapOf(S), root, v, p, cur, d, e);
    assert HeapOf(S)[Opened(HeapOf(S), root, v)[p]].contents == Opened(HeapOf(S), root, v)[p].itemlist;
  }

  lemma AdvanceKeeps(S: set<Item>, root: Item, v: seq<Item>, p: nat, cur: nat, d: seq<nat>, e: seq<nat>, x: Item)
    returns (d': seq<nat>, e': seq<nat>)
    requires Valid(HeapOf(S)) && WalkInv(HeapOf(S), root, v, p, cur) && DepthInv(HeapOf(S), root, v, p, d, e)
    requires root in HeapOf(S) && p < |Opened(HeapOf(S), root, v)| && IsNext(HeapOf(S), root, v, p, cur, x)
    ensures x in S && Opened(HeapOf(S), root, v)[p] in S
    ensures var o := Opened(HeapOf(S), root, v);
            var last := cur + 1 == |o[p].itemlist|;
            var p' := if last then p + 1 else p;
            && WalkInv(HeapOf(S), root, v + [x], p', if last then 0 else cur + 1)
            && DepthInv(HeapOf(S), root, v + [x], p', d', e')
            && Opened(HeapOf(S), root, v + [x]) == o + (if x.isContainer && x.itemlist != [] then [x] else [])
  {
    hide Opened, Forest, Balanced, ParentsLinked, ContentsLinked, WalkInv, DepthInv;
    ValidLinks(HeapOf(S));
    NextIsThere(S, root, v, p, cur, d, e);
    var o := Opened(HeapOf(S), root, v);
    assert HeapOf(S)[o[p]].contents == o[p].itemlist;
    StepKeepsWalk(HeapOf(S), root, v, p, cur);
    d', e' := StepKeepsDepth(HeapOf(S), root, v, p, cur, d, e);
    OpenedStep(HeapOf(S), root, v, x);
    assert HeapOf(S)[x].contents == x.itemlist;
    OnlyContainersHold(S, x);
  }

  lemma ValidLinks<T>(h: Heap<T>)
    requires Valid(h)
    ensures ContentsLinked(h) && ParentsLinked(h, {}) && Forest(Parents(h))
  {
    hide ContentsLinked, ParentsLinked, Forest;
  }

  lemma OnlyContainersHold(S: set<Item>, x: Item)
    requires x in S && Valid(HeapOf(S))
    ensures x.itemlist != [] ==> x.isContainer
  {
    hide Forest, Balanced, ParentsLinked;
    assert HeapOf(S)[x] == x.Record();
  }

  // ----- What the walk answers

  /** The items inside `c` at any depth. */
  ghost function Within<T>(h: Heap<T>, c: T): set<T> {
    set x | x in h && x != c && Inside(Parents(h), x, c)
  }

  lemma EndOfWalk<T>(h: Heap<T>, root: T, v: seq<T>, p: nat, cur: nat, d: seq<nat>, e: seq<nat>)
    requires Valid(h) && WalkInv(h, root, v, p, cur) && DepthInv(h, root, v, p, d, e)
    requires root in h && |Opened(h, root, v)[p..]| == 0
    ensures Distinct(v) && (forall x :: x in v <==> x in Within(h, root)) && |v| == |Within(h, root)|
    ensures |d| == |v| && (forall i | 0 <= i < |v| :: Up(Parents(h), Some(v[i]), d[i]) == Some(root))
    ensures forall i, j | 0 <= i < j < |d| :: d[i] <= d[j]
  {
    hide Inside, Forest, Balanced, ParentsLinked, ContentsLinked, Opened;
    ValidLinks(h);
    forall x
      ensures x in v <==> x in Within(h, root)
    {
      if x in h {
        WalkIsComplete(h, root, v, d, e, x);
      }
    }
    ExactSize(v, Within(h, root));
  }

  lemma WalkNotTooLong<T>(h: Heap<T>, root: T, v: seq<T>, p: nat, cur: nat)
    requires WalkInv(h, root, v, p, cur)
    ensures |v| <= |h.Keys|
  {
    WalkIsBounded(h, v);
  }

  /** The number of items inside a container, at every depth. */
  method GetItemHoldingCount(c: Item, ghost S: set<Item>) returns (counter: nat)
    requires c in S && Valid(HeapOf(S))
    ensures counter == |Within(HeapOf(S), c)|
  {
    hide Valid, HeapOf, WalkInv, DepthInv, Opened, Within;
    counter := 0;
    var it := new ContainerIterator(c, S);
    ghost var h := HeapOf(S);
    while it.HasNext()
      invariant HeapOf(S) == h && it.AtStop(h) && it.root == c && fresh(it)
      invariant counter == |it.visited| <= |S|
      decreases |S| - |it.visited|
    {
      counter := counter + 1;
      it.Advance(S);
      WalkNotTooLong(h, c, it.visited, it.passed, it.cur);
    }
    EndOfWalk(h, c, it.visited, it.passed, it.cur, it.depths, it.levels);
  }

  /** Whether an item lies inside a container, at any depth. */
  method IsHoldingItem(c: Item, item: Item, ghost S: set<Item>) returns (found: bool)
    requires c in S && item in S && Valid(HeapOf(S))
    ensures found <==> item in Within(HeapOf(S), c)
  {
    hide Valid, HeapOf, WalkInv, DepthInv, Opened, Within;
    var it := new ContainerIterator(c, S);
    ghost var h := HeapOf(S);
    while it.HasNext()
      invariant HeapOf(S) == h && it.AtStop(h) && it.root == c && fresh(it)
      invariant item !in it.visited && |it.visited| <= |S|
      decreases |S| - |it.visited|
    {
      var x := it.Current(S);
      if x == item {
        NextIsWithin(h, c, it.visited, it.passed, it.cur, it.depths, it.levels, x);
        return true;
      }
      NextIsUnique(h, c, it.visited, it.passed, it.cur);
      it.Advance(S);
      WalkNotTooLong(h, c, it.visited, it.passed, it.cur);
    }
    EndOfWalk(h, c, it.visited, it.passed, it.cur, it.depths, it.levels);
    found := false;
  }

  lemma NextIsUnique<T>(h: Heap<T>, root: T, v: seq<T>, p: nat, cur: nat)
    ensures forall x, y :: IsNext(h, root, v, p, cur, x) && IsNext(h, root, v, p, cur, y) ==> x == y
  {
  }

  lemma NextIsWithin<T>(h: Heap<T>, root: T, v: seq<T>, p: nat, cur: nat, d: seq<nat>, e: seq<nat>, x: T)
    requires Valid(h) && WalkInv(h, root, v, p, cur) && DepthInv(h, root, v, p, d, e) && IsNext(h, root, v, p, cur, x)
    ensures x in Within(h, root)
  {
    hide Forest, Balanced, ParentsLinked, Opened;
    ValidLinks(h);
    NextIsNew(h, root, v, p, cur);
    NextIsNotRoot(h, root, v, p, cur, d, e);
    var o := Opened(h, root, v);
    assert x in h[o[p]].contents;
    assert Up(Parents(h), Some(x), e[p] + 1) == Up(Parents(h), Some(o[p]), e[p]);
  }

  /** Everything inside a container, each item once, no item before one that lies less deep. */
  method GetItems(c: Item, ghost S: set<Item>) returns (containerItems: seq<Item>, ghost depths: seq<nat>)
    requires c in S && Valid(HeapOf(S))
    ensures Distinct(containerItems) && forall x :: x in containerItems <==> x in Within(HeapOf(S), c)
    ensures |depths| == |containerItems|
    ensures forall i | 0 <= i < |depths| :: Up(Parents(HeapOf(S)), Some(containerItems[i]), depths[i]) == Some(c)
    ensures forall i, j | 0 <= i < j < |depths| :: depths[i] <= depths[j]
  {
    hide Valid, HeapOf, WalkInv, DepthInv, Opened, Within, Up, Parents;
    containerItems := [];
    var it := new ContainerIterator(c, S);
    ghost var h := HeapOf(S);
    while it.HasNext()
      invariant HeapOf(S) == h && it.AtStop(h) && it.root == c && fresh(it)
      invariant containerItems == it.visited && |it.visited| <= |S|
      decreases |S| - |it.visited|
    {
      var x := it.Current(S);
      containerItems := containerItems + [x];
      NextIsUnique(h, c, it.visited, it.passed, it.cur);
      it.Advance(S);
      WalkNotTooLong(h, c, it.visited, it.passed, it.cur);
    }
    EndOfWalk(h, c, it.visited, it.passed, it.cur, it.depths, it.levels);
    depths := it.depths;
  }
}
