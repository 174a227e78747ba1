/** The search for the goods of an offer: a queue of containers, worked off from the front. */
module MarketWalk {
  import opened Sums
  import opened Options
  import opened Ancestry
  import opened ItemHeap
  import opened Walk
  import opened ContainerIterators

  /** The depots and the inbox: none lies inside another. */
  ghost predicate Apart<T>(h: Heap<T>, roots: set<T>) {
    forall r, s | r in roots && s in roots :: r in h && r !in Within(h, s)
  }

  ghost predicate Inner<T>(h: Heap<T>, roots: set<T>, x: T) {
    exists r :: r in roots && x in Within(h, r)
  }

  /** A container the search opens. */
  ghost predicate Opens<T>(h: Heap<T>, roots: set<T>, c: T) {
    c in h && (c in roots || Inner(h, roots, c))
  }

  /** Goods the search may find: wanted, somewhere inside a root, and holding nothing. */
  ghost predicate Goods<T>(h: Heap<T>, roots: set<T>, wanted: set<T>, x: T) {
    x in wanted && Inner(h, roots, x) && h[x].contents == []
  }

  /** The children of `c` before position `j`. */
  ghost function Seen<T>(h: Heap<T>, c: T, j: nat): seq<T>
    requires c in h && j <= |h[c].contents|
  {
    h[c].contents[..j]
  }

  /** `done` containers are finished, `c` is finished up to position `j`, and `queue` waits. */
  ghost predicate Searching<T>(h: Heap<T>, roots: set<T>, done: seq<T>, c: T, j: nat, queue: seq<T>) {
    && c in h && j <= |h[c].contents|
    && var all := done + [c] + queue;
    && Distinct(all)
    && (forall x | x in all :: Opens(h, roots, x) && x in h)
    && (forall r | r in roots && r in h && h[r].contents != [] :: r in all)
    && (forall x, y | x in done && x in h && y in h[x].contents && y in h && h[y].contents != [] :: y in all)
    && (forall y | y in Seen(h, c, j) && y in h && h[y].contents != [] :: y in all)
    && (forall x | x in all :: x in roots || (h[x].parent.Some? && (h[x].parent.value in done || x in Seen(h, c, j))))
  }

  /** The goods found so far: those that lie directly in a finished container or in the finished part of `c`. */
  ghost predicate Found<T>(h: Heap<T>, wanted: set<T>, done: seq<T>, c: T, j: nat, x: T) {
    && x in wanted && x in h && h[x].contents == [] && h[x].parent.Some?
    && c in h && j <= |h[c].contents|
    && (h[x].parent.value in done || x in Seen(h, c, j))
  }

  lemma ChildOpens<T>(h: Heap<T>, roots: set<T>, c: T, y: T)
    requires Valid(h) && Opens(h, roots, c) && y in h[c].contents
    ensures y in h && h[y].parent == Some(c) && Inner(h, roots, y) && Opens(h, roots, y)
    ensures Apart(h, roots) ==> y !in roots
  {
    hide Forest, Balanced;
    var r :| r in roots && (c == r || c in Within(h, r));
    var p := Parents(h);
    assert p[y] == Some(c);
    InsideCases(p, y, r);
    if c == r {
      InsideRefl(p, c);
    }
    if y == r {
      NotAround(h, c, y);
    }
    assert y in Within(h, r);
  }

  /** An item never lies below its own child. */
  lemma NotAround<T>(h: Heap<T>, c: T, y: T)
    requires Valid(h) && c in h && y in h[c].contents
    ensures y != c && !Inside(Parents(h), c, y)
  {
    hide Balanced, Forest;
    var p := Parents(h);
    assert p[y] == Some(c);
    if Inside(p, c, y) {
      var k: nat :| Up(p, Some(c), k) == Some(y);
      assert Up(p, Some(y), k + 1) == Some(y);
      NoCycle(p, y, k + 1);
    }
    if y == c {
      InsideRefl(p, c);
    }
  }

  lemma SearchStarts<T>(h: Heap<T>, roots: set<T>, queue: seq<T>)
    requires queue != [] && Distinct(queue) && (forall x | x in queue :: x in roots && x in h)
    requires forall r | r in roots && r in h && h[r].contents != [] :: r in queue
    ensures Searching(h, roots, [], queue[0], 0, queue[1..])
    ensures forall wanted, x :: !Found(h, wanted, [], queue[0], 0, x)
  {
    assert [] + [queue[0]] + queue[1..] == queue;
  }

  /** Passing a child: it joins the queue when it holds something. */
  lemma SearchSteps<T>(h: Heap<T>, roots: set<T>, done: seq<T>, c: T, j: nat, queue: seq<T>)
    requires Valid(h) && Apart(h, roots) && Searching(h, roots, done, c, j, queue) && j < |h[c].contents|
    ensures var y := h[c].contents[j];
            && y in h && h[y].parent == Some(c) && Inner(h, roots, y)
            && Searching(h, roots, done, c, j + 1, if h[y].contents != [] then queue + [y] else queue)
            && !Found(h, {y}, done, c, j, y)
  {
    hide Inner, Apart, Balanced, Forest;
    var y := h[c].contents[j];
    var all := done + [c] + queue;
    assert c in all && Opens(h, roots, c);
    assert y in h[c].contents;
    ChildOpens(h, roots, c, y);
    assert Seen(h, c, j + 1) == Seen(h, c, j) + [y];
    assert y !in Seen(h, c, j);
    assert Distinct(all);
    assert all[|done|] == c;
    assert c !in done by {
      assert forall i | 0 <= i < |done| :: all[i] == done[i];
    }
    if h[y].contents != [] {
      assert y !in all;
      assert done + [c] + (queue + [y]) == all + [y];
    }
  }

  /** Going on to the next container. */
  lemma SearchTurns<T>(h: Heap<T>, roots: set<T>, done: seq<T>, c: T, queue: seq<T>, wanted: set<T>)
    requires Valid(h) && c in h && Searching(h, roots, done, c, |h[c].contents|, queue) && queue != []
    ensures Searching(h, roots, done + [c], queue[0], 0, queue[1..])
    ensures forall x :: Found(h, wanted, done, c, |h[c].contents|, x) <==> Found(h, wanted, done + [c], queue[0], 0, x)
  {
    hide Opens, Balanced, Forest;
    assert done + [c] + [queue[0]] + queue[1..] == done + [c] + queue;
    assert Seen(h, c, |h[c].contents|) == h[c].contents;
    assert queue[0] in done + [c] + queue;
    assert forall x | x in h && h[x].parent.Some? :: h[x].parent == Some(c) <==> x in h[c].contents;
  }

  /** Opened containers are complete: with each also those it holds, and all roots that hold something. */
  ghost predicate Complete<T>(h: Heap<T>, roots: set<T>, all: seq<T>) {
    && (forall r | r in roots && r in h && h[r].contents != [] :: r in all)
    && (forall x, y | x in all && x in h && y in h[x].contents && y in h && h[y].contents != [] :: y in all)
  }

  lemma EndIsComplete<T>(h: Heap<T>, roots: set<T>, done: seq<T>, c: T)
    requires c in h && Searching(h, roots, done, c, |h[c].contents|, [])
    ensures Complete(h, roots, done + [c])
  {
    hide Opens, Distinct;
    assert done + [c] + [] == done + [c];
    assert Seen(h, c, |h[c].contents|) == h[c].contents;
  }

  lemma {:induction false} AllOpened<T>(h: Heap<T>, roots: set<T>, all: seq<T>, r: T, x: T, k: nat)
    requires ParentsLinked(h, {}) && Complete(h, roots, all)
    requires r in roots && r in h && x in h && x != r && Up(Parents(h), Some(x), k) == Some(r)
    ensures h[x].parent.Some? && h[x].parent.value in all
    decreases k
  {
    var p := Parents(h);
    assert k > 0;
    assert p[x] == h[x].parent;
    UpOfNone(p, k - 1);
    assert h[x].parent.Some?;
    var y := h[x].parent.value;
    assert y in h && x in h[y].contents;
    if y != r {
      AllOpened(h, roots, all, r, y, k - 1);
      assert y in h[h[y].parent.value].contents;
    }
  }

  lemma SearchEnds<T>(h: Heap<T>, roots: set<T>, done: seq<T>, c: T, wanted: set<T>, x: T)
    requires Valid(h) && Apart(h, roots) && c in h && Searching(h, roots, done, c, |h[c].contents|, [])
    ensures Found(h, wanted, done, c, |h[c].contents|, x) <==> Goods(h, roots, wanted, x)
  {
    hide Balanced, Forest, Searching;
    if Goods(h, roots, wanted, x) {
      var r :| r in roots && x in Within(h, r);
      var k: nat :| Up(Parents(h), Some(x), k) == Some(r);
      EndIsComplete(h, roots, done, c);
      AllOpened(h, roots, done + [c], r, x, k);
      assert x in h[h[x].parent.value].contents;
    }
    if Found(h, wanted, done, c, |h[c].contents|, x) {
      FoundIsGoods(h, roots, done, c, |h[c].contents|, [], wanted, x);
    }
  }

  lemma FoundIsGoods<T>(h: Heap<T>, roots: set<T>, done: seq<T>, c: T, j: nat, queue: seq<T>, wanted: set<T>, x: T)
    requires Valid(h) && Searching(h, roots, done, c, j, queue) && Found(h, wanted, done, c, j, x)
    ensures Goods(h, roots, wanted, x)
  {
    hide Balanced, Forest, Inner, Opens;
    var all := done + [c] + queue;
    var y := h[x].parent.value;
    if x in Seen(h, c, j) {
      assert x in h[c].contents;
    }
    assert y in all;
    assert Opens(h, roots, y) && x in h[y].contents;
    ChildOpens(h, roots, y, x);
  }

  lemma SearchIsBounded<T>(h: Heap<T>, roots: set<T>, done: seq<T>, c: T, j: nat, queue: seq<T>)
    requires Searching(h, roots, done, c, j, queue)
    ensures |done| < |h.Keys|
  {
    hide Opens;
    var all := done + [c] + queue;
    assert forall x | x in done + [c] :: x in h;
    assert Distinct(done + [c]) by {
      assert forall i | 0 <= i < |done + [c]| :: (done + [c])[i] == all[i];
    }
    WalkIsBounded(h, done + [c]);
  }

  // ----- The list that is collected

  ghost function Pieces<T>(h: Heap<T>, xs: seq<T>): int {
    Sum(Counts(h), xs)
  }

  /** The list holds exactly what was found, each item once, `count` pieces in all. */
  ghost predicate Collected<T>(h: Heap<T>, wanted: set<T>, done: seq<T>, c: T, j: nat, xs: seq<T>, count: nat) {
    && Distinct(xs) && (forall x | x in xs :: x in h)
       && (forall x | x in h :: x in xs <==> Found(h, wanted, done, c, j, x))
    && Pieces(h, xs) == count
  }

  ghost predicate AllGoods<T>(h: Heap<T>, roots: set<T>, wanted: set<T>, xs: seq<T>) {
    Distinct(xs) && (forall x | x in xs :: x in h) && forall x | x in h :: x in xs <==> Goods(h, roots, wanted, x)
  }

  lemma PiecesOfMore<T>(h: Heap<T>, xs: seq<T>, x: T)
    requires x in h
    ensures Pieces(h, xs + [x]) == Pieces(h, xs) + h[x].count
  {
    SumConcat(Counts(h), xs, [x]);
    assert [x][1..] == [];
  }

  lemma Collects<T>(h: Heap<T>, roots: set<T>, wanted: set<T>, done: seq<T>, c: T, j: nat, queue: seq<T>, xs: seq<T>,
                    count: nat)
    requires Valid(h) && Apart(h, roots) && Searching(h, roots, done, c, j, queue) && j < |h[c].contents|
    requires Collected(h, wanted, done, c, j, xs, count)
    ensures var y := h[c].contents[j];
            if h[y].contents == [] && y in wanted
            then y in h && Collected(h, wanted, done, c, j + 1, xs + [y], count + h[y].count)
            else Collected(h, wanted, done, c, j + 1, xs, count)
  {
    hide Valid, Apart, Searching, Pieces, Opens;
    CurrentNotDone(h, roots, done, c, j, queue);
    SearchSteps(h, roots, done, c, j, queue);
    var y := h[c].contents[j];
    assert Seen(h, c, j + 1) == Seen(h, c, j) + [y];
    PiecesOfMore(h, xs, y);
    assert !Found(h, wanted, done, c, j, y);
    assert forall x | x != y :: Found(h, wanted, done, c, j + 1, x) <==> Found(h, wanted, done, c, j, x);
  }

  lemma CurrentNotDone<T>(h: Heap<T>, roots: set<T>, done: seq<T>, c: T, j: nat, queue: seq<T>)
    requires Searching(h, roots, done, c, j, queue)
    ensures c !in done && c in h && j <= |h[c].contents|
  {
    var all := done + [c] + queue;
    assert all[|done|] == c && forall i | 0 <= i < |done| :: all[i] == done[i];
  }

  lemma CollectedAreGoods<T>(h: Heap<T>, roots: set<T>, wanted: set<T>, done: seq<T>, c: T, j: nat, queue: seq<T>,
                             xs: seq<T>, count: nat)
    requires Valid(h) && Searching(h, roots, done, c, j, queue) && Collected(h, wanted, done, c, j, xs, count)
    ensures Distinct(xs) && forall x | x in xs :: x in h && Goods(h, roots, wanted, x)
  {
    hide Valid, Searching, Goods;
    forall x | x in xs ensures x in h && Goods(h, roots, wanted, x) {
      assert Found(h, wanted, done, c, j, x);
      FoundIsGoods(h, roots, done, c, j, queue, wanted, x);
    }
  }

  lemma CollectedAll<T>(h: Heap<T>, roots: set<T>, wanted: set<T>, done: seq<T>, c: T, xs: seq<T>, count: nat)
    requires Valid(h) && Apart(h, roots) && c in h && Searching(h, roots, done, c, |h[c].contents|, [])
    requires Collected(h, wanted, done, c, |h[c].contents|, xs, count)
    ensures AllGoods(h, roots, wanted, xs)
  {
    hide Valid, Apart, Searching, Goods, Found;
    forall x | x in h ensures x in xs <==> Goods(h, roots, wanted, x) {
      SearchEnds(h, roots, done, c, wanted, x);
    }
  }

  lemma CollectedTurns<T>(h: Heap<T>, roots: set<T>, wanted: set<T>, done: seq<T>, c: T, queue: seq<T>, xs: seq<T>,
                          count: nat)
    requires Valid(h) && c in h && Searching(h, roots, done, c, |h[c].contents|, queue) && queue != []
    requires Collected(h, wanted, done, c, |h[c].contents|, xs, count)
    ensures Searching(h, roots, done + [c], queue[0], 0, queue[1..])
    ensures Collected(h, wanted, done + [c], queue[0], 0, xs, count)
  {
    hide Valid, Searching, Found;
    SearchTurns(h, roots, done, c, queue, wanted);
  }

  lemma CollectedStarts<T>(h: Heap<T>, wanted: set<T>, c: T)
    ensures c in h ==> Collected(h, wanted, [], c, 0, [], 0)
  {
  }

  /** With only single pieces among the goods, the list is as long as its number of pieces. */
  lemma {:induction false} SinglePieces<T>(h: Heap<T>, xs: seq<T>)
    requires forall x | x in xs :: x in h && h[x].count == 1
    ensures Pieces(h, xs) == |xs|
  {
    if xs != [] {
      SinglePieces(h, xs[1..]);
    }
  }
}
