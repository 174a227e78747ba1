/** The order in which a container's contents are walked, at every depth, and what it reaches. */
module Walk {
  import opened Sums
  import opened Options
  import opened Ancestry
  import opened ItemHeap

  /** The items of `v` that have contents, in order. */
  ghost function NonEmpty<T>(h: Heap<T>, v: seq<T>): seq<T> {
    if v == [] then []
    else
      var last := v[|v| - 1];
      NonEmpty(h, v[..|v| - 1]) + (if last in h && h[last].contents != [] then [last] else [])
  }

  /** The containers opened once `v` has been visited. */
  ghost function Opened<T>(h: Heap<T>, root: T, v: seq<T>): seq<T>
    requires root in h
  {
    (if h[root].contents != [] then [root] else []) + NonEmpty(h, v)
  }

  /** The contents of a list of containers, one after the other. */
  ghost function Flatten<T>(h: Heap<T>, o: seq<T>): seq<T> {
    if o == [] then []
    else Flatten(h, o[..|o| - 1]) + (if o[|o| - 1] in h then h[o[|o| - 1]].contents else [])
  }

  /**
   After visiting `v` the walk stands at position `cur` of the `p`-th opened container: what it has visited is
   the contents of all containers before it and the first `cur` of this one.
   */
  ghost predicate WalkInv<T>(h: Heap<T>, root: T, v: seq<T>, p: nat, cur: nat) {
    && root in h
    && var o := Opened(h, root, v);
    && p <= |o| && (forall x | x in o :: x in h)
    && (if p < |o| then cur < |h[o[p]].contents| else cur == 0)
    && v == Flatten(h, o[..p]) + (if p < |o| then h[o[p]].contents[..cur] else [])
    && Distinct(v) && root !in v && (forall x | x in v :: x in h)
  }

  ghost function NextContainer<T>(h: Heap<T>, root: T, v: seq<T>, p: nat, cur: nat): nat
    requires root in h
    requires p < |Opened(h, root, v)| && Opened(h, root, v)[p] in h
  {
    if cur + 1 == |h[Opened(h, root, v)[p]].contents| then p + 1 else p
  }

  lemma {:induction false} NonEmptyIn<T>(h: Heap<T>, v: seq<T>, x: T)
    ensures x in NonEmpty(h, v) <==> x in v && x in h && h[x].contents != []
  {
    if v != [] {
      NonEmptyIn(h, v[..|v| - 1], x);
      assert v == v[..|v| - 1] + [v[|v| - 1]];
    }
  }

  lemma {:induction false} NonEmptyDistinct<T>(h: Heap<T>, v: seq<T>)
    requires Distinct(v)
    ensures Distinct(NonEmpty(h, v))
  {
    if v != [] {
      NonEmptyDistinct(h, v[..|v| - 1]);
      NonEmptyIn(h, v[..|v| - 1], v[|v| - 1]);
    }
  }

  lemma OpenedFacts<T>(h: Heap<T>, root: T, v: seq<T>)
    requires root in h && Distinct(v) && root !in v
    ensures Distinct(Opened(h, root, v))
    ensures forall x :: x in Opened(h, root, v) <==> x in h && h[x].contents != [] && (x == root || x in v)
  {
    NonEmptyDistinct(h, v);
    NonEmptyIn(h, v, root);
    forall x
      ensures x in Opened(h, root, v) <==> x in h && h[x].contents != [] && (x == root || x in v)
    {
      NonEmptyIn(h, v, x);
    }
  }

  lemma OpenedStep<T>(h: Heap<T>, root: T, v: seq<T>, x: T)
    requires root in h && x in h
    ensures Opened(h, root, v + [x]) == Opened(h, root, v) + (if h[x].contents != [] then [x] else [])
  {
    assert (v + [x])[..|v|] == v;
  }

  lemma {:induction false} FlattenIn<T>(h: Heap<T>, o: seq<T>, x: T)
    ensures x in Flatten(h, o) <==> exists c :: c in o && c in h && x in h[c].contents
  {
    if o != [] {
      FlattenIn(h, o[..|o| - 1], x);
      assert o == o[..|o| - 1] + [o[|o| - 1]];
    }
  }

  /** Every visited item lies directly in a container opened no later than the current one. */
  lemma VisitedBelow<T>(h: Heap<T>, root: T, v: seq<T>, p: nat, cur: nat, x: T)
    requires ContentsLinked(h) && WalkInv(h, root, v, p, cur) && x in v
    ensures var o := Opened(h, root, v);
            x in h && h[x].parent.Some? && h[x].parent.value in o
            && (h[x].parent.value in o[..p] || (p < |o| && h[x].parent.value == o[p] && x in h[o[p]].contents[..cur]))
  {
    var o := Opened(h, root, v);
    if x in Flatten(h, o[..p]) {
      FlattenIn(h, o[..p], x);
    }
  }

  /** The next item has not been visited. */
  lemma NextIsNew<T>(h: Heap<T>, root: T, v: seq<T>, p: nat, cur: nat)
    requires ContentsLinked(h) && WalkInv(h, root, v, p, cur) && p < |Opened(h, root, v)|
    ensures var x := h[Opened(h, root, v)[p]].contents[cur];
            x in h && x !in v
  {
    hide NonEmpty;
    var o := Opened(h, root, v);
    var x := h[o[p]].contents[cur];
    assert x in h[o[p]].contents;
    OpenedFacts(h, root, v);
    assert o[p] !in o[..p];
    assert x !in h[o[p]].contents[..cur];
    if x in v {
      VisitedBelow(h, root, v, p, cur, x);
    }
  }

  /**
   `d` and `e` are the depths below the root of the visited items and of the opened containers: both never fall,
   and none is more than one below the container the walk stands at.
   */
  ghost predicate DepthInv<T>(h: Heap<T>, root: T, v: seq<T>, p: nat, d: seq<nat>, e: seq<nat>) {
    && root in h
    && var o := Opened(h, root, v);
    && |d| == |v| && |e| == |o|
    && (forall i | 0 <= i < |v| :: Up(Parents(h), Some(v[i]), d[i]) == Some(root))
    && (forall q | 0 <= q < |o| :: Up(Parents(h), Some(o[q]), e[q]) == Some(root))
    && (forall i, j | 0 <= i < j < |d| :: d[i] <= d[j])
    && (forall i, j | 0 <= i < j < |e| :: e[i] <= e[j])
    && (p < |o| ==> (forall i | 0 <= i < |d| :: d[i] <= e[p] + 1) && (forall q | 0 <= q < |e| :: e[q] <= e[p] + 1))
  }

  lemma NextIsNotRoot<T>(h: Heap<T>, root: T, v: seq<T>, p: nat, cur: nat, d: seq<nat>, e: seq<nat>)
    requires ContentsLinked(h) && Forest(Parents(h)) && WalkInv(h, root, v, p, cur) && p < |Opened(h, root, v)|
    requires DepthInv(h, root, v, p, d, e)
    ensures h[Opened(h, root, v)[p]].contents[cur] != root
  {
    hide Forest;
    var o := Opened(h, root, v);
    if h[o[p]].contents[cur] == root {
      assert root in h[o[p]].contents;
      assert Up(Parents(h), Some(root), e[p] + 1) == Up(Parents(h), Some(o[p]), e[p]);
      NoCycle(Parents(h), root, e[p] + 1);
    }
  }

  lemma StepKeepsDepth<T>(h: Heap<T>, root: T, v: seq<T>, p: nat, cur: nat, d: seq<nat>, e: seq<nat>)
    returns (d': seq<nat>, e': seq<nat>)
    requires ContentsLinked(h) && WalkInv(h, root, v, p, cur) && p < |Opened(h, root, v)|
    requires DepthInv(h, root, v, p, d, e)
    ensures var x := h[Opened(h, root, v)[p]].contents[cur];
            var p' := NextContainer(h, root, v, p, cur);
            DepthInv(h, root, v + [x], p', d', e') && d' == d + [e[p] + 1]
  {
    hide WalkInv, NonEmpty, DepthInv, Opened;
    DepthSizes(h, root, v, p, d, e);
    CurrentInRange(h, root, v, p, cur);
    var o := Opened(h, root, v);
    var x := h[o[p]].contents[cur];
    assert x in h[o[p]].contents;
    OpenedStep(h, root, v, x);
    d' := d + [e[p] + 1];
    e' := if h[x].contents != [] then e + [e[p] + 1] else e;
    DepthAppend(h, root, v, p, d, e, x, if cur + 1 == |h[o[p]].contents| then p + 1 else p);
  }

  lemma DepthSizes<T>(h: Heap<T>, root: T, v: seq<T>, p: nat, d: seq<nat>, e: seq<nat>)
    requires DepthInv(h, root, v, p, d, e)
    ensures root in h && |d| == |v| && |e| == |Opened(h, root, v)|
  {
  }

  lemma DepthAppend<T>(h: Heap<T>, root: T, v: seq<T>, p: nat, d: seq<nat>, e: seq<nat>, x: T, p': nat)
    requires DepthInv(h, root, v, p, d, e) && p < |Opened(h, root, v)| && x in h
    requires h[x].parent == Some(Opened(h, root, v)[p]) && p <= p' <= p + 1
    requires Opened(h, root, v + [x]) == Opened(h, root, v) + (if h[x].contents != [] then [x] else [])
    ensures DepthInv(h, root, v + [x], p', d + [e[p] + 1], if h[x].contents != [] then e + [e[p] + 1] else e)
  {
    hide Opened;
    var o := Opened(h, root, v);
    assert Up(Parents(h), Some(x), e[p] + 1) == Up(Parents(h), Some(o[p]), e[p]);
  }

  lemma CurrentInRange<T>(h: Heap<T>, root: T, v: seq<T>, p: nat, cur: nat)
    requires WalkInv(h, root, v, p, cur) && p < |Opened(h, root, v)|
    ensures Opened(h, root, v)[p] in h && cur < |h[Opened(h, root, v)[p]].contents|
  {
  }

  /** Visiting the next item and moving on keeps the invariant of the walk. */
  lemma StepKeepsWalk<T>(h: Heap<T>, root: T, v: seq<T>, p: nat, cur: nat)
    requires ContentsLinked(h) && WalkInv(h, root, v, p, cur) && p < |Opened(h, root, v)|
    requires h[Opened(h, root, v)[p]].contents[cur] != root
    ensures var c := Opened(h, root, v)[p];
            var last := cur + 1 == |h[c].contents|;
            WalkInv(h, root, v + [h[c].contents[cur]], if last then p + 1 else p, if last then 0 else cur + 1)
  {
    hide NonEmpty, Flatten, ContentsLinked, Opened;
    var o := Opened(h, root, v);
    var x := h[o[p]].contents[cur];
    NextIsNew(h, root, v, p, cur);
    OpenedStep(h, root, v, x);
    OpenedFacts(h, root, v + [x]);
    var o' := Opened(h, root, v + [x]);
    assert o' == o + (if h[x].contents != [] then [x] else []);
    assert o[p] in o';
    FlattenStep(h, o, o', p, cur);
    assert p + 1 < |o'| ==> o'[p + 1] in o';
  }

  /** The visited list grows by one item of the current container; at its end the next container begins. */
  lemma FlattenStep<T>(h: Heap<T>, o: seq<T>, o': seq<T>, p: nat, cur: nat)
    requires p < |o| && o[p] in h && cur < |h[o[p]].contents| && o <= o'
    requires p + 1 < |o'| ==> o'[p + 1] in h
    ensures var v' := Flatten(h, o[..p]) + h[o[p]].contents[..cur] + [h[o[p]].contents[cur]];
            && v' == Flatten(h, o'[..p]) + h[o'[p]].contents[..cur + 1]
            && (cur + 1 == |h[o[p]].contents| ==>
                  && v' == Flatten(h, o'[..p + 1])
                  && (p + 1 < |o'| ==> v' == Flatten(h, o'[..p + 1]) + h[o'[p + 1]].contents[..0]))
  {
    var xs := h[o[p]].contents;
    assert o'[..p] == o[..p] && o'[p] == o[p];
    assert xs[..cur + 1] == xs[..cur] + [xs[cur]];
    assert o'[..p + 1][..p] == o'[..p];
    if cur + 1 == |xs| {
      assert xs[..cur + 1] == xs;
    }
  }

  // ----- The end of the walk

  /** When the walk has passed every opened container it has visited exactly what lies inside the root. */
  lemma WalkIsComplete<T>(h: Heap<T>, root: T, v: seq<T>, d: seq<nat>, e: seq<nat>, x: T)
    requires ContentsLinked(h) && ParentsLinked(h, {}) && Forest(Parents(h)) && x in h && root in h
    requires WalkInv(h, root, v, |Opened(h, root, v)|, 0) && DepthInv(h, root, v, |Opened(h, root, v)|, d, e)
    ensures x in v <==> x != root && Inside(Parents(h), x, root)
  {
    hide Forest, WalkInv, NonEmpty, ContentsLinked;
    if x in v {
      var i :| 0 <= i < |v| && v[i] == x;
      assert Up(Parents(h), Some(x), d[i]) == Some(root);
      RootUnvisited(h, root, v);
    }
    if x != root && Inside(Parents(h), x, root) {
      var k: nat :| Up(Parents(h), Some(x), k) == Some(root);
      InsideIsVisited(h, root, v, x, k);
    }
  }

  lemma RootUnvisited<T>(h: Heap<T>, root: T, v: seq<T>)
    requires root in h && WalkInv(h, root, v, |Opened(h, root, v)|, 0)
    ensures root !in v
  {
  }

  lemma {:induction false} InsideIsVisited<T>(h: Heap<T>, root: T, v: seq<T>, x: T, k: nat)
    requires ContentsLinked(h) && ParentsLinked(h, {}) && x in h && x != root
    requires root in h && WalkInv(h, root, v, |Opened(h, root, v)|, 0)
    requires Up(Parents(h), Some(x), k) == Some(root)
    ensures x in v
    decreases k
  {
    assert k > 0;
    UpOfNone(Parents(h), k - 1);
    var up := h[x].parent.value;
    assert x in h[up].contents;
    if up != root {
      InsideIsVisited(h, root, v, up, k - 1);
    }
    OpenedIsVisited(h, root, v, up, x);
  }

  lemma OpenedIsVisited<T>(h: Heap<T>, root: T, v: seq<T>, up: T, x: T)
    requires ContentsLinked(h) && root in h && WalkInv(h, root, v, |Opened(h, root, v)|, 0)
    requires up in h && x in h[up].contents && (up == root || up in v)
    ensures x in v
  {
    hide ContentsLinked;
    OpenedFacts(h, root, v);
    var o := Opened(h, root, v);
    assert o[..|o|] == o && up in o;
    FlattenIn(h, o, x);
  }

  /** Items of a walk are never more than the items there are. */
  lemma WalkIsBounded<T>(h: Heap<T>, v: seq<T>)
    requires Distinct(v) && forall x | x in v :: x in h
    ensures |v| <= |h.Keys|
  {
    SetSize(v, h.Keys);
  }

  lemma {:induction false} SetSize<T>(v: seq<T>, s: set<T>)
    requires Distinct(v) && forall x | x in v :: x in s
    ensures |v| <= |s|
  {
    if v != [] {
      SetSize(v[1..], s - {v[0]});
      assert |s - {v[0]}| == |s| - 1;
    }
  }

  /** A list without repetition that has exactly the members of a set has its size. */
  lemma {:induction false} ExactSize<T>(v: seq<T>, s: set<T>)
    requires Distinct(v) && forall x :: x in v <==> x in s
    ensures |v| == |s|
  {
    if v != [] {
      assert forall x :: x in v <==> x == v[0] || x in v[1..];
      ExactSize(v[1..], s - {v[0]});
    } else {
      assert s == {};
    }
  }
}
