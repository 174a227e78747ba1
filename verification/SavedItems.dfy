/** Saving a forest of items as flat (pid, sid) rows, breadth first. */
module SavedItems {
  import opened ItemHeap

  /** What a row keeps of one item: its type and count, and its attributes as one blob. */
  datatype Stored = Stored(kind: ItemType, attrs: nat, count: nat, isContainer: bool, capacity: nat)

  /** An item with its contents; only containers have any. */
  datatype Tree = Tree(stored: Stored, children: seq<Tree>)

  datatype Row = Row(pid: int, sid: int, stored: Stored)

  /** Parent ids below this one name a slot or a depot, the others a container row. */
  const FIRST_ITEM_ID := 100

  ghost predicate WellFormed(t: Tree) {
    (t.children != [] ==> t.stored.isContainer) && forall c | c in t.children :: WellFormed(c)
  }

  ghost predicate IsForest(forest: seq<(int, Tree)>) {
    forall e | e in forest :: 0 <= e.0 < FIRST_ITEM_ID && WellFormed(e.1)
  }

  // ----- The forest that rows describe

  /** The item of row `j` with everything that hangs under it. */
  ghost function Rebuild(rows: seq<Row>, j: nat): Tree
    requires j < |rows|
    decreases |rows| - j, 0
  {
    Tree(rows[j].stored, if rows[j].stored.isContainer then Kids(rows, rows[j].sid, j + 1) else [])
  }

  /** The items of the rows from `k` on that name `sid` as their parent, in row order. */
  ghost function Kids(rows: seq<Row>, sid: int, k: nat): seq<Tree>
    requires k <= |rows|
    decreases |rows| - k, 1
  {
    if k == |rows| then []
    else (if rows[k].pid == sid then [Rebuild(rows, k)] else []) + Kids(rows, sid, k + 1)
  }

  /** The items that lie in slots or depots, in row order. */
  ghost function Roots(rows: seq<Row>, k: nat): seq<(int, Tree)>
    requires k <= |rows|
    decreases |rows| - k
  {
    if k == |rows| then []
    else (if rows[k].pid < FIRST_ITEM_ID then [(rows[k].pid, Rebuild(rows, k))] else []) + Roots(rows, k + 1)
  }

  /** What the loader relies on: ids rise, are above every slot id, and a parent comes before its contents. */
  ghost predicate RowsInOrder(rows: seq<Row>) {
    && (forall j | 0 <= j < |rows| :: FIRST_ITEM_ID < rows[j].sid && 0 <= rows[j].pid < rows[j].sid)
    && (forall j, k | 0 <= j < k < |rows| :: rows[j].sid < rows[k].sid)
  }

  // ----- Rows together with the items they were made from

  ghost function Picked(rows: seq<Row>, trees: seq<Tree>, sid: int, k: nat): seq<Tree>
    requires k <= |rows| == |trees|
    decreases |rows| - k
  {
    if k == |rows| then []
    else (if rows[k].pid == sid then [trees[k]] else []) + Picked(rows, trees, sid, k + 1)
  }

  lemma {:induction false} PickedSnoc(rows: seq<Row>, trees: seq<Tree>, sid: int, k: nat, r: Row, t: Tree)
    requires k <= |rows| == |trees|
    ensures Picked(rows + [r], trees + [t], sid, k) == Picked(rows, trees, sid, k) + (if r.pid == sid then [t] else [])
    decreases |rows| - k
  {
    if k < |rows| {
      PickedSnoc(rows, trees, sid, k + 1, r, t);
    } else {
      assert Picked(rows + [r], trees + [t], sid, k + 1) == [];
    }
  }

  lemma {:induction false} PickedNone(rows: seq<Row>, trees: seq<Tree>, sid: int, k: nat)
    requires k <= |rows| == |trees|
    requires forall j | k <= j < |rows| :: rows[j].pid != sid
    ensures Picked(rows, trees, sid, k) == []
    decreases |rows| - k
  {
    if k < |rows| {
      PickedNone(rows, trees, sid, k + 1);
    }
  }

  lemma {:induction false} PickedLater(rows: seq<Row>, trees: seq<Tree>, sid: int, k: nat)
    requires k <= |rows| == |trees|
    requires forall j | 0 <= j < k :: rows[j].pid != sid
    ensures Picked(rows, trees, sid, 0) == Picked(rows, trees, sid, k)
    decreases k
  {
    if k > 0 {
      PickedLater(rows, trees, sid, k - 1);
    }
  }

  /** Rows that list, for every container, exactly its contents in order. */
  ghost predicate Lists(rows: seq<Row>, trees: seq<Tree>) {
    && |rows| == |trees|
    && RowsInOrder(rows)
    && forall j | 0 <= j < |rows| ::
         && rows[j].stored == trees[j].stored && WellFormed(trees[j])
         && (trees[j].stored.isContainer ==> Picked(rows, trees, rows[j].sid, 0) == trees[j].children)
  }

  lemma {:induction false} RebuildIsTree(rows: seq<Row>, trees: seq<Tree>, j: nat)
    requires Lists(rows, trees) && j < |rows|
    ensures Rebuild(rows, j) == trees[j]
    decreases |rows| - j, 0
  {
    if rows[j].stored.isContainer {
      KidsArePicked(rows, trees, rows[j].sid, j + 1);
      PickedLater(rows, trees, rows[j].sid, j + 1);
    }
  }

  lemma {:induction false} KidsArePicked(rows: seq<Row>, trees: seq<Tree>, sid: int, k: nat)
    requires Lists(rows, trees) && k <= |rows|
    ensures Kids(rows, sid, k) == Picked(rows, trees, sid, k)
    decreases |rows| - k, 1
  {
    if k < |rows| {
      RebuildIsTree(rows, trees, k);
      KidsArePicked(rows, trees, sid, k + 1);
    }
  }

  lemma {:induction false} RootsAreForest(rows: seq<Row>, trees: seq<Tree>, forest: seq<(int, Tree)>, k: nat)
    requires Lists(rows, trees) && k <= |rows| && |forest| <= |rows|
    requires forall j | 0 <= j < |forest| :: rows[j].pid == forest[j].0 < FIRST_ITEM_ID && trees[j] == forest[j].1
    requires forall j | |forest| <= j < |rows| :: rows[j].pid >= FIRST_ITEM_ID
    ensures Roots(rows, k) == if k <= |forest| then forest[k..] else []
    decreases |rows| - k
  {
    if k < |rows| {
      RootsAreForest(rows, trees, forest, k + 1);
      RebuildIsTree(rows, trees, k);
    }
  }

  // ----- The worklist

  /** An upper bound on the containers an item still puts on the worklist. */
  ghost function Load(t: Tree): nat {
    1 + LoadAll(t.children)
  }

  ghost function LoadAll(ts: seq<Tree>): nat {
    if ts == [] then 0 else Load(ts[0]) + LoadAll(ts[1..])
  }

  ghost function Pending(work: seq<(Tree, int)>): nat {
    if work == [] then 0 else Load(work[0].0) + Pending(work[1..])
  }

  lemma {:induction false} PendingSnoc(work: seq<(Tree, int)>, w: (Tree, int))
    ensures Pending(work + [w]) == Pending(work) + Load(w.0)
  {
    if work == [] {
      assert work + [w] == [w];
    } else {
      assert (work + [w])[1..] == work[1..] + [w];
      PendingSnoc(work[1..], w);
    }
  }

  /** The rows are numbered from 101 on; the first `n` are the roots, all others name an earlier row as their parent. */
  ghost predicate Numbered(forest: seq<(int, Tree)>, n: nat, rows: seq<Row>, trees: seq<Tree>) {
    && n <= |rows| == |trees| && n <= |forest|
    && (forall j | 0 <= j < |rows| ::
          rows[j].sid == FIRST_ITEM_ID + 1 + j && rows[j].stored == trees[j].stored && WellFormed(trees[j]))
    && (forall j | 0 <= j < n :: rows[j].pid == forest[j].0 && trees[j] == forest[j].1)
    && (forall j | n <= j < |rows| :: FIRST_ITEM_ID < rows[j].pid < rows[j].sid)
  }

  /** The container rows, in row order: what the worklist holds. */
  ghost function WorkOf(trees: seq<Tree>): seq<(Tree, int)> {
    if trees == [] then []
    else
      var last := trees[|trees| - 1];
      Queued(WorkOf(trees[..|trees| - 1]), last, FIRST_ITEM_ID + |trees|)
  }

  /** The worklist after another item has got its row. */
  function Queued(work: seq<(Tree, int)>, t: Tree, sid: int): seq<(Tree, int)> {
    if t.stored.isContainer then work + [(t, sid)] else work
  }

  lemma {:induction false} WorkIds(trees: seq<Tree>, k: nat)
    requires k < |WorkOf(trees)|
    ensures var w := WorkOf(trees)[k];
            && FIRST_ITEM_ID < w.1 <= FIRST_ITEM_ID + |trees|
            && trees[w.1 - FIRST_ITEM_ID - 1] == w.0 && w.0.stored.isContainer
  {
    var front := trees[..|trees| - 1];
    if k < |WorkOf(front)| {
      WorkIds(front, k);
    }
  }

  lemma {:induction false} WorkRises(trees: seq<Tree>, k: nat, l: nat)
    requires k < l < |WorkOf(trees)|
    ensures WorkOf(trees)[k].1 < WorkOf(trees)[l].1
  {
    var front := trees[..|trees| - 1];
    if l < |WorkOf(front)| {
      WorkRises(front, k, l);
    } else {
      WorkIds(front, k);
    }
  }

  lemma {:induction false} WorkHas(trees: seq<Tree>, j: nat) returns (k: nat)
    requires j < |trees| && trees[j].stored.isContainer
    ensures k < |WorkOf(trees)| && WorkOf(trees)[k] == (trees[j], FIRST_ITEM_ID + 1 + j)
  {
    var front := trees[..|trees| - 1];
    if j < |front| {
      k := WorkHas(front, j);
    } else {
      k := |WorkOf(front)|;
    }
  }

  lemma WorkGrows(trees: seq<Tree>, t: Tree)
    ensures WorkOf(trees + [t]) == Queued(WorkOf(trees), t, FIRST_ITEM_ID + 1 + |trees|)
  {
    assert (trees + [t])[..|trees|] == trees;
  }

  /**
   `i` containers of the worklist are written out, the next one up to its first `c` contents, and no later one at all.
   */
  ghost predicate Written(n: nat, rows: seq<Row>, trees: seq<Tree>, work: seq<(Tree, int)>, i: nat, c: nat) {
    && i <= |work| && n <= |rows| == |trees|
    && (forall k | 0 <= k < i :: Picked(rows, trees, work[k].1, 0) == work[k].0.children)
    && (i < |work| ==> c <= |work[i].0.children| && Picked(rows, trees, work[i].1, 0) == work[i].0.children[..c])
    && (i < |work| ==> forall j | n <= j < |rows| :: rows[j].pid <= work[i].1)
    && (i < |work| && c == 0 ==> forall j | n <= j < |rows| :: rows[j].pid < work[i].1)
  }

  ghost predicate Saving(forest: seq<(int, Tree)>, n: nat, rows: seq<Row>, trees: seq<Tree>, work: seq<(Tree, int)>,
                         i: nat, c: nat) {
    Numbered(forest, n, rows, trees) && work == WorkOf(trees) && Written(n, rows, trees, work, i, c)
  }

  lemma AddRoot(forest: seq<(int, Tree)>, n: nat, rows: seq<Row>, trees: seq<Tree>, work: seq<(Tree, int)>)
    requires IsForest(forest) && n < |forest| && |rows| == n
    requires Saving(forest, n, rows, trees, work, 0, 0)
    ensures var t := forest[n].1;
            var sid := FIRST_ITEM_ID + 1 + n;
            Saving(forest, n + 1, rows + [Row(forest[n].0, sid, t.stored)], trees + [t], Queued(work, t, sid), 0, 0)
  {
    hide Numbered, Written, WellFormed, IsForest, WorkOf;
    var t := forest[n].1;
    var r := Row(forest[n].0, FIRST_ITEM_ID + 1 + n, t.stored);
    NumberedRoot(forest, n, rows, trees);
    WorkGrows(trees, t);
    NothingWritten(forest, n + 1, rows + [r], trees + [t]);
  }

  lemma NumberedRoot(forest: seq<(int, Tree)>, n: nat, rows: seq<Row>, trees: seq<Tree>)
    requires IsForest(forest) && n < |forest| && |rows| == n && Numbered(forest, n, rows, trees)
    ensures var t := forest[n].1;
            |trees| == n && Numbered(forest, n + 1, rows + [Row(forest[n].0, FIRST_ITEM_ID + 1 + n, t.stored)],
                                     trees + [t])
  {
    hide WellFormed;
    assert forest[n] in forest;
  }

  /** With nothing but roots no container is written out yet. */
  lemma NothingWritten(forest: seq<(int, Tree)>, n: nat, rows: seq<Row>, trees: seq<Tree>)
    requires IsForest(forest) && n <= |forest| && |rows| == n && Numbered(forest, n, rows, trees)
    ensures Written(n, rows, trees, WorkOf(trees), 0, 0)
  {
    hide WellFormed, Picked, WorkOf;
    if |WorkOf(trees)| > 0 {
      WorkIds(trees, 0);
      forall j | 0 <= j < n
        ensures rows[j].pid < FIRST_ITEM_ID
      {
        assert forest[j] in forest;
      }
      PickedNone(rows, trees, WorkOf(trees)[0].1, 0);
    }
  }

  /** Writing the next content of the container in work. */
  lemma AddChild(forest: seq<(int, Tree)>, n: nat, rows: seq<Row>, trees: seq<Tree>, work: seq<(Tree, int)>, i: nat,
                 c: nat)
    requires Saving(forest, n, rows, trees, work, i, c) && i < |work| && c < |work[i].0.children|
    ensures var t := work[i].0.children[c];
            var sid := FIRST_ITEM_ID + 1 + |rows|;
            Saving(forest, n, rows + [Row(work[i].1, sid, t.stored)], trees + [t], Queued(work, t, sid), i, c + 1)
  {
    hide Written, Numbered;
    assert |rows| == |trees| by { WrittenSizes(n, rows, trees, work, i, c); }
    var t := work[i].0.children[c];
    ChildNumbered(forest, n, rows, trees, i, t);
    WorkGrows(trees, t);
    ChildWritten(n, rows, trees, work, i, c);
  }

  lemma WrittenSizes(n: nat, rows: seq<Row>, trees: seq<Tree>, work: seq<(Tree, int)>, i: nat, c: nat)
    requires Written(n, rows, trees, work, i, c)
    ensures |rows| == |trees|
  {
  }

  lemma ChildNumbered(forest: seq<(int, Tree)>, n: nat, rows: seq<Row>, trees: seq<Tree>, i: nat, t: Tree)
    requires Numbered(forest, n, rows, trees) && i < |WorkOf(trees)| && t in WorkOf(trees)[i].0.children
    ensures Numbered(forest, n, rows + [Row(WorkOf(trees)[i].1, FIRST_ITEM_ID + 1 + |rows|, t.stored)], trees + [t])
  {
    hide WorkOf;
    WorkIds(trees, i);
    assert WellFormed(WorkOf(trees)[i].0);
  }

  lemma ChildWritten(n: nat, rows: seq<Row>, trees: seq<Tree>, work: seq<(Tree, int)>, i: nat, c: nat)
    requires work == WorkOf(trees) && Written(n, rows, trees, work, i, c)
    requires i < |work| && c < |work[i].0.children|
    ensures var t := work[i].0.children[c];
            var sid := FIRST_ITEM_ID + 1 + |rows|;
            Written(n, rows + [Row(work[i].1, sid, t.stored)], trees + [t], Queued(work, t, sid), i, c + 1)
  {
    hide WorkOf, Picked;
    var t := work[i].0.children[c];
    var sid := FIRST_ITEM_ID + 1 + |rows|;
    var r := Row(work[i].1, sid, t.stored);
    forall k | 0 <= k <= i
      ensures Picked(rows + [r], trees + [t], work[k].1, 0)
           == Picked(rows, trees, work[k].1, 0) + (if k == i then [t] else [])
    {
      PickedSnoc(rows, trees, work[k].1, 0, r, t);
      if k < i {
        WorkRises(trees, k, i);
      }
    }
    assert work[i].0.children[..c + 1] == work[i].0.children[..c] + [t];
    forall k | 0 <= k <= i
      ensures Queued(work, t, sid)[k] == work[k]
    {
    }
  }

  /** Going on to the next container of the worklist. */
  lemma NextBox(forest: seq<(int, Tree)>, n: nat, rows: seq<Row>, trees: seq<Tree>, work: seq<(Tree, int)>, i: nat)
    requires i < |work| && Saving(forest, n, rows, trees, work, i, |work[i].0.children|) && IsForest(forest)
    ensures Saving(forest, n, rows, trees, work, i + 1, 0)
  {
    hide WorkOf;
    var t := work[i].0;
    assert t.children[..|t.children|] == t.children;
    if i + 1 < |work| {
      WorkIds(trees, i + 1);
      WorkRises(trees, i, i + 1);
      forall j | 0 <= j < |rows|
        ensures rows[j].pid < work[i + 1].1
      {
        if j < n {
          assert forest[j] in forest;
        }
      }
      PickedNone(rows, trees, work[i + 1].1, 0);
    }
  }

  /** When the worklist is done, the rows describe exactly the forest. */
  lemma SavedIsForest(forest: seq<(int, Tree)>, rows: seq<Row>, trees: seq<Tree>, work: seq<(Tree, int)>)
    requires IsForest(forest) && Saving(forest, |forest|, rows, trees, work, |work|, 0)
    ensures RowsInOrder(rows) && Roots(rows, 0) == forest
  {
    hide WorkOf, Picked;
    forall j | 0 <= j < |rows|
      ensures 0 <= rows[j].pid < rows[j].sid && (j < |forest| ==> rows[j].pid < FIRST_ITEM_ID)
    {
      if j < |forest| {
        assert forest[j] in forest;
      }
    }
    forall j | 0 <= j < |rows| && trees[j].stored.isContainer
      ensures Picked(rows, trees, rows[j].sid, 0) == trees[j].children
    {
      var k := WorkHas(trees, j);
    }
    SavedRowsList(rows, trees);
    RootsAreForest(rows, trees, forest, 0);
    assert forest[0..] == forest;
  }

  lemma SavedRowsList(rows: seq<Row>, trees: seq<Tree>)
    requires |rows| == |trees|
    requires forall j | 0 <= j < |rows| ::
               rows[j].sid == FIRST_ITEM_ID + 1 + j && rows[j].stored == trees[j].stored && WellFormed(trees[j])
    requires forall j | 0 <= j < |rows| :: 0 <= rows[j].pid < rows[j].sid
    requires forall j | 0 <= j < |rows| && trees[j].stored.isContainer ::
               Picked(rows, trees, rows[j].sid, 0) == trees[j].children
    ensures Lists(rows, trees)
  {
  }

  // ----- The method

  /** Writes a row per item: first the items of the slots, then the contents of one container after the other. */
  /**
   The rows number themselves from 101 on. The items of the slots come first, as they were listed; then the contents of
   one container after the other, in the order of the containers.
   */
  ghost predicate BreadthFirst(forest: seq<(int, Tree)>, n: nat, rows: seq<Row>) {
    && n <= |rows| && n <= |forest| && (forall j | 0 <= j < |rows| :: rows[j].sid == 101 + j)
    && (forall j | 0 <= j < n :: rows[j].pid == forest[j].0 && rows[j].stored == forest[j].1.stored)
    && (forall j | n <= j < |rows| :: 100 < rows[j].pid)
    && (forall j, k | n <= j <= k < |rows| :: rows[j].pid <= rows[k].pid)
  }

  lemma ChildFollows(forest: seq<(int, Tree)>, n: nat, rows: seq<Row>, trees: seq<Tree>, work: seq<(Tree, int)>, i: nat,
                     c: nat, s: Stored)
    requires Saving(forest, n, rows, trees, work, i, c) && i < |work| && BreadthFirst(forest, n, rows)
    ensures BreadthFirst(forest, n, rows + [Row(work[i].1, 101 + |rows|, s)])
  {
    hide Picked, WellFormed;
    WorkIds(trees, i);
  }

  method SaveItems(forest: seq<(int, Tree)>) returns (rows: seq<Row>)
    requires IsForest(forest)
    ensures RowsInOrder(rows) && Roots(rows, 0) == forest && BreadthFirst(forest, |forest|, rows)
  {
    hide Saving, IsForest;
    var containers: seq<(Tree, int)> := [];
    var runningId := FIRST_ITEM_ID;
    rows := [];
    ghost var trees: seq<Tree> := [];
    NothingSaved(forest);
    for n := 0 to |forest|
      invariant |rows| == n && runningId == FIRST_ITEM_ID + n && BreadthFirst(forest, n, rows)
      invariant Saving(forest, n, rows, trees, containers, 0, 0)
    {
      var pid, item := forest[n].0, forest[n].1;
      runningId := runningId + 1;
      AddRoot(forest, n, rows, trees, containers);
      if item.stored.isContainer {
        containers := containers + [(item, runningId)];
      }
      rows := rows + [Row(pid, runningId, item.stored)];
      trees := trees + [item];
    }
    var i := 0;
    while i < |containers|
      invariant 0 <= i <= |containers| && runningId == FIRST_ITEM_ID + |rows| && BreadthFirst(forest, |forest|, rows)
      invariant Saving(forest, |forest|, rows, trees, containers, i, 0)
      decreases Pending(containers[i..])
    {
      var container, parentId := containers[i].0, containers[i].1;
      ghost var pending := Pending(containers[i..]);
      ghost var before := containers;
      var c := 0;
      while c < |container.children|
        invariant 0 <= c <= |container.children| && runningId == FIRST_ITEM_ID + |rows|
        invariant BreadthFirst(forest, |forest|, rows)
        invariant i < |containers| && containers[i] == (container, parentId)
        invariant Saving(forest, |forest|, rows, trees, containers, i, c)
        invariant Pending(containers[i..]) + LoadAll(container.children[c..]) <= pending + LoadAll(container.children)
      {
        var item := container.children[c];
        runningId := runningId + 1;
        AddChild(forest, |forest|, rows, trees, containers, i, c);
        ChildFollows(forest, |forest|, rows, trees, containers, i, c, item.stored);
        QueueLoad(containers, i, item, runningId, container.children, c);
        if item.stored.isContainer {
          containers := containers + [(item, runningId)];
        }
        rows := rows + [Row(parentId, runningId, item.stored)];
        trees := trees + [item];
        c := c + 1;
      }
      NextBox(forest, |forest|, rows, trees, containers, i);
      assert containers[i..][1..] == containers[i + 1..];
      i := i + 1;
    }
    SavedIsForest(forest, rows, trees, containers);
  }

  lemma NothingSaved(forest: seq<(int, Tree)>)
    ensures Saving(forest, 0, [], [], [], 0, 0)
  {
  }

  lemma QueueLoad(work: seq<(Tree, int)>, i: nat, t: Tree, sid: int, ts: seq<Tree>, c: nat)
    requires i < |work| && c < |ts| && ts[c] == t
    ensures Pending(Queued(work, t, sid)[i..]) <= Pending(work[i..]) + Load(t)
    ensures LoadAll(ts[c..]) == Load(t) + LoadAll(ts[c + 1..])
  {
    assert ts[c..][1..] == ts[c + 1..];
    if t.stored.isContainer {
      assert (work + [(t, sid)])[i..] == work[i..] + [(t, sid)];
      PendingSnoc(work[i..], (t, sid));
    }
  }
}
