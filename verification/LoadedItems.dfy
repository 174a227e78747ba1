/** Rebuilding the items of a player from their rows, and the round trip from saved to loaded. */
module LoadedItems {
  import opened Sums
  import opened Options
  import opened Ancestry
  import opened ItemHeap
  import opened Conservation
  import opened Items
  import opened SavedItems

  /** The objects of the rows from `k` on that name `id` as their parent, in row order. */
  ghost function ObjectsOf<T>(rows: seq<Row>, objs: seq<T>, id: int, k: nat): seq<T>
    requires k <= |rows| == |objs|
    decreases |rows| - k
  {
    if k == |rows| then []
    else (if rows[k].pid == id then [objs[k]] else []) + ObjectsOf(rows, objs, id, k + 1)
  }

  ghost predicate Holds<T>(r: Rec<T>, s: Stored) {
    r.kind == s.kind && r.attrs == s.attrs && r.count == s.count && r.isContainer == s.isContainer
        && r.capacity == s.capacity
  }

  /** One object per row, and one empty root container per slot or depot. */
  ghost predicate Known<T>(h: Heap<T>, rows: seq<Row>, objs: seq<T>, boxes: map<int, T>) {
    && |objs| == |rows| && Distinct(objs)
    && (forall j | 0 <= j < |objs| :: objs[j] in h && Holds(h[objs[j]], rows[j].stored))
    && (forall j | 0 <= j < |rows| && rows[j].pid < FIRST_ITEM_ID :: rows[j].pid in boxes)
    && (forall p | p in boxes :: p < FIRST_ITEM_ID && boxes[p] in h && boxes[p] !in objs && h[boxes[p]].isContainer)
    && (forall p, q | p in boxes && q in boxes && p != q :: boxes[p] != boxes[q])
  }

  /** The rows from `j` on are attached: every container lists its contents so far in row order. */
  ghost predicate Attached<T>(h: Heap<T>, rows: seq<Row>, objs: seq<T>, boxes: map<int, T>, j: nat) {
    && Known(h, rows, objs, boxes) && j <= |rows|
    && (forall k | 0 <= k < |rows| ::
          h[objs[k]].contents == if rows[k].stored.isContainer then ObjectsOf(rows, objs, rows[k].sid, j) else [])
    && (forall k | 0 <= k < j :: h[objs[k]].parent == None)
    && (forall p | p in boxes :: h[boxes[p]].parent == None && h[boxes[p]].contents == ObjectsOf(rows, objs, p, j))
  }

  // ----- What the attached objects stand for

  /** The object and everything in it is the tree, with the same nesting and the same order. */
  ghost predicate Represents<T>(h: Heap<T>, x: T, t: Tree)
    decreases t
  {
    && x in h && Holds(h[x], t.stored) && |h[x].contents| == |t.children|
    && forall i | 0 <= i < |t.children| :: Represents(h, h[x].contents[i], t.children[i])
  }

  ghost predicate RepresentAll<T>(h: Heap<T>, xs: seq<T>, ts: seq<Tree>) {
    |xs| == |ts| && forall i | 0 <= i < |ts| :: Represents(h, xs[i], ts[i])
  }

  lemma {:induction false} NoneBefore<T>(rows: seq<Row>, objs: seq<T>, id: int, k: nat)
    requires k <= |rows| == |objs|
    requires forall j | 0 <= j < k :: rows[j].pid != id
    ensures ObjectsOf(rows, objs, id, 0) == ObjectsOf(rows, objs, id, k)
    decreases k
  {
    if k > 0 {
      NoneBefore(rows, objs, id, k - 1);
    }
  }

  lemma AttachedAt<T>(h: Heap<T>, rows: seq<Row>, objs: seq<T>, boxes: map<int, T>, j: nat)
    requires RowsInOrder(rows) && Attached(h, rows, objs, boxes, 0) && j < |rows|
    ensures |rows| == |objs| && objs[j] in h && Holds(h[objs[j]], rows[j].stored)
    ensures h[objs[j]].contents == if rows[j].stored.isContainer then ObjectsOf(rows, objs, rows[j].sid, j + 1) else []
  {
    forall i | 0 <= i < j + 1
      ensures rows[i].pid != rows[j].sid
    {
      assert rows[i].pid < rows[i].sid <= rows[j].sid;
    }
    NoneBefore(rows, objs, rows[j].sid, j + 1);
  }

  /** The object of row `j` stands for what the rows say about it. */
  lemma {:induction false} RowIsRepresented<T>(h: Heap<T>, rows: seq<Row>, objs: seq<T>, boxes: map<int, T>, j: nat)
    requires RowsInOrder(rows) && Attached(h, rows, objs, boxes, 0) && j < |rows|
    ensures |objs| == |rows| && Represents(h, objs[j], Rebuild(rows, j))
    decreases |rows| - j, 0
  {
    hide Attached, RowsInOrder, ObjectsOf, Kids, Holds;
    AttachedAt(h, rows, objs, boxes, j);
    if rows[j].stored.isContainer {
      KidsAreRepresented(h, rows, objs, boxes, rows[j].sid, j + 1);
    }
  }

  lemma {:induction false} KidsAreRepresented<T>(h: Heap<T>, rows: seq<Row>, objs: seq<T>, boxes: map<int, T>, sid: int,
                                                 k: nat)
    requires RowsInOrder(rows) && Attached(h, rows, objs, boxes, 0) && k <= |rows| == |objs|
    ensures RepresentAll(h, ObjectsOf(rows, objs, sid, k), Kids(rows, sid, k))
    decreases |rows| - k, 1
  {
    hide Represents, Attached, RowsInOrder, Rebuild, RepresentAll;
    if k < |rows| {
      RowIsRepresented(h, rows, objs, boxes, k);
      KidsAreRepresented(h, rows, objs, boxes, sid, k + 1);
      if rows[k].pid == sid {
        RepresentCons(h, objs[k], Rebuild(rows, k), ObjectsOf(rows, objs, sid, k + 1), Kids(rows, sid, k + 1));
      } else {
        assert Kids(rows, sid, k) == Kids(rows, sid, k + 1);
        assert ObjectsOf(rows, objs, sid, k) == ObjectsOf(rows, objs, sid, k + 1);
      }
    } else {
      RepresentNil(h);
    }
  }

  lemma RepresentCons<T>(h: Heap<T>, x: T, t: Tree, xs: seq<T>, ts: seq<Tree>)
    requires Represents(h, x, t) && RepresentAll(h, xs, ts)
    ensures RepresentAll(h, [x] + xs, [t] + ts)
  {
    hide Represents;
  }

  lemma RepresentNil<T>(h: Heap<T>)
    ensures RepresentAll(h, [], [])
  {
  }

  /** The items of one slot or depot of a forest, in order. */
  ghost function TreesAt(forest: seq<(int, Tree)>, pid: int): seq<Tree> {
    if forest == [] then []
    else (if forest[0].0 == pid then [forest[0].1] else []) + TreesAt(forest[1..], pid)
  }

  lemma {:induction false} RootsAreRepresented<T>(h: Heap<T>, rows: seq<Row>, objs: seq<T>, boxes: map<int, T>,
                                                  pid: int, k: nat)
    requires RowsInOrder(rows) && Attached(h, rows, objs, boxes, 0) && k <= |rows| == |objs| && pid < FIRST_ITEM_ID
    ensures RepresentAll(h, ObjectsOf(rows, objs, pid, k), TreesAt(Roots(rows, k), pid))
    decreases |rows| - k
  {
    hide Represents, Attached, RowsInOrder, Rebuild, RepresentAll, ObjectsOf, Roots, TreesAt;
    RootsStep(rows, objs, pid, k);
    if k < |rows| {
      RowIsRepresented(h, rows, objs, boxes, k);
      RootsAreRepresented(h, rows, objs, boxes, pid, k + 1);
      if rows[k].pid == pid {
        RepresentCons(h, objs[k], Rebuild(rows, k), ObjectsOf(rows, objs, pid, k + 1),
                      TreesAt(Roots(rows, k + 1), pid));
      } else {
        EmptyFront(ObjectsOf(rows, objs, pid, k + 1), TreesAt(Roots(rows, k + 1), pid));
      }
    } else {
      RepresentNil(h);
    }
  }

  lemma EmptyFront<A, B>(xs: seq<A>, ys: seq<B>)
    ensures [] + xs == xs && [] + ys == ys
  {
  }

  lemma RootsStep<T>(rows: seq<Row>, objs: seq<T>, pid: int, k: nat)
    requires k <= |rows| == |objs| && pid < FIRST_ITEM_ID
    ensures k == |rows| ==> ObjectsOf(rows, objs, pid, k) == [] && TreesAt(Roots(rows, k), pid) == []
    ensures k < |rows| ==>
              && ObjectsOf(rows, objs, pid, k)
                 == (if rows[k].pid == pid then [objs[k]] else []) + ObjectsOf(rows, objs, pid, k + 1)
              && TreesAt(Roots(rows, k), pid)
                 == (if rows[k].pid == pid then [Rebuild(rows, k)] else []) + TreesAt(Roots(rows, k + 1), pid)
  {
    hide Rebuild;
    if k < |rows| && rows[k].pid < FIRST_ITEM_ID {
      assert Roots(rows, k)[1..] == Roots(rows, k + 1);
    } else if k < |rows| {
      assert Roots(rows, k) == Roots(rows, k + 1);
    }
  }

  /**
   Rows that describe a forest, once attached, are that forest again: in every slot the same items in the same order.
   */
  lemma SavedForestComesBack<T>(forest: seq<(int, Tree)>, rows: seq<Row>, h: Heap<T>, objs: seq<T>, boxes: map<int, T>,
                                pid: int)
    requires RowsInOrder(rows) && Roots(rows, 0) == forest && Attached(h, rows, objs, boxes, 0) && pid in boxes
    ensures boxes[pid] in h && RepresentAll(h, h[boxes[pid]].contents, TreesAt(forest, pid))
  {
    hide Represents, Roots;
    KnownApart(h, rows, objs, boxes);
    RootsAreRepresented(h, rows, objs, boxes, pid, 0);
  }

  // ----- One attachment

  lemma AddRecords<T>(h: Heap<T>, c: T, item: T)
    requires c in h && item in h && c != item
    ensures var h1 := Add(h, c, item, true);
            && h1.Keys == h.Keys
            && forall x | x in h ::
                 && h1[x].kind == h[x].kind && h1[x].attrs == h[x].attrs && h1[x].count == h[x].count
                 && h1[x].isContainer == h[x].isContainer && h1[x].capacity == h[x].capacity
                 && h1[x].contents == (if x == c then [item] + h[c].contents else h[x].contents)
                 && h1[x].parent == (if x == item then Some(c) else h[x].parent)
  {
    hide Inside, StackWeight;
  }

  /** The container a row belongs into. */
  ghost predicate IsHolder<T>(rows: seq<Row>, objs: seq<T>, boxes: map<int, T>, pid: int, c: T) {
    || (pid < FIRST_ITEM_ID && pid in boxes && boxes[pid] == c)
    || (pid >= FIRST_ITEM_ID && exists k ::
        0 <= k < |rows| == |objs| && rows[k].sid == pid && objs[k] == c && rows[k].stored.isContainer)
  }

  lemma AttachOne<T>(h: Heap<T>, rows: seq<Row>, objs: seq<T>, boxes: map<int, T>, j: nat, c: T)
    requires RowsInOrder(rows) && j < |rows| && Attached(h, rows, objs, boxes, j + 1)
    requires IsHolder(rows, objs, boxes, rows[j].pid, c)
    ensures c in h && c != objs[j] && h[c].isContainer && h[c].parent == None && h[objs[j]].parent == None
    ensures Attached(Add(h, c, objs[j], true), rows, objs, boxes, j)
  {
    HolderFacts(h, rows, objs, boxes, j, c);
    AddRecords(h, c, objs[j]);
    var h1 := Add(h, c, objs[j], true);
    hide Add, Attached;
    AttachedLists(h, h1, rows, objs, boxes, j, c);
  }

  lemma HolderFacts<T>(h: Heap<T>, rows: seq<Row>, objs: seq<T>, boxes: map<int, T>, j: nat, c: T)
    requires RowsInOrder(rows) && j < |rows| && Attached(h, rows, objs, boxes, j + 1)
    requires IsHolder(rows, objs, boxes, rows[j].pid, c)
    ensures c in h && c != objs[j] && h[c].isContainer && h[c].parent == None && h[objs[j]].parent == None
    ensures forall k | 0 <= k < |rows| && rows[k].stored.isContainer :: objs[k] == c <==> rows[k].sid == rows[j].pid
    ensures forall k | 0 <= k < |rows| && objs[k] == c :: rows[k].stored.isContainer
    ensures forall p | p in boxes :: boxes[p] == c <==> p == rows[j].pid
  {
    hide ObjectsOf;
    if rows[j].pid >= FIRST_ITEM_ID {
      var k :| 0 <= k < |rows| && rows[k].sid == rows[j].pid && objs[k] == c && rows[k].stored.isContainer;
      assert k < j;
    }
  }

  ghost predicate ListedIn<T>(h: Heap<T>, h1: Heap<T>, c: T, item: T) {
    && h1.Keys == h.Keys && item in h
    && forall x | x in h ::
         && h1[x].kind == h[x].kind && h1[x].attrs == h[x].attrs && h1[x].count == h[x].count
         && h1[x].isContainer == h[x].isContainer && h1[x].capacity == h[x].capacity
         && h1[x].contents == (if x == c then [item] + h[x].contents else h[x].contents)
         && h1[x].parent == (if x == item then Some(c) else h[x].parent)
  }

  lemma StillKnown<T>(h: Heap<T>, h1: Heap<T>, rows: seq<Row>, objs: seq<T>, boxes: map<int, T>, c: T, item: T)
    requires Known(h, rows, objs, boxes) && ListedIn(h, h1, c, item)
    ensures Known(h1, rows, objs, boxes)
  {
  }

  lemma ObjectsStep<T>(rows: seq<Row>, objs: seq<T>, id: int, k: nat)
    requires k < |rows| == |objs|
    ensures rows[k].pid == id ==> ObjectsOf(rows, objs, id, k) == [objs[k]] + ObjectsOf(rows, objs, id, k + 1)
    ensures rows[k].pid != id ==> ObjectsOf(rows, objs, id, k) == ObjectsOf(rows, objs, id, k + 1)
  {
  }

  lemma AttachedLists<T>(h: Heap<T>, h1: Heap<T>, rows: seq<Row>, objs: seq<T>, boxes: map<int, T>, j: nat, c: T)
    requires j < |rows| == |objs| && Attached(h, rows, objs, boxes, j + 1) && ListedIn(h, h1, c, objs[j])
    requires forall k | 0 <= k < |rows| && rows[k].stored.isContainer :: objs[k] == c <==> rows[k].sid == rows[j].pid
    requires forall k | 0 <= k < |rows| && objs[k] == c :: rows[k].stored.isContainer
    requires forall p | p in boxes :: boxes[p] == c <==> p == rows[j].pid
    ensures Attached(h1, rows, objs, boxes, j)
  {
    StillKnown(h, h1, rows, objs, boxes, c, objs[j]);
    KnownApart(h, rows, objs, boxes);
    hide Known, Distinct, ListedIn, ObjectsOf;
    forall k | 0 <= k < |rows|
      ensures h1[objs[k]].contents == if rows[k].stored.isContainer then ObjectsOf(rows, objs, rows[k].sid, j) else []
    {
      ListedAt(h, h1, c, objs[j], objs[k]);
      ObjectsStep(rows, objs, rows[k].sid, j);
    }
    forall k | 0 <= k < j ensures h1[objs[k]].parent == None {
      ListedAt(h, h1, c, objs[j], objs[k]);
    }
    forall p | p in boxes
      ensures h1[boxes[p]].parent == None && h1[boxes[p]].contents == ObjectsOf(rows, objs, p, j)
    {
      ListedAt(h, h1, c, objs[j], boxes[p]);
      ObjectsStep(rows, objs, p, j);
    }
  }

  lemma ListedAt<T>(h: Heap<T>, h1: Heap<T>, c: T, item: T, x: T)
    requires ListedIn(h, h1, c, item) && x in h
    ensures x in h1 && h1[x].contents == (if x == c then [item] + h[x].contents else h[x].contents)
    ensures h1[x].parent == (if x == item then Some(c) else h[x].parent)
  {
  }

  lemma KnownApart<T>(h: Heap<T>, rows: seq<Row>, objs: seq<T>, boxes: map<int, T>)
    requires Known(h, rows, objs, boxes)
    ensures |objs| == |rows| && (forall k | 0 <= k < |objs| :: objs[k] in h)
    ensures forall i, k | 0 <= i < k < |objs| :: objs[i] != objs[k]
    ensures forall p | p in boxes :: boxes[p] in h && boxes[p] !in objs
  {
  }

  /** A row whose parent is no container is left where it is, and nobody misses it. */
  lemma SkipOne<T>(h: Heap<T>, rows: seq<Row>, objs: seq<T>, boxes: map<int, T>, j: nat)
    requires RowsInOrder(rows) && j < |rows| && Attached(h, rows, objs, boxes, j + 1)
    requires rows[j].pid >= FIRST_ITEM_ID
    requires forall k | 0 <= k < |rows| && rows[k].sid == rows[j].pid :: !rows[k].stored.isContainer
    ensures Attached(h, rows, objs, boxes, j)
  {
  }

  lemma RootEnclosesItself<T>(h: Heap<T>, c: T, x: T)
    requires c in h && h[c].parent == None && c != x
    ensures !Inside(Parents(h), c, x)
  {
    InsideCases(Parents(h), c, x);
  }

  // ----- The method

  /** Makes an object per row and hangs them up from the last row to the first, each in front. */
  method LoadPlayerItems(rows: seq<Row>, boxes: map<int, Item>, ghost S0: set<Item>)
    returns (objs: seq<Item>, ghost S: set<Item>)
    requires RowsInOrder(rows) && Valid(HeapOf(S0))
    requires forall j | 0 <= j < |rows| && rows[j].pid < FIRST_ITEM_ID :: rows[j].pid in boxes
    requires forall p | p in boxes :: p < FIRST_ITEM_ID && boxes[p] in S0
    requires forall p | p in boxes :: boxes[p].isContainer && boxes[p].parent == null && boxes[p].itemlist == []
    requires forall p, q | p in boxes && q in boxes && p != q :: boxes[p] != boxes[q]
    modifies S0
    ensures S0 <= S && fresh(S - S0)
    ensures Valid(HeapOf(S)) && Attached(HeapOf(S), rows, objs, boxes, 0)
  {
    hide Valid, HeapOf, Attached, IsHolder;
    objs, S := MakeObjects(rows, boxes, S0);
    var j := |rows|;
    while j > 0
      invariant 0 <= j <= |rows| == |objs| && S0 <= S && fresh(S - S0)
      invariant Valid(HeapOf(S)) && Attached(HeapOf(S), rows, objs, boxes, j)
      invariant forall p | p in boxes :: boxes[p] in S
      invariant forall k | 0 <= k < |objs| :: objs[k] in S
    {
      j := j - 1;
      var pid := rows[j].pid;
      if pid < FIRST_ITEM_ID {
        HolderIsBox(rows, objs, boxes, j);
        Attach(rows, objs, boxes, j, boxes[pid], S);
      } else {
        var k := FindRow(rows, pid);
        if k < |rows| && objs[k].isContainer {
          ObjectIsHolder(S, rows, objs, boxes, j, k);
          Attach(rows, objs, boxes, j, objs[k], S);
        } else {
          if k < |rows| {
            ObjectKind(S, rows, objs, boxes, j + 1, k);
          }
          SkipOne(HeapOf(S), rows, objs, boxes, j);
        }
      }
    }
  }

  /** The row with a given id, or the number of rows. */
  method FindRow(rows: seq<Row>, sid: int) returns (k: nat)
    requires RowsInOrder(rows)
    ensures k <= |rows| && (k < |rows| ==> rows[k].sid == sid)
    ensures forall i | 0 <= i < |rows| && i != k :: rows[i].sid != sid
  {
    k := 0;
    while k < |rows| && rows[k].sid != sid
      invariant k <= |rows| && forall i | 0 <= i < k :: rows[i].sid != sid
    {
      k := k + 1;
    }
  }

  lemma HolderIsBox<T>(rows: seq<Row>, objs: seq<T>, boxes: map<int, T>, j: nat)
    requires j < |rows| && rows[j].pid < FIRST_ITEM_ID && rows[j].pid in boxes
    ensures IsHolder(rows, objs, boxes, rows[j].pid, boxes[rows[j].pid])
  {
  }

  lemma ObjectKind(S: set<Item>, rows: seq<Row>, objs: seq<Item>, boxes: map<int, Item>, j: nat, k: nat)
    requires Attached(HeapOf(S), rows, objs, boxes, j) && k < |rows|
    ensures k < |objs| == |rows| && objs[k] in S && objs[k].isContainer == rows[k].stored.isContainer
  {
    hide ObjectsOf, Distinct;
    assert Holds(HeapOf(S)[objs[k]], rows[k].stored);
  }

  lemma ObjectIsHolder(S: set<Item>, rows: seq<Row>, objs: seq<Item>, boxes: map<int, Item>, j: nat, k: nat)
    requires j < |rows| && k < |rows| && Attached(HeapOf(S), rows, objs, boxes, j + 1)
    requires rows[k].sid == rows[j].pid >= FIRST_ITEM_ID && k < |objs| && objs[k].isContainer
    ensures IsHolder(rows, objs, boxes, rows[j].pid, objs[k])
  {
    hide Attached;
    ObjectKind(S, rows, objs, boxes, j + 1, k);
  }

  method Attach(rows: seq<Row>, objs: seq<Item>, boxes: map<int, Item>, j: nat, c: Item, ghost S: set<Item>)
    requires RowsInOrder(rows) && j < |rows| == |objs| && c in S && objs[j] in S
    requires Valid(HeapOf(S)) && Attached(HeapOf(S), rows, objs, boxes, j + 1)
    requires IsHolder(rows, objs, boxes, rows[j].pid, c)
    modifies S
    ensures Valid(HeapOf(S)) && Attached(HeapOf(S), rows, objs, boxes, j)
  {
    hide *;
    ghost var h := HeapOf(S);
    AttachOne(h, rows, objs, boxes, j, c);
    RootEnclosesItself(h, c, objs[j]);
    HeapAt(S, c);
    HeapAt(S, objs[j]);
    c.InternalAddThing(objs[j], S);
  }

  method MakeObjects(rows: seq<Row>, boxes: map<int, Item>, ghost S0: set<Item>)
    returns (objs: seq<Item>, ghost S: set<Item>)
    requires RowsInOrder(rows) && Valid(HeapOf(S0))
    requires forall j | 0 <= j < |rows| && rows[j].pid < FIRST_ITEM_ID :: rows[j].pid in boxes
    requires forall p | p in boxes :: p < FIRST_ITEM_ID && boxes[p] in S0
    requires forall p | p in boxes :: boxes[p].isContainer && boxes[p].parent == null && boxes[p].itemlist == []
    requires forall p, q | p in boxes && q in boxes && p != q :: boxes[p] != boxes[q]
    ensures S0 <= S && fresh(S - S0) && |objs| == |rows|
    ensures forall k | 0 <= k < |objs| :: objs[k] in S
    ensures Valid(HeapOf(S)) && Attached(HeapOf(S), rows, objs, boxes, |rows|)
  {
    hide Valid, HeapOf, Made, Attached, RowsInOrder, Holds, IsLoose;
    objs, S := [], S0;
    ghost var h0 := HeapOf(S0);
    NothingMade(h0);
    for j := 0 to |rows|
      invariant |objs| == j && S0 <= S && fresh(S - S0) && HeapOf(S0) == h0
      invariant forall k | 0 <= k < j :: objs[k] in S - S0
      invariant Made(HeapOf(S), h0, rows[..j], objs)
    {
      var s := rows[j].stored;
      var item := new Item(s.kind, s.attrs, s.count, s.isContainer, s.capacity, true, false);
      FreshRecord(item, s);
      MadeOneMore(S, h0, rows, objs, j, item);
      S := S + {item};
      objs := objs + [item];
    }
    assert rows[..|rows|] == rows;
    AllMade(S0, HeapOf(S), h0, rows, objs, boxes);
  }

  /** Objects for the first rows, each lying nowhere, beside an unchanged heap. */
  ghost predicate Made<T>(h: Heap<T>, h0: Heap<T>, rows: seq<Row>, objs: seq<T>) {
    && Valid(h) && h0.Keys <= h.Keys && (forall x | x in h0 :: h[x] == h0[x])
    && |objs| == |rows| && Distinct(objs)
    && forall j | 0 <= j < |objs| ::
         objs[j] in h && objs[j] !in h0 && IsLoose(h[objs[j]]) && Holds(h[objs[j]], rows[j].stored)
  }

  lemma NothingMade<T>(h: Heap<T>)
    requires Valid(h)
    ensures Made(h, h, [], [])
  {
    hide Valid;
  }

  lemma FreshRecord(item: Item, s: Stored)
    requires item.kind == s.kind && item.attrs == s.attrs && item.count == s.count && item.parent == null
    requires item.isContainer == s.isContainer && item.capacity == s.capacity
    requires item.itemlist == [] && item.totalWeight == 0 && item.ammoCount == 0
    ensures IsLoose(item.Record()) && Holds(item.Record(), s)
  {
  }

  lemma MadeOneMore(S: set<Item>, h0: Heap<Item>, rows: seq<Row>, objs: seq<Item>, j: nat, item: Item)
    requires j < |rows| && item !in S && Made(HeapOf(S), h0, rows[..j], objs)
    requires IsLoose(item.Record()) && Holds(item.Record(), rows[j].stored)
    ensures Made(HeapOf(S + {item}), h0, rows[..j + 1], objs + [item])
  {
    hide Valid, IsLoose, Holds;
    assert HeapOf(S + {item}) == HeapOf(S)[item := item.Record()];
    NewItemKeepsValid(HeapOf(S), item, item.Record());
    assert rows[..j + 1] == rows[..j] + [rows[j]];
  }

  lemma AllMade(S0: set<Item>, h: Heap<Item>, h0: Heap<Item>, rows: seq<Row>, objs: seq<Item>, boxes: map<int, Item>)
    requires h0 == HeapOf(S0) && Made(h, h0, rows, objs) && RowsInOrder(rows)
    requires forall j | 0 <= j < |rows| && rows[j].pid < FIRST_ITEM_ID :: rows[j].pid in boxes
    requires forall p | p in boxes :: p < FIRST_ITEM_ID && boxes[p] in S0
    requires forall p | p in boxes :: boxes[p].isContainer && boxes[p].parent == null && boxes[p].itemlist == []
    requires forall p, q | p in boxes && q in boxes && p != q :: boxes[p] != boxes[q]
    ensures Valid(h) && Attached(h, rows, objs, boxes, |rows|)
  {
    hide Valid;
    forall p | p in boxes
      ensures boxes[p] in h && h[boxes[p]].isContainer && h[boxes[p]].parent == None && h[boxes[p]].contents == []
      ensures boxes[p] !in objs
    {
      assert h0[boxes[p]] == boxes[p].Record();
    }
  }

  // ----- The round trip

  /** Saving a forest and loading the rows gives the forest again, with every cached weight exact. */
  method SaveAndLoad(forest: seq<(int, Tree)>, boxes: map<int, Item>, ghost S0: set<Item>) returns (ghost S: set<Item>)
    requires IsForest(forest) && Valid(HeapOf(S0))
    requires forall e | e in forest :: e.0 in boxes
    requires forall p | p in boxes :: p < FIRST_ITEM_ID && boxes[p] in S0
    requires forall p | p in boxes :: boxes[p].isContainer && boxes[p].parent == null && boxes[p].itemlist == []
    requires forall p, q | p in boxes && q in boxes && p != q :: boxes[p] != boxes[q]
    modifies S0
    ensures S0 <= S && fresh(S - S0) && Valid(HeapOf(S))
    ensures forall p | p in boxes :: RepresentAll(HeapOf(S), boxes[p].itemlist, TreesAt(forest, p))
  {
    hide Valid, HeapOf, Attached, RepresentAll, RowsInOrder;
    var rows := SaveItems(forest);
    RootIds(rows, forest, boxes);
    var objs;
    objs, S := LoadPlayerItems(rows, boxes, S0);
    forall p | p in boxes
      ensures RepresentAll(HeapOf(S), boxes[p].itemlist, TreesAt(forest, p))
    {
      SavedForestComesBack(forest, rows, HeapOf(S), objs, boxes, p);
      HeapAt(S, boxes[p]);
    }
  }

  lemma RootIds<T>(rows: seq<Row>, forest: seq<(int, Tree)>, boxes: map<int, T>)
    requires Roots(rows, 0) == forest && forall e | e in forest :: e.0 in boxes
    ensures forall j | 0 <= j < |rows| && rows[j].pid < FIRST_ITEM_ID :: rows[j].pid in boxes
  {
    forall j | 0 <= j < |rows| && rows[j].pid < FIRST_ITEM_ID
      ensures rows[j].pid in boxes
    {
      RootIsListed(rows, 0, j);
      assert (rows[j].pid, Rebuild(rows, j)).0 in boxes;
    }
  }

  lemma {:induction false} RootIsListed(rows: seq<Row>, k: nat, j: nat)
    requires k <= j < |rows| && rows[j].pid < FIRST_ITEM_ID
    ensures (rows[j].pid, Rebuild(rows, j)) in Roots(rows, k)
    decreases j - k
  {
    hide Rebuild;
    if k < j {
      RootIsListed(rows, k + 1, j);
    }
  }
}
