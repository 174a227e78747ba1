/** Finding the goods of an offer in the depots and the inbox of a player, and taking them away. */
module MarketItems {
  import opened Sums
  import opened Options
  import opened Ancestry
  import opened ItemHeap
  import opened CylinderQueries
  import opened Conservation
  import opened MoveSteps
  import opened Items
  import opened ContainerIterators
  import opened MarketWalk
  import opened Totals
  import MarketLedger

  const WORD16: nat := 0x1_0000

  /** The depots that hold something, the last one first, and then the inbox. */
  method Containers(inbox: Item, depotChests: seq<Item>) returns (containers: seq<Item>)
    requires Distinct([inbox] + depotChests)
    ensures containers != [] && Distinct(containers) && inbox in containers
    ensures forall x | x in containers :: x == inbox || x in depotChests
    ensures forall x | x in depotChests && x.itemlist != [] :: x in containers
  {
    containers := [inbox];
    for i := 0 to |depotChests|
      invariant containers != [] && Distinct(containers) && inbox in containers
      invariant forall x | x in containers :: x == inbox || x in depotChests[..i]
      invariant forall x | x in depotChests[..i] && x.itemlist != [] :: x in containers
    {
      assert depotChests[..i + 1] == depotChests[..i] + [depotChests[i]];
      assert depotChests[i] == ([inbox] + depotChests)[i + 1];
      assert forall k | 0 <= k < i :: depotChests[k] == ([inbox] + depotChests)[k + 1];
      assert ([inbox] + depotChests)[0] == inbox;
      if depotChests[i].itemlist != [] {
        containers := [depotChests[i]] + containers;
      }
    }
    assert depotChests[..|depotChests|] == depotChests;
  }

  ghost function Roots(inbox: Item, depotChests: seq<Item>): set<Item> {
    set x | x in [inbox] + depotChests
  }

  /**
   Finds enough of the wanted items, or nothing; `wanted` are those of the right ware and tier that the market
   takes. Nothing is found exactly when there is not enough, and no item is found that is not needed.
   */
  method GetMarketItemList(inbox: Item, depotChests: seq<Item>, wanted: set<Item>, sufficientCount: nat,
                           ghost S: set<Item>)
    returns (itemList: seq<Item>, ghost all: seq<Item>)
    requires Valid(HeapOf(S)) && Distinct([inbox] + depotChests)
    requires inbox in S && (forall x | x in depotChests :: x in S) && Apart(HeapOf(S), Roots(inbox, depotChests))
    requires 0 < sufficientCount <= 64000
    requires forall x | x in wanted && x in S :: 1 <= x.count <= STACK_SIZE
    ensures Distinct(itemList)
    ensures forall x | x in itemList :: x in S && Goods(HeapOf(S), Roots(inbox, depotChests), wanted, x)
    ensures itemList != [] ==>
              Pieces(HeapOf(S), itemList[..|itemList| - 1]) < sufficientCount <= Pieces(HeapOf(S), itemList)
    ensures itemList == [] ==>
              AllGoods(HeapOf(S), Roots(inbox, depotChests), wanted, all) && Pieces(HeapOf(S), all) < sufficientCount
  {
    hide Valid, HeapOf, Searching, Collected, Apart, Goods, Distinct, Pieces;
    var count: nat := 0;
    var containers := Containers(inbox, depotChests);
    itemList := [];
    ghost var h := HeapOf(S);
    ghost var roots := Roots(inbox, depotChests);
    QueueStarts(S, inbox, depotChests, containers);
    ghost var done: seq<Item> := [];
    var container := containers[0];
    containers := containers[1..];
    CollectedStarts(h, wanted, container);
    while true
      invariant HeapOf(S) == h && container in S && Searching(h, roots, done, container, 0, containers)
      invariant Collected(h, wanted, done, container, 0, itemList, count) && 0 <= count < sufficientCount
      decreases |S| - |done|
    {
      SearchIsBounded(h, roots, done, container, 0, containers);
      HeapAt(S, container);
      var j := 0;
      while j < |container.itemlist|
        invariant HeapOf(S) == h && 0 <= j <= |container.itemlist|
                  && Searching(h, roots, done, container, j, containers)
        invariant Collected(h, wanted, done, container, j, itemList, count) && 0 <= count < sufficientCount
      {
        var item := container.itemlist[j];
        SearchSteps(h, roots, done, container, j, containers);
        Collects(h, roots, wanted, done, container, j, containers, itemList, count);
        HeapAt(S, item);
        if item.itemlist != [] {
          containers := containers + [item];
        } else if item in wanted {
          ghost var before, n := itemList, count;
          itemList := itemList + [item];
          count := (count + item.count) % WORD16;
          if count >= sufficientCount {
            CollectedAreGoods(h, roots, wanted, done, container, j + 1, containers, itemList, count);
            CollectedPieces(h, wanted, done, container, j, before, n);
            CollectedPieces(h, wanted, done, container, j + 1, itemList, count);
            assert itemList[..|itemList| - 1] == before;
            all := [];
            return;
          }
        }
        j := j + 1;
      }
      if containers == [] {
        CollectedAll(h, roots, wanted, done, container, itemList, count);
        CollectedPieces(h, wanted, done, container, j, itemList, count);
        all := itemList;
        NoItems(S);
        return [], all;
      }
      QueueKnown(S, roots, done, container, j, containers);
      CollectedTurns(h, roots, wanted, done, container, containers, itemList, count);
      done := done + [container];
      container := containers[0];
      containers := containers[1..];
    }
  }

  lemma NoItems(S: set<Item>)
    ensures Distinct<Item>([])
  {
  }

  lemma CollectedPieces<T>(h: Heap<T>, wanted: set<T>, done: seq<T>, c: T, j: nat, xs: seq<T>, count: nat)
    requires Collected(h, wanted, done, c, j, xs, count)
    ensures Pieces(h, xs) == count
  {
  }

  lemma QueueKnown(S: set<Item>, roots: set<Item>, done: seq<Item>, c: Item, j: nat, queue: seq<Item>)
    requires Searching(HeapOf(S), roots, done, c, j, queue)
    ensures forall x | x in queue :: x in S
  {
    assert forall x | x in queue :: x in done + [c] + queue;
  }

  lemma QueueStarts(S: set<Item>, inbox: Item, depotChests: seq<Item>, queue: seq<Item>)
    requires inbox in S && (forall x | x in depotChests :: x in S)
    requires queue != [] && Distinct(queue) && inbox in queue
             && (forall x | x in queue :: x == inbox || x in depotChests)
    requires forall x | x in depotChests && x.itemlist != [] :: x in queue
    ensures queue[0] in S && Searching(HeapOf(S), Roots(inbox, depotChests), [], queue[0], 0, queue[1..])
  {
    hide Searching;
    assert queue[0] in queue;
    SearchStarts(HeapOf(S), Roots(inbox, depotChests), queue);
  }

  // ----- Taking the goods away

  /** The pieces of an item that lies somewhere; none once it has been taken out. */
  ghost function HeldOf<T>(h: Heap<T>, x: T): nat
    requires x in h
  {
    if h[x].parent.Some? then h[x].count else 0
  }

  ghost function Held<T>(h: Heap<T>): map<T, int> {
    map x | x in h :: HeldOf(h, x)
  }

  ghost function Takes<T>(h: Heap<T>, x: T, n: nat): nat
    requires x in h
  {
    if h[x].kind.stackable then n else h[x].count
  }

  lemma RemovedHolds<T>(h: Heap<T>, c: T, x: T, n: nat)
    requires Valid(h) && c in h && x in h && x in h[c].contents
    requires h[x].kind.stackable ==> n <= h[x].count <= STACK_SIZE
    ensures var h1 := Removed(h, c, x, n);
            && h1.Keys == h.Keys && HeldOf(h1, x) == HeldOf(h, x) - Takes(h, x, n)
            && (forall y | y in h && y != x :: h1[y].parent == h[y].parent && h1[y].count == h[y].count)
            && (forall y | y in h :: h1[y].kind == h[y].kind)
  {
    hide Valid, Removed, CountLeft;
    HeldOutside(h, c, x);
    TakeKeeps(h, c, x, n);
    if h[x].kind.stackable {
      StackLeft(h[x].count, n);
    }
  }

  /** Takes `n` pieces of a stack, or a whole item, out of where it lies. */
  method InternalRemoveItem(item: Item, n: nat, ghost S: set<Item>) returns (ret: ReturnValue)
    requires Valid(HeapOf(S)) && item in S
    modifies S
    ensures Valid(HeapOf(S))
    ensures var h := old(HeapOf(S));
            ret == if h[item].parent == None || n == 0 || (h[item].kind.stackable && n > h[item].count)
                   then NotPossible else NoError
    ensures ret != NoError ==> HeapOf(S) == old(HeapOf(S))
    ensures ret == NoError ==>
              var h := old(HeapOf(S));
              h[item].parent.Some? && h[item].parent.value in S
                  && HeapOf(S) == Removed(h, h[item].parent.value, item, n)
  {
    hide Valid, Removed, HeapOf;
    HeapAt(S, item);
    if item.parent == null {
      return NotPossible;
    }
    var cylinder: Item := item.parent;
    ParentHolds(S, item);
    ret := cylinder.QueryRemove(item, n, Flags(false, false, false, true, false), S);
    if ret != NoError {
      return;
    }
    cylinder.RemoveThing(item, n, S);
  }

  lemma ParentHolds(S: set<Item>, item: Item)
    requires Valid(HeapOf(S)) && item in S && item.parent != null
    ensures item.parent in S && HeapOf(S)[item].parent == Some(item.parent) && item in HeapOf(S)[item.parent].contents
  {
    hide Forest, Balanced, ContentsLinked;
    assert HeapOf(S)[item] == item.Record();
  }

  /** Where the taking stands: the first `i` items are dealt with and `left` pieces are still to be taken. */
  ghost predicate Taking<T>(h0: Heap<T>, h: Heap<T>, xs: seq<T>, i: nat, taken: int) {
    && h.Keys == h0.Keys && i <= |xs|
    && (forall x | x in h0 && x !in xs[..i] :: h[x].parent == h0[x].parent && h[x].count == h0[x].count)
    && (forall x | x in h0 :: h[x].kind == h0[x].kind && HeldOf(h, x) <= HeldOf(h0, x))
    && Sum(Held(h), xs) == Sum(Held(h0), xs) - taken
  }

  lemma HeldChanges<T>(h: Heap<T>, h1: Heap<T>, xs: seq<T>, x: T)
    requires h1.Keys == h.Keys && x in h && x in xs && Distinct(xs)
    requires forall y | y in h && y != x :: h1[y].parent == h[y].parent && h1[y].count == h[y].count
    ensures Sum(Held(h1), xs) == Sum(Held(h), xs) + HeldOf(h1, x) - HeldOf(h, x)
  {
    assert Held(h1) == Held(h)[x := HeldOf(h1, x)];
    SumUpdate(Held(h), xs, x, HeldOf(h1, x));
  }

  lemma TakesOne<T>(h0: Heap<T>, h: Heap<T>, xs: seq<T>, i: nat, taken: int, c: T, n: nat)
    requires Taking(h0, h, xs, i, taken) && i < |xs| && Distinct(xs) && xs[i] in h
    requires Valid(h) && c in h && xs[i] in h[c].contents
    requires h[xs[i]].kind.stackable ==> n <= h[xs[i]].count <= STACK_SIZE
    ensures Taking(h0, Removed(h, c, xs[i], n), xs, i + 1, taken + Takes(h0, xs[i], n))
  {
    hide Valid, Removed, Sum;
    var x := xs[i];
    var h1 := Removed(h, c, x, n);
    assert xs[..i + 1] == xs[..i] + [x];
    assert x !in xs[..i];
    RemovedHolds(h, c, x, n);
    HeldChanges(h, h1, xs, x);
    assert Takes(h0, x, n) == Takes(h, x, n);
  }

  ghost predicate Listed<T>(h: Heap<T>, xs: seq<T>, stackable: bool) {
    && Distinct(xs)
    && forall x | x in xs ::
         x in h && h[x].parent.Some? && h[x].kind.stackable == stackable && 1 <= h[x].count <= STACK_SIZE
  }

  /** The next item still lies where it lay when the list was made. */
  lemma NextLies(h0: Heap<Item>, S: set<Item>, xs: seq<Item>, i: nat, taken: int, stackable: bool)
    requires Taking(h0, HeapOf(S), xs, i, taken) && Listed(h0, xs, stackable) && i < |xs| && Valid(HeapOf(S))
    ensures Distinct(xs) && xs[i] in S && xs[i] in h0
    ensures var x := xs[i];
            && HeapOf(S)[x].parent.Some? && HeapOf(S)[x].parent.value in S
               && x in HeapOf(S)[HeapOf(S)[x].parent.value].contents
            && x.count == h0[x].count && 1 <= x.count <= STACK_SIZE && x.kind.stackable == stackable
  {
    hide Forest, Balanced, ContentsLinked, Sum;
    assert xs[i] !in xs[..i];
    HeapAt(S, xs[i]);
  }

  lemma RestPieces<T>(h: Heap<T>, xs: seq<T>, i: nat)
    requires i < |xs| && xs[i] in h
    ensures Pieces(h, xs[i..]) == h[xs[i]].count + Pieces(h, xs[i + 1..])
    ensures Pieces(h, xs[i + 1..]) >= 0
  {
    assert xs[i..][1..] == xs[i + 1..];
    SumNonNegative(Counts(h), xs[i + 1..]);
  }

  lemma NoneTaken<T>(h: Heap<T>, xs: seq<T>)
    ensures Taking(h, h, xs, 0, 0) && xs[0..] == xs
    ensures forall taken :: Taking(h, h, xs, 0, taken) ==> taken == 0
  {
  }

  /**
   Takes `amount` pieces of a list that has enough: stack by stack, or every item when the goods do not stack.
   Exactly that much leaves the list, nothing else is touched, and nothing grows.
   */
  method TakeGoods(itemList: seq<Item>, stackable: bool, amount: nat, ghost S: set<Item>)
    requires Valid(HeapOf(S)) && Listed(HeapOf(S), itemList, stackable) && (forall x | x in itemList :: x in S)
    requires 0 < amount <= Pieces(HeapOf(S), itemList)
    requires !stackable ==> amount == |itemList| && forall x | x in itemList :: HeapOf(S)[x].count == 1
    modifies S
    ensures Valid(HeapOf(S))
    ensures exists done :: Taking(old(HeapOf(S)), HeapOf(S), itemList, done, amount)
  {
    hide Valid, HeapOf, Taking, Listed, Removed, Pieces;
    ghost var h0 := HeapOf(S);
    NoneTaken(h0, itemList);
    if stackable {
      var tmpAmount: nat := amount;
      var i := 0;
      while i < |itemList|
        invariant 0 <= i <= |itemList| && 0 < tmpAmount <= Pieces(h0, itemList[i..])
        invariant Valid(HeapOf(S)) && Taking(h0, HeapOf(S), itemList, i, amount - tmpAmount)
      {
        var item := itemList[i];
        NextLies(h0, S, itemList, i, amount - tmpAmount, stackable);
        RestPieces(h0, itemList, i);
        var removeCount := if tmpAmount < item.count then tmpAmount else item.count;
        HeapAt(S, item);
        TakesOne(h0, HeapOf(S), itemList, i, amount - tmpAmount, HeapOf(S)[item].parent.value, removeCount);
        StacksTake(h0, HeapOf(S), itemList, i, amount - tmpAmount, removeCount);
        tmpAmount := tmpAmount - removeCount;
        var ret := InternalRemoveItem(item, removeCount, S);
        i := i + 1;
        assert Taking(h0, HeapOf(S), itemList, i, amount - tmpAmount);
        if tmpAmount == 0 {
          assert amount - tmpAmount == amount;
          assert Taking(h0, HeapOf(S), itemList, i, amount);
          return;
        }
      }
      NothingLeft(h0, itemList);
      assert false;
    } else {
      for i := 0 to |itemList|
        invariant Valid(HeapOf(S)) && Taking(h0, HeapOf(S), itemList, i, i)
      {
        var item := itemList[i];
        NextLies(h0, S, itemList, i, i, stackable);
        HeapAt(S, item);
        TakesOne(h0, HeapOf(S), itemList, i, i, HeapOf(S)[item].parent.value, 1);
        SinglesTake(h0, HeapOf(S), itemList, i, i);
        var ret := InternalRemoveItem(item, item.count, S);
      }
    }
  }

  lemma NothingLeft<T>(h: Heap<T>, xs: seq<T>)
    ensures Pieces(h, xs[|xs|..]) == 0
  {
  }

  lemma StacksTake<T>(h0: Heap<T>, h: Heap<T>, xs: seq<T>, i: nat, taken: int, n: nat)
    requires Taking(h0, h, xs, i, taken) && Listed(h0, xs, true) && i < |xs|
    ensures xs[i] in h0 && Takes(h0, xs[i], n) == n
  {
  }

  lemma SinglesTake<T>(h0: Heap<T>, h: Heap<T>, xs: seq<T>, i: nat, taken: int)
    requires Taking(h0, h, xs, i, taken) && Listed(h0, xs, false) && i < |xs| && h0[xs[i]].count == 1
    ensures xs[i] in h0 && Takes(h0, xs[i], 1) == 1
  {
  }

  lemma GoodsLie<T>(h: Heap<T>, roots: set<T>, wanted: set<T>, x: T)
    requires Goods(h, roots, wanted, x)
    ensures x in h && h[x].parent.Some?
  {
    var r :| r in roots && x in Within(h, r);
    InsideCases(Parents(h), x, r);
  }

  /** What the search finds is what the taking asks for: of single pieces just as many as wanted. */
  lemma FoundIsListed<T>(h: Heap<T>, roots: set<T>, wanted: set<T>, xs: seq<T>, stackable: bool, amount: nat)
    requires Distinct(xs) && xs != [] && forall x | x in xs :: Goods(h, roots, wanted, x)
    requires Pieces(h, xs[..|xs| - 1]) < amount <= Pieces(h, xs)
    requires forall x | x in wanted && x in h :: h[x].kind.stackable == stackable && 1 <= h[x].count <= STACK_SIZE
    requires !stackable ==> forall x | x in wanted && x in h :: h[x].count == 1
    ensures Listed(h, xs, stackable)
    ensures !stackable ==> amount == |xs| && forall x | x in xs :: h[x].count == 1
  {
    forall x | x in xs ensures x in h && h[x].parent.Some? {
      GoodsLie(h, roots, wanted, x);
    }
    if !stackable {
      hide Goods;
      SinglePieces(h, xs);
      SinglePieces(h, xs[..|xs| - 1]);
    }
  }

  // ----- The goods as a number

  /** How many pieces of the goods there were in the heap `h0` lie somewhere in the heap `h`. */
  ghost function Remaining<T>(h0: Heap<T>, h: Heap<T>, roots: set<T>, wanted: set<T>): map<T, int>
    requires h.Keys == h0.Keys
  {
    map x | x in h0 && Goods(h0, roots, wanted, x) :: HeldOf(h, x)
  }

  /** All pieces of the goods of a ware in the depots and the inbox: the stock that the ledger keeps as a number. */
  ghost function Stock<T>(h: Heap<T>, roots: set<T>, wanted: set<T>): int {
    Total(Remaining(h, h, roots, wanted))
  }

  lemma RemainingNow<T>(h: Heap<T>, roots: set<T>, wanted: set<T>, xs: seq<T>)
    requires forall x | x in xs :: Goods(h, roots, wanted, x)
    ensures forall x | x in xs :: x in Remaining(h, h, roots, wanted)
    ensures Sum(Remaining(h, h, roots, wanted), xs) == Pieces(h, xs)
    ensures forall x | x in Remaining(h, h, roots, wanted) :: Remaining(h, h, roots, wanted)[x] >= 0
  {
    forall x | x in xs ensures x in h && h[x].parent.Some? {
      GoodsLie(h, roots, wanted, x);
    }
    hide Goods;
    SumAgree(Remaining(h, h, roots, wanted), Counts(h), xs);
  }

  /** A list of goods has no more pieces than the stock, and all of it when the list is complete. */
  lemma PiecesOfStock<T>(h: Heap<T>, roots: set<T>, wanted: set<T>, xs: seq<T>)
    requires Distinct(xs) && forall x | x in xs :: Goods(h, roots, wanted, x)
    ensures Pieces(h, xs) <= Stock(h, roots, wanted)
    ensures AllGoods(h, roots, wanted, xs) ==> Pieces(h, xs) == Stock(h, roots, wanted)
  {
    hide Goods, Sum, Total;
    var m := Remaining(h, h, roots, wanted);
    RemainingNow(h, roots, wanted, xs);
    TotalOfList(m, xs);
    TotalNonNegative(m - (set x | x in xs));
    if AllGoods(h, roots, wanted, xs) {
      assert m - (set x | x in xs) == map[];
      TotalOfNothing<T>();
    }
  }

  lemma TotalOfNothing<T>()
    ensures Total<T>(map[]) == 0
  {
  }

  /** Taking an amount from a list of goods leaves exactly that much less of the whole stock. */
  lemma TakenFromStock<T>(h0: Heap<T>, h: Heap<T>, roots: set<T>, wanted: set<T>, xs: seq<T>, done: nat, amount: nat)
    requires Distinct(xs) && (forall x | x in xs :: Goods(h0, roots, wanted, x)) && Taking(h0, h, xs, done, amount)
    ensures Total(Remaining(h0, h, roots, wanted)) == Stock(h0, roots, wanted) - amount
  {
    hide Goods, Sum, Total, Remaining, HeldOf, Held;
    var was, now := Remaining(h0, h0, roots, wanted), Remaining(h0, h, roots, wanted);
    TakingFacts(h0, h, xs, done, amount);
    hide Taking;
    RemainingIsHeld(h0, h0, roots, wanted, xs);
    RemainingIsHeld(h0, h, roots, wanted, xs);
    TotalOfList(was, xs);
    TotalOfList(now, xs);
    OthersRemain(h0, h, roots, wanted, xs);
  }

  lemma TakingFacts<T>(h0: Heap<T>, h: Heap<T>, xs: seq<T>, i: nat, taken: int)
    requires Taking(h0, h, xs, i, taken)
    ensures forall x | x in h0 && x !in xs :: HeldOf(h, x) == HeldOf(h0, x)
    ensures Sum(Held(h), xs) == Sum(Held(h0), xs) - taken
  {
    hide Sum, Held;
    assert forall x | x in xs[..i] :: x in xs;
  }

  lemma RemainingIsHeld<T>(h0: Heap<T>, h: Heap<T>, roots: set<T>, wanted: set<T>, xs: seq<T>)
    requires h.Keys == h0.Keys && forall x | x in xs :: Goods(h0, roots, wanted, x)
    ensures forall x | x in xs :: x in Remaining(h0, h, roots, wanted)
    ensures Sum(Remaining(h0, h, roots, wanted), xs) == Sum(Held(h), xs)
  {
    forall x | x in xs ensures x in h0 {
      GoodsLie(h0, roots, wanted, x);
    }
    hide Goods;
    SumAgree(Remaining(h0, h, roots, wanted), Held(h), xs);
  }

  lemma OthersRemain<T>(h0: Heap<T>, h: Heap<T>, roots: set<T>, wanted: set<T>, xs: seq<T>)
    requires h.Keys == h0.Keys && forall x | x in h0 && x !in xs :: HeldOf(h, x) == HeldOf(h0, x)
    ensures Remaining(h0, h0, roots, wanted) - (set x | x in xs) == Remaining(h0, h, roots, wanted) - (set x | x in xs)
  {
    hide Goods;
  }

  /** On the ledger that keeps the stock as a number, the taking is the change it makes for a ware. */
  lemma TakenOnTheLedger(p: MarketLedger.Purse, ware: MarketLedger.Ware, h0: Heap<Item>, h: Heap<Item>,
                         roots: set<Item>, wanted: set<Item>, amount: nat)
    requires h.Keys == h0.Keys && MarketLedger.Holds(p.stock, ware) == Stock(h0, roots, wanted)
    requires Total(Remaining(h0, h, roots, wanted)) == Stock(h0, roots, wanted) - amount
    ensures amount <= MarketLedger.Holds(p.stock, ware)
    ensures MarketLedger.Holds(MarketLedger.Stocked(p, ware, 0 - amount).stock, ware)
            == Total(Remaining(h0, h, roots, wanted))
  {
    forall x | x in Remaining(h0, h, roots, wanted) ensures Remaining(h0, h, roots, wanted)[x] >= 0 {
    }
    TotalNonNegative(Remaining(h0, h, roots, wanted));
  }

  lemma GoodsOf<T>(h: Heap<T>, roots: set<T>, wanted: set<T>, xs: seq<T>)
    requires AllGoods(h, roots, wanted, xs)
    ensures Distinct(xs) && forall x | x in xs :: Goods(h, roots, wanted, x)
  {
    hide Goods;
  }

  lemma TakingKeepsItems<T>(h0: Heap<T>, h: Heap<T>, xs: seq<T>, i: nat, taken: int)
    requires Taking(h0, h, xs, i, taken)
    ensures h.Keys == h0.Keys
  {
  }

  /** Takes the goods of an offer from a player: all or, exactly when there is not enough, nothing. */
  method DebitGoods(inbox: Item, depotChests: seq<Item>, wanted: set<Item>, stackable: bool, amount: nat,
                    ghost S: set<Item>)
    returns (ok: bool, ghost xs: seq<Item>)
    requires Valid(HeapOf(S)) && Distinct([inbox] + depotChests)
    requires inbox in S && (forall x | x in depotChests :: x in S) && Apart(HeapOf(S), Roots(inbox, depotChests))
    requires 0 < amount <= 64000 && wanted <= S
    requires forall x | x in wanted ::
               x.kind.stackable == stackable && 1 <= x.count <= STACK_SIZE && (!stackable ==> x.count == 1)
    modifies S
    ensures Valid(HeapOf(S))
    ensures ok <==> amount <= Stock(old(HeapOf(S)), Roots(inbox, depotChests), wanted)
    ensures !ok ==> HeapOf(S) == old(HeapOf(S))
    ensures ok ==> && (forall x | x in xs :: Goods(old(HeapOf(S)), Roots(inbox, depotChests), wanted, x))
                   && exists done :: Taking(old(HeapOf(S)), HeapOf(S), xs, done, amount)
    ensures ok ==> && HeapOf(S).Keys == old(HeapOf(S)).Keys
                   && Total(Remaining(old(HeapOf(S)), HeapOf(S), Roots(inbox, depotChests), wanted))
                      == Stock(old(HeapOf(S)), Roots(inbox, depotChests), wanted) - amount
  {
    hide Valid, HeapOf, Apart, Goods, Pieces, Taking, Listed, Distinct, AllGoods, Stock, Remaining;
    var itemList;
    ghost var h := HeapOf(S);
    forall x | x in wanted ensures x.count == HeapOf(S)[x].count && x.kind == HeapOf(S)[x].kind {
      HeapAt(S, x);
    }
    itemList, xs := GetMarketItemList(inbox, depotChests, wanted, amount, S);
    if itemList == [] {
      GoodsOf(h, Roots(inbox, depotChests), wanted, xs);
      PiecesOfStock(h, Roots(inbox, depotChests), wanted, xs);
      return false, xs;
    }
    PiecesOfStock(h, Roots(inbox, depotChests), wanted, itemList);
    FoundIsListed(HeapOf(S), Roots(inbox, depotChests), wanted, itemList, stackable, amount);
    TakeGoods(itemList, stackable, amount, S);
    ghost var done :| Taking(h, HeapOf(S), itemList, done, amount);
    TakenFromStock(h, HeapOf(S), Roots(inbox, depotChests), wanted, itemList, done, amount);
    TakingKeepsItems(h, HeapOf(S), itemList, done, amount);
    return true, itemList;
  }
}
