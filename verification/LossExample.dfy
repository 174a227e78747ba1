/** A move that loses items: the stack it merges into stands beyond the capacity of a paginated container. */
module LossExample {
  import opened Sums
  import opened Options
  import opened Ancestry
  import opened ItemHeap
  import opened CylinderQueries
  import opened Conservation
  import opened Items
  import opened MoveSteps
  import opened Movement

  const GOLD := ItemType(1, 0, true, false, 0, true, true, false, false, false)
  const SWORD := ItemType(2, 0, false, false, 0, true, true, false, false, false)
  const CHEST := ItemType(3, 0, false, false, 0, true, true, false, false, false)
  const NO_FLAGS := Flags(false, false, false, false, false)
  const COINS := Key(GOLD, 0)

  /** The five objects: a source, a chest, a stack of 80, a sword and a stack of 50. */
  datatype Cast<T> = Cast(source: T, chest: T, gold80: T, blade: T, gold50: T)
  {
    ghost predicate Differ() {
      && source != chest && source != gold80 && source != blade && source != gold50
      && chest != gold80 && chest != blade && chest != gold50
      && gold80 != blade && gold80 != gold50 && blade != gold50
    }
  }

  /** The source holds a stack of 80; the paginated chest of capacity 1 holds a sword and a stack of 50. */
  ghost function Chests<T>(c: Cast<T>): (h: Heap<T>)
    requires c.Differ()
    ensures h.Keys == {c.source, c.chest, c.gold80, c.blade, c.gold50}
    ensures h[c.source] == Rec(CHEST, 0, 1, 0, None, true, 8, true, false, [c.gold80], 0, 80)
    ensures h[c.chest] == Rec(CHEST, 0, 1, 0, None, true, 1, true, true, [c.blade, c.gold50], 0, 51)
    ensures h[c.gold80] == Rec(GOLD, 0, 80, 0, Some(c.source), false, 0, true, false, [], 0, 0)
    ensures h[c.blade] == Rec(SWORD, 0, 1, 0, Some(c.chest), false, 0, true, false, [], 0, 0)
    ensures h[c.gold50] == Rec(GOLD, 0, 50, 0, Some(c.chest), false, 0, true, false, [], 0, 0)
  {
    map[c.source := Rec(CHEST, 0, 1, 0, None, true, 8, true, false, [c.gold80], 0, 80),
        c.chest := Rec(CHEST, 0, 1, 0, None, true, 1, true, true, [c.blade, c.gold50], 0, 51),
        c.gold80 := Rec(GOLD, 0, 80, 0, Some(c.source), false, 0, true, false, [], 0, 0),
        c.blade := Rec(SWORD, 0, 1, 0, Some(c.chest), false, 0, true, false, [], 0, 0),
        c.gold50 := Rec(GOLD, 0, 50, 0, Some(c.chest), false, 0, true, false, [], 0, 0)]
  }

  lemma ChestsContents<T>(c: Cast<T>)
    requires c.Differ()
    ensures ContentsLinked(Chests(c))
  {
    hide Chests;
  }

  lemma ChestsParents<T>(c: Cast<T>)
    requires c.Differ()
    ensures ParentsLinked(Chests(c), {})
  {
    hide Chests;
  }

  lemma ChestsStacks<T>(c: Cast<T>)
    requires c.Differ()
    ensures StacksBounded(Chests(c))
  {
    hide Chests;
  }

  lemma ChestsForest<T>(c: Cast<T>)
    requires c.Differ()
    ensures Forest(Parents(Chests(c)))
  {
    hide Chests;
    var p := Parents(Chests(c));
    assert p[c.source] == None && p[c.chest] == None;
    assert p[c.gold80] == Some(c.source) && p[c.blade] == Some(c.chest) && p[c.gold50] == Some(c.chest);
    forall x | x in p
      ensures Up(p, Some(x), 2) == None
    {
      assert Up(p, Some(x), 2) == Up(p, p[x], 1);
      if p[x].Some? {
        assert Up(p, p[x], 1) == Up(p, None, 0);
      }
    }
    assert ChainsWithin(p, 2);
  }

  lemma ChestsBalanced<T>(c: Cast<T>)
    requires c.Differ()
    ensures Balanced(Chests(c))
  {
    hide Chests, Cong, Sum;
    var h := Chests(c);
    forall x | x in h
      ensures Cong(Defect(h, x), 0)
    {
      WeightlessContents(c, x);
      CongRefl(0);
    }
  }

  lemma WeightlessContents<T>(c: Cast<T>, x: T)
    requires c.Differ() && x in Chests(c)
    ensures Defect(Chests(c), x) == 0
  {
    hide Chests, Sum;
    var h := Chests(c);
    forall y | y in h[x].contents
      ensures Value(Weights(h), y) == 0
    {
    }
    ZeroSum(Weights(h), h[x].contents);
  }

  lemma ChestsValid<T>(c: Cast<T>)
    requires c.Differ()
    ensures Valid(Chests(c)) && StacksBounded(Chests(c)) && ContentsKnown(Chests(c))
  {
    hide Chests, Balanced, Forest, ParentsLinked, ContentsLinked, StacksBounded, ContentsKnown;
    ChestsContents(c);
    ChestsParents(c);
    ChestsForest(c);
    ChestsBalanced(c);
    ChestsStacks(c);
    KnownContents(Chests(c));
  }

  /** Asked for any place, the chest answers with the stack of 50, at a slot beyond its capacity. */
  lemma ChestsAnswer<T>(c: Cast<T>)
    requires c.Differ() && ContentsKnown(Chests(c))
    ensures Resolve(Chests(c), c.chest, INDEX_WHEREEVER, c.gold80, NO_FLAGS, 0) == Answer(c.chest, 1, Some(c.gold50))
  {
    hide Chests;
    var h := Chests(c);
    var xs := h[c.chest].contents;
    assert xs[0] == c.blade && xs[1] == c.gold50;
    assert Mergeable(h, xs[1], c.gold80) && !Mergeable(h, xs[0], c.gold80);
    assert FirstRoom(h, xs, c.gold80, 0) == FirstRoom(h, xs, c.gold80, 1) == 1;
  }

  lemma ChestsOpen<T>(c: Cast<T>)
    requires c.Differ()
    ensures CanAdd(Chests(c), c.chest, c.gold80, 1, NO_FLAGS) == NoError
  {
    hide Chests, Inside;
    InsideCases(Parents(Chests(c)), c.chest, c.gold80);
  }

  lemma ChestsCounts<T>(c: Cast<T>)
    requires c.Differ()
    ensures CountIn(Chests(c), c.source, COINS) == 80 && CountIn(Chests(c), c.chest, COINS) == 50
  {
    hide Chests;
    var h := Chests(c);
    var counts := KeyCounts(h, COINS);
    assert Sum(counts, [c.gold80]) == 80 + Sum(counts, [c.gold80][1..]);
    assert [c.blade, c.gold50][1..] == [c.gold50] && [c.gold50][1..] == [];
    assert Sum(counts, [c.blade, c.gold50]) == 0 + Sum(counts, [c.gold50]);
  }

  /**
   Moving the stack of 80 to the chest goes through in full, and of its pieces only 50 find room on the stack of 50.
   */
  lemma MoveCanLose<T>(c: Cast<T>)
    requires c.Differ()
    ensures Valid(Chests(c)) && StacksBounded(Chests(c)) && ContentsKnown(Chests(c))
    ensures var a := Resolve(Chests(c), c.chest, INDEX_WHEREEVER, c.gold80, NO_FLAGS, 0);
            && a == Answer(c.chest, 1, Some(c.gold50))
            && GoesThrough(Chests(c), c.source, a, c.gold80, 80, NO_FLAGS, None)
            && Told(Chests(c), c.source, a, c.gold80, 80, NO_FLAGS, None) == NoError
            && Amount(Chests(c), a, c.gold80, 80, NO_FLAGS) == 80
            && Lost(Chests(c), c.chest, c.gold80, 80, a.into, a.index) == 30
  {
    hide Chests, Inside, Valid, StacksBounded, ContentsKnown, Resolve, CanAdd;
    ChestsValid(c);
    ChestsAnswer(c);
    ChestsOpen(c);
  }

  // ----- The same on objects

  method MakeChests() returns (source: Item, chest: Item, gold80: Item, ghost c: Cast<Item>, ghost S: set<Item>)
    ensures c.Differ() && S == {c.source, c.chest, c.gold80, c.blade, c.gold50} && fresh(S)
    ensures source == c.source && chest == c.chest && gold80 == c.gold80 && chest.isContainer
    ensures HeapOf(S) == Chests(c)
  {
    hide Chests, HeapOf, Item.Record, Item.Above, Optional;
    source := new Item(CHEST, 0, 1, true, 8, true, false);
    chest := new Item(CHEST, 0, 1, true, 1, true, true);
    gold80 := PutNew(GOLD, 80, source);
    var blade := PutNew(SWORD, 1, chest);
    var gold50 := PutNew(GOLD, 50, chest);
    Fill(source, 8, false, [gold80], 80);
    Fill(chest, 1, true, [blade, gold50], 51);
    c, S := Cast(source, chest, gold80, blade, gold50), {source, chest, gold80, blade, gold50};
    CastIsChests(c, S);
  }

  /** Makes the five objects and moves the stack: the caller is told that all went well, and 30 pieces are gone. */
  method LoseThirty() returns (ret: ReturnValue, ghost c: Cast<Item>, ghost h: Heap<Item>, ghost h': Heap<Item>)
    ensures c.Differ() && h == Chests(c) && Valid(h) && Valid(h') && h.Keys <= h'.Keys
    ensures ret == NoError
    ensures CountIn(h, c.source, COINS) == 80 && CountIn(h, c.chest, COINS) == 50
    ensures CountIn(h', c.source, COINS) == 0 && CountIn(h', c.chest, COINS) == 100
  {
    hide Valid, StacksBounded, ContentsKnown, Chests, HeapOf, CountIn, Resolve, GoesThrough, Told, Amount, Lost, Moved,
         Granted;
    var source, chest, gold80;
    ghost var S, S', m;
    source, chest, gold80, c, S := MakeChests();
    h := HeapOf(S);
    MoveCanLose(c);
    ChestsCounts(c);
    ret, S', m := InternalMoveItem(source, chest, INDEX_WHEREEVER, gold80, 80, NO_FLAGS, null, S);
    h' := HeapOf(S');
    MovedCounts(h, h', c);
  }

  method PutNew(kind: ItemType, count: nat, box: Item) returns (x: Item)
    ensures fresh(x) && x.Record() == Rec(kind, 0, count, 0, Some(box), false, 0, true, false, [], 0, 0)
  {
    x := new Item(kind, 0, count, false, 0, true, false);
    x.parent := box;
  }

  method Fill(box: Item, capacity: nat, pagination: bool, items: seq<Item>, ammo: Word)
    requires box.kind == CHEST && box.attrs == 0 && box.count == 1 && box.subType == 0 && box.parent == null
    requires box.isContainer && box.capacity == capacity && box.unlocked && box.pagination == pagination
    requires box.totalWeight == 0
    modifies box`itemlist, box`ammoCount
    ensures box.Record() == Rec(CHEST, 0, 1, 0, None, true, capacity, true, pagination, items, 0, ammo)
  {
    box.itemlist, box.ammoCount := items, ammo;
  }

  lemma CastIsChests(c: Cast<Item>, S: set<Item>)
    requires S == {c.source, c.chest, c.gold80, c.blade, c.gold50} && c.Differ()
    requires c.source.Record() == Rec(CHEST, 0, 1, 0, None, true, 8, true, false, [c.gold80], 0, 80)
    requires c.chest.Record() == Rec(CHEST, 0, 1, 0, None, true, 1, true, true, [c.blade, c.gold50], 0, 51)
    requires c.gold80.Record() == Rec(GOLD, 0, 80, 0, Some(c.source), false, 0, true, false, [], 0, 0)
    requires c.blade.Record() == Rec(SWORD, 0, 1, 0, Some(c.chest), false, 0, true, false, [], 0, 0)
    requires c.gold50.Record() == Rec(GOLD, 0, 50, 0, Some(c.chest), false, 0, true, false, [], 0, 0)
    ensures HeapOf(S) == Chests(c)
  {
  }

  lemma MovedCounts<T>(h: Heap<T>, h': Heap<T>, c: Cast<T>)
    requires c.Differ() && h == Chests(c) && CountIn(h, c.source, COINS) == 80 && CountIn(h, c.chest, COINS) == 50
    requires Moved(h, h', c.source, c.chest, c.gold80, 80, Some(c.gold50), 1)
    requires Lost(h, c.chest, c.gold80, 80, Some(c.gold50), 1) == 30
    ensures h.Keys <= h'.Keys && Valid(h') && CountIn(h', c.source, COINS) == 0 && CountIn(h', c.chest, COINS) == 100
  {
    hide Chests, Valid, StacksBounded, CountIn, TakenAndMerged, RestInFront, Lost, Merged;
    assert h[c.gold80].GetKey() == COINS;
  }
}
