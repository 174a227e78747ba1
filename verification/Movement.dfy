/** Moving an item from one container to another. */
module Movement {
  import opened Sums
  import opened Options
  import opened Ancestry
  import opened ItemHeap
  import opened CylinderQueries
  import opened Conservation
  import opened Items
  import opened MoveSteps
  import opened MoveLaws

  const MAP_MAX_LAYERS: nat := 16

  /** The pieces of `m` that fit on the stack `into`. */
  ghost function Merged<T>(h: Heap<T>, item: T, m: nat, into: Option<T>): (n: nat)
    requires item in h && (into.Some? ==> into.value in h)
    ensures n <= m
  {
    if into.Some? && h[item].kind.stackable && h[into.value].GetKey() == h[item].GetKey()
       && h[into.value].count <= STACK_SIZE
    then (if STACK_SIZE - h[into.value].count < m then STACK_SIZE - h[into.value].count else m)
    else 0
  }

  /** The pieces that vanish: those left after merging, when the slot asked for lies beyond the capacity. */
  ghost function Lost<T>(h: Heap<T>, dest: T, item: T, m: nat, into: Option<T>, index: int): int
    requires item in h && dest in h && (into.Some? ==> into.value in h)
  {
    if index >= h[dest].capacity then TakenFrom(h, item, m) - Merged(h, item, m, into) else 0
  }

  /** What the mutating part of a move needs from the queries before it. */
  ghost predicate MayTransfer<T>(h: Heap<T>, from: T, dest: T, item: T, m: nat, into: Option<T>) {
    && Valid(h) && StacksBounded(h) && from in h && dest in h && item in h && h[dest].isContainer
    && item in h[from].contents && !Inside(Parents(h), dest, item)
    && (h[item].kind.stackable ==> 0 < m <= h[item].count)
    && (into.Some? ==> into.value in h && into.value in h[dest].contents && into.value != item)
  }

  /**
   What is taken away and merged: the item keeps the rest of a stack or lies nowhere, the stack merged with grows, and
   of no other item anything changes but the lists and caches.
   */
  ghost predicate TakenAndMerged<T>(h: Heap<T>, h': Heap<T>, item: T, m: nat, into: Option<T>)
    requires item in h && (into.Some? ==> into.value in h)
  {
    && h.Keys <= h'.Keys
    && (forall x | x in h ::
          && h'[x].kind == h[x].kind && h'[x].attrs == h[x].attrs
          && h'[x].isContainer == h[x].isContainer && h'[x].capacity == h[x].capacity
          && h'[x].unlocked == h[x].unlocked && h'[x].pagination == h[x].pagination
          && (x != item ==> h'[x].parent == h[x].parent)
          && (x != item && Some(x) != into ==> h'[x].count == h[x].count))
    && (h[item].kind.stackable ==>
          if m < h[item].count then h'[item].count == h[item].count - m && h'[item].parent == h[item].parent
          else h'[item].parent == None)
    && (into.Some? ==> h'[into.value].count == h[into.value].count + Merged(h, item, m, into))
  }

  /** The list of the source after taking. */
  ghost function TakenList<T>(h: Heap<T>, from: T, item: T, m: nat): seq<T>
    requires from in h && item in h
  {
    if h[item].kind.stackable && m < h[item].count then h[from].contents else Minus(h[from].contents, item)
  }

  /**
   The lists after a move: shorter at the source by the item if it left, longer at the destination by what is placed.
   */
  ghost predicate ListsAt<T>(h: Heap<T>, h': Heap<T>, from: T, dest: T, item: T, m: nat, placed: bool)
    requires from in h && dest in h && item in h
  {
    var left := TakenList(h, from, item, m);
    var base := if from == dest then left else h[dest].contents;
    && h.Keys <= h'.Keys && (forall x | x in h && x != from && x != dest :: h'[x].contents == h[x].contents)
    && (from != dest ==> h'[from].contents == left)
    && if placed then h'[dest].contents != [] && h'[dest].contents[1..] == base else h'[dest].contents == base
  }

  /** What did not merge lies in front in the destination: the item itself, or a new stack of its kind. */
  ghost predicate RestInFront<T>(h: Heap<T>, h': Heap<T>, dest: T, item: T, m: nat, into: Option<T>)
    requires item in h && (into.Some? ==> into.value in h)
  {
    && dest in h' && h'[dest].contents != []
    && var r := h'[dest].contents[0];
    && r in h' && h'[r].GetKey() == h[item].GetKey() && h'[r].parent == Some(dest)
    && h'[r].count == TakenFrom(h, item, m) - Merged(h, item, m, into)
    && if h[item].kind.stackable then r !in h else r == item
  }

  /** Whether there is a rest to be put down, at an index where it is not dropped. */
  ghost predicate Places<T>(h: Heap<T>, dest: T, item: T, m: nat, into: Option<T>, index: int)
    requires item in h && dest in h && (into.Some? ==> into.value in h)
  {
    index < h[dest].capacity && (h[item].kind.stackable ==> m > Merged(h, item, m, into))
  }

  /** What a move of `m` pieces, of which some merge into `into`, has done. */
  ghost predicate Moved<T>(h: Heap<T>, h': Heap<T>, from: T, dest: T, item: T, m: nat, into: Option<T>, index: int)
    requires item in h && dest in h && (into.Some? ==> into.value in h)
  {
    var out := TakenFrom(h, item, m);
    && Valid(h') && StacksBounded(h')
    && Transferred(h, h', from, dest, h[item].GetKey(), out, out - Lost(h, dest, item, m, into, index))
    && TakenAndMerged(h, h', item, m, into)
    && from in h && ListsAt(h, h', from, dest, item, m, Places(h, dest, item, m, into, index))
    && (Places(h, dest, item, m, into, index) ==> RestInFront(h, h', dest, item, m, into))
    && forall x | x in h ::
         |h'[x].contents| <= |h[x].contents|
                             + (if x == dest && (h[item].kind.stackable ==> m > Merged(h, item, m, into)) then 1 else 0)
  }

  // ----- The steps, as heaps

  /** After the pieces are taken and the stack they merge into is filled. */
  ghost predicate AfterMerge<T>(h: Heap<T>, h2: Heap<T>, from: T, dest: T, item: T, m: nat, into: Option<T>)
    requires item in h && (into.Some? ==> into.value in h)
  {
    && h2.Keys == h.Keys && Valid(h2) && StacksBounded(h2) && dest in h2
    && Transferred(h, h2, from, dest, h[item].GetKey(), TakenFrom(h, item, m), Merged(h, item, m, into))
    && h2[item].kind == h[item].kind && h2[item].attrs == h[item].attrs
    && dest in h && h2[dest].isContainer == h[dest].isContainer && h2[dest].capacity == h[dest].capacity
    && (!h[item].kind.stackable ==> h2[item].parent == None && h2[item].count == h[item].count)
    && !Inside(Parents(h2), dest, item) && TakenAndMerged(h, h2, item, m, into)
    && from in h && ListsAt(h, h2, from, dest, item, m, false)
    && forall x | x in h :: |h2[x].contents| <= |h[x].contents|
  }

  lemma TakeThenMerge<T>(h: Heap<T>, from: T, dest: T, item: T, m: nat, into: Option<T>)
    requires MayTransfer(h, from, dest, item, m, into) && Valid(Removed(h, from, item, m))
    ensures var h1 := Removed(h, from, item, m);
            && h1.Keys == h.Keys
            && (into.Some? ==> h1[into.value].GetKey() == h[into.value].GetKey()
                               && h1[into.value].count == h[into.value].count
                               && into.value in h1[dest].contents)
            && (Merged(h, item, m, into) == 0 ==> AfterMerge(h, h1, from, dest, item, m, into))
  {
    hide Valid, StacksBounded, Inside, Removed, CountsMove, Transferred, Kept;
    assert into.Some? ==> into.value in h;
    TakeFacts(h, from, dest, item, m, into);
    if Merged(h, item, m, into) == 0 {
      TakenStage(h, from, dest, item, m);
      NothingMerged(h, Removed(h, from, item, m), item, m, into);
      hide TakenAndMerged, ListsAt;
      TakeCounts(h, from, item, m);
      MoveIsTransfer(h, Removed(h, from, item, m), from, dest, h[item].GetKey(), TakenFrom(h, item, m));
    }
  }

  lemma MoveIsTransfer<T>(h: Heap<T>, h1: Heap<T>, from: T, dest: T, k: Key, out: int)
    requires CountsMove(h, h1, from, k, 0 - out)
    ensures Transferred(h, h1, from, dest, k, out, 0)
  {
    hide CountIn;
  }

  lemma TakeFacts<T>(h: Heap<T>, from: T, dest: T, item: T, m: nat, into: Option<T>)
    requires MayTransfer(h, from, dest, item, m, into)
    ensures var h1 := Removed(h, from, item, m);
            && h1.Keys == h.Keys && StacksBounded(h1)
            && h1[item].kind == h[item].kind && h1[item].attrs == h[item].attrs
            && h1[dest].isContainer == h[dest].isContainer && h1[dest].capacity == h[dest].capacity
            && (!h[item].kind.stackable ==> h1[item].parent == None && h1[item].count == h[item].count)
            && !Inside(Parents(h1), dest, item)
            && (forall x | x in h :: |h1[x].contents| <= |h[x].contents|)
            && (into.Some? ==> h1[into.value].GetKey() == h[into.value].GetKey()
                               && h1[into.value].count == h[into.value].count
                               && into.value in h1[dest].contents && h1[into.value].parent == h[into.value].parent)
            && (forall x | x in h && x != from :: h1[x].contents == h[x].contents)
            && (h[item].kind.stackable ==>
                  if m < h[item].count then h1[item].count == h[item].count - m && h1[item].parent == h[item].parent
                  else h1[item].parent == None)
  {
    hide Valid, Inside, Removed, CountLeft;
    TakeKeeps(h, from, item, m);
    TakenRest(h, from, item, m);
    hide StacksBounded;
    TakeKeepsStacks(h, from, item, m);
    TakeKeepsOutside(h, Removed(h, from, item, m), from, item, dest);
  }

  /** The lists and counts once the pieces are taken. */
  lemma TakenStage<T>(h: Heap<T>, from: T, dest: T, item: T, m: nat)
    requires MayTransfer(h, from, dest, item, m, None)
    ensures var h1 := Removed(h, from, item, m);
            TakenAndMerged(h, h1, item, m, None) && ListsAt(h, h1, from, dest, item, m, false)
  {
    hide Valid, Inside, Removed, CountLeft, Minus;
    TakeKeeps(h, from, item, m);
    TakenRest(h, from, item, m);
    hide StacksBounded;
  }

  /** The stage is the same seen from a stack that nothing merges with. */
  lemma NothingMerged<T>(h: Heap<T>, h1: Heap<T>, item: T, m: nat, into: Option<T>)
    requires item in h && (into.Some? ==> into.value in h && into.value != item)
    requires TakenAndMerged(h, h1, item, m, None) && Merged(h, item, m, into) == 0
    ensures TakenAndMerged(h, h1, item, m, into)
  {
    hide Merged;
  }

  lemma TakenRest<T>(h: Heap<T>, from: T, item: T, m: nat)
    requires Valid(h) && StacksBounded(h) && from in h && item in h && item in h[from].contents
    ensures h[item].kind.stackable && m <= h[item].count ==> CountLeft(h[item].count, m) == h[item].count - m
  {
    hide Forest, Balanced, ParentsLinked;
    HeldOutside(h, from, item);
    if h[item].kind.stackable && m <= h[item].count {
      StackLeft(h[item].count, m);
    }
  }

  lemma MergeAfterTake<T>(h: Heap<T>, h1: Heap<T>, from: T, dest: T, item: T, m: nat, into: T)
    requires MayTransfer(h, from, dest, item, m, Some(into))
    requires h1 == Removed(h, from, item, m) && Valid(h1) && into in h1
    requires h[item].kind.stackable && h[into].GetKey() == h[item].GetKey() && h[into].count <= STACK_SIZE
    ensures AfterMerge(h, Updated(h1, dest, into, h1[into].kind, h1[into].count + Merged(h, item, m, Some(into))),
                       from, dest, item, m, Some(into))
  {
    hide Valid, StacksBounded, Inside, Removed, CountsMove, Transferred, Updated, TakenAndMerged, ListsAt, Kept;
    var n := Merged(h, item, m, Some(into));
    TakeFacts(h, from, dest, item, m, Some(into));
    assert StacksBounded(h1);
    TakenStage(h, from, dest, item, m);
    MergeStep(h1, dest, into, n);
    UpdatedValid(h1, dest, into, h1[into].kind, h1[into].count + n);
    TakeCounts(h, from, item, m);
    MoveIsTransfer(h, h1, from, dest, h[item].GetKey(), m);
    var h2 := Updated(h1, dest, into, h1[into].kind, h1[into].count + n);
    FilledStack(h, h1, h2, from, dest, item, m, into);
    Compose(h, h1, h2, from, dest, h[item].GetKey(), m, 0, n);
  }

  /** Filling a stack after the pieces are taken leaves everything else as it is. */
  lemma FilledStack<T>(h: Heap<T>, h1: Heap<T>, h2: Heap<T>, from: T, dest: T, item: T, m: nat, into: T)
    requires item in h && into in h && into != item && dest in h && from in h && h1.Keys == h.Keys && h2.Keys == h.Keys
    requires TakenAndMerged(h, h1, item, m, None) && ListsAt(h, h1, from, dest, item, m, false)
    requires h[item].kind.stackable && forall x | x in h :: |h1[x].contents| <= |h[x].contents|
    requires Kept(h1, h2, dest, into) && Parents(h2) == Parents(h1) && h2[dest].contents == h1[dest].contents
    requires h2[into].count == h1[into].count + Merged(h, item, m, Some(into))
    requires forall x | x in h1 && x != into :: h2[x].count == h1[x].count
    ensures TakenAndMerged(h, h2, item, m, Some(into)) && ListsAt(h, h2, from, dest, item, m, false)
    ensures forall x | x in h :: |h2[x].contents| <= |h[x].contents|
    ensures h2[item].kind == h1[item].kind && h2[item].attrs == h1[item].attrs
    ensures h2[dest].isContainer == h1[dest].isContainer && h2[dest].capacity == h1[dest].capacity
  {
    hide Merged, TakenList;
    assert forall x | x in h :: Parents(h2)[x] == h2[x].parent && Parents(h1)[x] == h1[x].parent;
    assert forall x | x in h :: h2[x].contents == h1[x].contents;
  }

  lemma UpdatedValid<T>(h: Heap<T>, c: T, item: T, kind: ItemType, n: nat)
    requires Valid(h) && c in h && item in h && item in h[c].contents
    ensures Valid(Updated(h, c, item, kind, n))
  {
    hide Valid, Retype;
    HeldOutside(h, c, item);
    RetypeKeepsValid(h, c, item, kind, CountAfter(kind, h[item].count, n), SubTypeAfter(kind, h[item].subType, n),
                     n - h[item].count);
  }

  /** Everything merged: the move is complete. */
  lemma NothingLeft<T>(h: Heap<T>, h2: Heap<T>, from: T, dest: T, item: T, m: nat, into: Option<T>, index: int)
    requires item in h && dest in h && (into.Some? ==> into.value in h)
    requires AfterMerge(h, h2, from, dest, item, m, into)
    requires h[item].kind.stackable && Merged(h, item, m, into) == m
    ensures Moved(h, h2, from, dest, item, m, into, index)
  {
    hide Valid, StacksBounded, Transferred, Inside, Merged;
  }

  /** The rest lies outside every container: it is the item itself or a copy made for it. */
  ghost predicate RestReady<T>(h: Heap<T>, h3: Heap<T>, from: T, dest: T, item: T, m: nat, into: Option<T>, rest: T)
    requires item in h && (into.Some? ==> into.value in h)
  {
    && h.Keys <= h3.Keys && Valid(h3) && StacksBounded(h3) && dest in h && rest in h3
    && Transferred(h, h3, from, dest, h[item].GetKey(), TakenFrom(h, item, m), Merged(h, item, m, into))
    && h3[rest].GetKey() == h[item].GetKey() && h3[rest].parent == None
    && h3[rest].count == TakenFrom(h, item, m) - Merged(h, item, m, into)
    && (h[item].kind.stackable ==> h3[rest].count <= STACK_SIZE)
    && !Inside(Parents(h3), dest, rest) && h3[dest].isContainer && h3[dest].capacity == h[dest].capacity
    && TakenAndMerged(h, h3, item, m, into) && from in h && ListsAt(h, h3, from, dest, item, m, false)
       && (if h[item].kind.stackable then rest !in h else rest == item)
    && forall x | x in h :: |h3[x].contents| <= |h[x].contents|
  }

  lemma WholeItemReady<T>(h: Heap<T>, h2: Heap<T>, from: T, dest: T, item: T, m: nat, into: Option<T>)
    requires MayTransfer(h, from, dest, item, m, into)
    requires AfterMerge(h, h2, from, dest, item, m, into) && !h[item].kind.stackable
    ensures RestReady(h, h2, from, dest, item, m, into, item)
  {
    hide Valid, StacksBounded, Transferred, Inside;
  }

  lemma CopyReady<T>(h: Heap<T>, h2: Heap<T>, from: T, dest: T, item: T, m: nat, into: Option<T>, copy: T, r: Rec<T>)
    requires MayTransfer(h, from, dest, item, m, into)
    requires AfterMerge(h, h2, from, dest, item, m, into) && h[item].kind.stackable
    requires copy !in h && IsLoose(r) && !r.isContainer && r.GetKey() == h[item].GetKey()
    requires r.count == m - Merged(h, item, m, into) && h[item].count <= STACK_SIZE && !h[item].kind.fluid
    ensures RestReady(h, h2[copy := r], from, dest, item, m, into, copy)
  {
    hide Valid, StacksBounded, Transferred, Inside, CountsMove, Merged;
    CopyStep(h2, copy, r, dest, h[item].GetKey());
    Compose(h, h2, h2[copy := r], from, dest, h[item].GetKey(), m, Merged(h, item, m, into), 0);
  }

  lemma PutRest<T>(h: Heap<T>, h3: Heap<T>, from: T, dest: T, item: T, m: nat, into: Option<T>, rest: T, index: int)
    requires item in h && dest in h && (into.Some? ==> into.value in h)
    requires RestReady(h, h3, from, dest, item, m, into, rest)
    requires h[item].kind.stackable ==> m > Merged(h, item, m, into)
    ensures index >= h[dest].capacity ==> Moved(h, h3, from, dest, item, m, into, index)
    ensures index < h[dest].capacity ==> Moved(h, Add(h3, dest, rest, true), from, dest, item, m, into, index)
  {
    hide Valid, StacksBounded, Transferred, Inside, CountsMove, Merged, Add, TakenAndMerged, RestInFront, ListsAt, Kept;
    if index < h[dest].capacity {
      PutStep(h3, dest, rest);
      AddKeepsValid(h3, dest, rest, true);
      PutKeepsRest(h, h3, Add(h3, dest, rest, true), from, dest, item, m, into, rest);
      PutKeepsLists(h, h3, Add(h3, dest, rest, true), dest, rest);
      Compose(h, h3, Add(h3, dest, rest, true), from, dest, h[item].GetKey(), TakenFrom(h, item, m),
              Merged(h, item, m, into), h3[rest].count);
    }
  }

  lemma PutKeepsLists<T>(h: Heap<T>, h3: Heap<T>, h4: Heap<T>, dest: T, rest: T)
    requires h.Keys <= h3.Keys && h4.Keys == h3.Keys && Kept(h3, h4, dest, rest) && dest in h
    requires h4[dest].contents == [rest] + h3[dest].contents
    requires forall x | x in h :: |h3[x].contents| <= |h[x].contents|
    ensures forall x | x in h :: |h4[x].contents| <= |h[x].contents| + (if x == dest then 1 else 0)
  {
  }

  /** Putting the rest down in front leaves what was taken and merged as it is. */
  lemma PutKeepsRest<T>(h: Heap<T>, h3: Heap<T>, h4: Heap<T>, from: T, dest: T, item: T, m: nat, into: Option<T>,
                        rest: T)
    requires item in h && dest in h && from in h && (into.Some? ==> into.value in h)
    requires TakenAndMerged(h, h3, item, m, into) && ListsAt(h, h3, from, dest, item, m, false) && rest in h3
    requires if h[item].kind.stackable then rest !in h else rest == item
    requires h3[rest].GetKey() == h[item].GetKey() && h3[rest].count == TakenFrom(h, item, m) - Merged(h, item, m, into)
    requires h4.Keys == h3.Keys && Kept(h3, h4, dest, rest) && h4[dest].contents == [rest] + h3[dest].contents
    requires h4[rest].parent == Some(dest) && forall y | y in h3 :: h4[y].count == h3[y].count
    ensures TakenAndMerged(h, h4, item, m, into) && RestInFront(h, h4, dest, item, m, into)
    ensures ListsAt(h, h4, from, dest, item, m, true)
  {
    hide Merged, TakenList, ListsAt;
    MergedIsStack(h, item, m, into);
    PutKeepsOthers(h, h3, h4, dest, item, m, into, rest);
    PutInFront(h, h3, h4, from, dest, item, m, rest);
    hide TakenAndMerged;
  }

  lemma PutKeepsOthers<T>(h: Heap<T>, h3: Heap<T>, h4: Heap<T>, dest: T, item: T, m: nat, into: Option<T>, rest: T)
    requires item in h && (into.Some? ==> into.value in h) && TakenAndMerged(h, h3, item, m, into) && rest in h3
    requires if h[item].kind.stackable then rest !in h else rest == item
    requires h4.Keys == h3.Keys && Kept(h3, h4, dest, rest) && forall y | y in h3 :: h4[y].count == h3[y].count
    ensures TakenAndMerged(h, h4, item, m, into)
  {
    hide Merged;
  }

  lemma PutInFront<T>(h: Heap<T>, h3: Heap<T>, h4: Heap<T>, from: T, dest: T, item: T, m: nat, rest: T)
    requires item in h && dest in h && from in h && ListsAt(h, h3, from, dest, item, m, false)
    requires h4.Keys == h3.Keys && Kept(h3, h4, dest, rest) && h4[dest].contents == [rest] + h3[dest].contents
    ensures ListsAt(h, h4, from, dest, item, m, true)
  {
    hide TakenList;
    assert h4[dest].contents[1..] == h3[dest].contents;
  }

  lemma MergedIsStack<T>(h: Heap<T>, item: T, m: nat, into: Option<T>)
    requires item in h && (into.Some? ==> into.value in h)
    ensures !h[item].kind.stackable ==> Merged(h, item, m, into) == 0
  {
  }

  // ----- The steps, on the objects

  lemma HeapWithNew(S: set<Item>, x: Item)
    requires x !in S
    ensures HeapOf(S + {x}) == HeapOf(S)[x := x.Record()]
  {
  }

  /** A copy of an item with another count, lying nowhere. */
  method CloneWith(item: Item, newCount: nat, ghost S: set<Item>) returns (copy: Item)
    requires !item.isContainer
    ensures fresh(copy) && IsLoose(copy.Record()) && !copy.Record().isContainer && copy.GetKey() == old(item.GetKey())
    ensures copy.count == Byte(newCount) && copy.Record().GetKey() == copy.GetKey() && copy.Record().count == copy.count
    ensures HeapOf(S) == old(HeapOf(S))
  {
    copy := new Item(item.kind, item.attrs, item.count, false, 0, true, false);
    copy.count := Byte(newCount);
  }

  lemma EqualsInHeap(S: set<Item>, item: Item, other: Item?)
    requires item in S && (other != null ==> other in S)
    ensures item in HeapOf(S) && HeapOf(S)[item].kind == item.kind && HeapOf(S)[item].GetKey() == item.GetKey()
    ensures HeapOf(S)[item].isContainer == item.isContainer && HeapOf(S)[item].attrs == item.attrs
    ensures other != null ==>
              other in HeapOf(S) && HeapOf(S)[other].count == other.count && HeapOf(S)[other].kind == other.kind
    ensures item.Equals(other) <==> other != null && HeapOf(S)[other].GetKey() == HeapOf(S)[item].GetKey()
  {
  }

  /** Fills the stack `toItem` of the destination, when it is of the kind of the item taken. */
  method MergeStack(ghost h: Heap<Item>, ghost from: Item, dest: Item, item: Item, m: nat, toItem: Item?,
                    ghost S: set<Item>)
    returns (n: nat)
    requires dest in S && item in S && (toItem != null ==> toItem in S)
    requires MayTransfer(h, from, dest, item, m, Optional(toItem)) && from in h && item in h
    requires HeapOf(S) == Removed(h, from, item, m) && Valid(HeapOf(S))
    modifies S
    ensures (toItem != null ==> toItem in h) && n == Merged(h, item, m, Optional(toItem))
    ensures AfterMerge(h, HeapOf(S), from, dest, item, m, Optional(toItem)) && item.kind == old(item.kind)
  {
    hide *;
    ghost var into := Optional(toItem);
    TakeThenMerge(h, from, dest, item, m, into);
    EqualsInHeap(S, item, toItem);
    MergedCases(h, from, dest, item, m, into);
    n := 0;
    if item.kind.stackable {
      if item.Equals(toItem) {
        n := if STACK_SIZE - toItem.count < m then STACK_SIZE - toItem.count else m;
        MergeAfterTake(h, HeapOf(S), from, dest, item, m, toItem);
        dest.UpdateThing(toItem, toItem.kind, toItem.count + n, S);
      }
    }
  }

  lemma MergedCases<T>(h: Heap<T>, from: T, dest: T, item: T, m: nat, into: Option<T>)
    requires MayTransfer(h, from, dest, item, m, into)
    ensures Removed(h, from, item, m).Keys == h.Keys
    ensures Removed(h, from, item, m)[item].kind == h[item].kind
    ensures Removed(h, from, item, m)[item].GetKey() == h[item].GetKey()
    ensures into.Some? ==> into.value in h && into.value != item
    ensures into.Some? && h[item].kind.stackable && h[into.value].GetKey() == h[item].GetKey() ==>
              && h[into.value].count <= STACK_SIZE
              && Merged(h, item, m, into)
                 == if STACK_SIZE - h[into.value].count < m then STACK_SIZE - h[into.value].count else m
    ensures !(into.Some? && h[item].kind.stackable && h[into.value].GetKey() == h[item].GetKey()) ==>
              Merged(h, item, m, into) == 0
  {
    hide Forest, Balanced, Inside, Removed, Kept;
    TakeFacts(h, from, dest, item, m, into);
    if into.Some? {
      HeldOutside(h, dest, into.value);
    }
  }

  /** Takes the pieces out of `from`, merges what fits into `toItem` and puts the rest into `dest`. */
  method Transfer(from: Item, dest: Item, index: int, item: Item, m: nat, toItem: Item?, ghost S: set<Item>)
    returns (ghost S': set<Item>)
    requires from in S && dest in S && item in S && (toItem != null ==> toItem in S)
    requires MayTransfer(HeapOf(S), from, dest, item, m, Optional(toItem))
    modifies S
    ensures S <= S' && fresh(S' - S)
    ensures item in old(HeapOf(S)) && dest in old(HeapOf(S)) && (toItem != null ==> toItem in old(HeapOf(S)))
    ensures Moved(old(HeapOf(S)), HeapOf(S'), from, dest, item, m, Optional(toItem), index)
            && item.kind == old(item.kind)
  {
    hide *;
    ghost var h := HeapOf(S);
    ghost var into := Optional(toItem);
    TransferValid(h, from, dest, item, m, into);
    from.RemoveThing(item, m, S);
    var n := MergeStack(h, from, dest, item, m, toItem, S);
    S' := PlaceRest(h, from, dest, index, item, m, n, toItem, S);
  }

  lemma TransferValid<T>(h: Heap<T>, from: T, dest: T, item: T, m: nat, into: Option<T>)
    requires MayTransfer(h, from, dest, item, m, into)
    ensures Valid(h) && from in h && item in h && dest in h
    ensures into.Some? ==> into.value in h
  {
  }

  /** Puts what did not merge into the destination: the item itself, or a copy with the rest of a stack. */
  method PlaceRest(ghost h: Heap<Item>, ghost from: Item, dest: Item, index: int, item: Item, m: nat, n: nat,
                   toItem: Item?,
                   ghost S: set<Item>)
    returns (ghost S': set<Item>)
    requires dest in S && item in S && (toItem != null ==> toItem in S)
    requires MayTransfer(h, from, dest, item, m, Optional(toItem)) && item in h && (toItem != null ==> toItem in h)
    requires n == Merged(h, item, m, Optional(toItem)) && n <= m
    requires AfterMerge(h, HeapOf(S), from, dest, item, m, Optional(toItem))
    modifies S
    ensures S <= S' && fresh(S' - S)
    ensures dest in h && Moved(h, HeapOf(S'), from, dest, item, m, Optional(toItem), index)
            && item.kind == old(item.kind)
  {
    hide *;
    ghost var into := Optional(toItem);
    AfterFacts(h, HeapOf(S), from, dest, item, m, into);
    EqualsInHeap(S, item, toItem);
    S' := S;
    if item.kind.stackable {
      var newCount := m - n;
      if newCount > 0 {
        var moveItem := CloneWith(item, newCount, S);
        HeapWithNew(S, moveItem);
        CopyReady(h, HeapOf(S), from, dest, item, m, into, moveItem, moveItem.Record());
        S' := S + {moveItem};
        PutRest(h, HeapOf(S'), from, dest, item, m, into, moveItem, index);
        PutFacts(h, S', from, dest, item, m, into, moveItem);
        dest.AddThing(index, moveItem, S');
      } else {
        NothingLeft(h, HeapOf(S), from, dest, item, m, into, index);
      }
    } else {
      WholeItemReady(h, HeapOf(S), from, dest, item, m, into);
      PutRest(h, HeapOf(S), from, dest, item, m, into, item, index);
      PutFacts(h, S, from, dest, item, m, into, item);
      dest.AddThing(index, item, S);
    }
  }

  lemma AfterFacts<T>(h: Heap<T>, h2: Heap<T>, from: T, dest: T, item: T, m: nat, into: Option<T>)
    requires MayTransfer(h, from, dest, item, m, into) && AfterMerge(h, h2, from, dest, item, m, into)
    ensures h2[item].kind == h[item].kind && h2[item].GetKey() == h[item].GetKey() && dest in h
    ensures h[item].kind.stackable ==> h[item].count <= STACK_SIZE && !h[item].kind.fluid && !h2[item].isContainer
    ensures Byte(m - Merged(h, item, m, into)) == m - Merged(h, item, m, into) || !h[item].kind.stackable
  {
    hide Forest, Balanced, Inside, Transferred, Merged;
    HeldOutside(h, from, item);
  }

  lemma PutFacts(h: Heap<Item>, S: set<Item>, from: Item, dest: Item, item: Item, m: nat, into: Option<Item>,
                 rest: Item)
    requires item in h && dest in h && (into.Some? ==> into.value in h) && dest in S && rest in S
    requires RestReady(h, HeapOf(S), from, dest, item, m, into, rest)
    ensures Valid(HeapOf(S)) && dest.isContainer && rest.parent == null && !Inside(Parents(HeapOf(S)), dest, rest)
    ensures dest.capacity == h[dest].capacity
  {
    hide Valid, StacksBounded, Transferred, Inside, Merged;
  }

  // ----- The whole move

  /** What asking one container after the other for a destination ends with; `n` have been asked before. */
  ghost function Resolve<T>(h: Heap<T>, c: T, index: int, item: T, flags: Flags, n: nat): Answer<T>
    requires c in h && item in h && ContentsKnown(h)
    decreases MAP_MAX_LAYERS - n
  {
    var a := Ask(h, c, index, item, flags);
    if a.dest == c || a.dest !in h || n + 1 >= MAP_MAX_LAYERS then a
    else Resolve(h, a.dest, a.index, item, flags, n + 1)
  }

  /** What every answer that is an end has in common. */
  ghost predicate Resolved<T>(h: Heap<T>, dest: T, item: T, flags: Flags, index: int, merge: Option<T>) {
    && dest in h && item in h && h[dest].isContainer && ContentsKnown(h)
    && (merge.Some? ==> merge.value in h && merge.value in h[dest].contents)
    && (|| !h[dest].unlocked
        || (index == INDEX_WHEREEVER && merge == None)
        || exists i :: AskSlot(h, dest, i, item, flags) == Answer(dest, index, merge))
  }

  method ResolveDestination(to: Item, index: int, item: Item, flags: Flags, ghost S: set<Item>)
    returns (dest: Item, index': int, toItem: Item?)
    requires to in S && item in S && to.isContainer && Valid(HeapOf(S))
    ensures dest in S && (toItem != null ==> toItem in S) && ContentsKnown(HeapOf(S))
    ensures Answer(dest, index', Optional(toItem)) == Resolve(HeapOf(S), to, index, item, flags, 0)
    ensures Resolved(HeapOf(S), dest, item, flags, index', Optional(toItem))
  {
    hide Valid, HeapOf, Ask, Resolve, Resolved, ContentsKnown, Optional;
    ghost var h := HeapOf(S);
    dest := to;
    var subCylinder: Item;
    subCylinder, index', toItem := dest.QueryDestination(index, item, flags, null, S);
    AnswerFacts(S, dest, index, item, flags, subCylinder, index', toItem, 0);
    ghost var end := Resolve(h, to, index, item, flags, 0);
    var floorN := 0;
    while subCylinder != dest
      invariant 0 <= floorN < MAP_MAX_LAYERS
      invariant dest in S && subCylinder in S && dest.isContainer && subCylinder.isContainer
      invariant toItem != null ==> toItem in S
      invariant subCylinder == dest ==>
                  && Resolved(h, dest, item, flags, index', Optional(toItem))
                     && Answer(dest, index', Optional(toItem)) == end
      invariant subCylinder != dest ==>
                  && index' == INDEX_WHEREEVER && toItem == null
                  && end == if floorN + 1 >= MAP_MAX_LAYERS then Answer(subCylinder, index', None)
                            else Resolve(h, subCylinder, index', item, flags, floorN + 1)
      decreases MAP_MAX_LAYERS - floorN
    {
      dest := subCylinder;
      floorN := floorN + 1;
      if floorN >= MAP_MAX_LAYERS {
        ResolvedAnywhere(S, dest, item, flags);
        break;
      }
      var i := index';
      subCylinder, index', toItem := dest.QueryDestination(i, item, flags, toItem, S);
      AnswerFacts(S, dest, i, item, flags, subCylinder, index', toItem, floorN);
    }
  }

  lemma ResolvedAnywhere(S: set<Item>, dest: Item, item: Item, flags: Flags)
    requires Valid(HeapOf(S)) && dest in S && item in S && dest.isContainer
    ensures Optional(null) == None && Resolved(HeapOf(S), dest, item, flags, INDEX_WHEREEVER, Optional(null))
  {
    hide Valid, AskSlot, ContentsKnown;
    KnownContents(HeapOf(S));
  }

  /** One answer: it is the end, or the next container is asked with "anywhere". */
  lemma AnswerFacts(S: set<Item>, c: Item, index: int, item: Item, flags: Flags, dest: Item, index': int, merge: Item?,
                    n: nat)
    requires Valid(HeapOf(S)) && c in S && item in S && dest in S && c.isContainer && (merge != null ==> merge in S)
    requires ContentsKnown(HeapOf(S)) && Answer(dest, index', Optional(merge)) == Ask(HeapOf(S), c, index, item, flags)
    ensures dest.isContainer
    ensures dest == c ==> Resolved(HeapOf(S), c, item, flags, index', Optional(merge))
    ensures dest == c ==> Resolve(HeapOf(S), c, index, item, flags, n) == Answer(dest, index', Optional(merge))
    ensures dest != c ==> index' == INDEX_WHEREEVER && merge == null
    ensures dest != c ==>
              Resolve(HeapOf(S), c, index, item, flags, n) ==
              if n + 1 >= MAP_MAX_LAYERS then Answer(dest, index', None)
                  else Resolve(HeapOf(S), dest, index', item, flags, n + 1)
  {
    hide Valid, AskSlot, ContentsKnown;
    var h := HeapOf(S);
    assert h[c].unlocked == c.unlocked && h[c].isContainer && h[c].parent == c.Above();
    if c.unlocked {
      if index == MOVE_UP {
        if c.parent != null {
          ParentIsContainer(S, c);
        }
      } else {
        AnswerIsSafe(h, c, index, item, flags);
      }
    }
  }

  lemma AnswerIsSafe<T>(h: Heap<T>, c: T, index: int, item: T, flags: Flags)
    requires c in h && item in h && ContentsKnown(h)
    ensures var a := AskSlot(h, c, index, item, flags);
            && a.dest in h && (a.dest == c || h[a.dest].isContainer)
            && (a.dest != c ==> a.index == INDEX_WHEREEVER && a.into == None)
            && (a.into.Some? ==> a.into.value in h && a.into.value in h[c].contents)
  {
    DestinationIsSafe(h, c, index, item, flags);
  }

  lemma ParentIsContainer(S: set<Item>, x: Item)
    requires x in S && Valid(HeapOf(S)) && x.parent != null && x.parent in S
    ensures x.parent.isContainer
  {
    hide Forest, Balanced;
    var up: Item := x.parent;
    assert HeapOf(S)[x].parent == Some(up);
    assert x in HeapOf(S)[up].contents;
  }

  /** The pieces the queries allow to be moved. */
  ghost function Amount<T>(h: Heap<T>, a: Answer<T>, item: T, count: nat, flags: Flags): (m: nat)
    requires a.dest in h && item in h && ContentsKnown(h)
  {
    var max := MaxCount(h, a.dest, item, a.index, count, flags);
    if max < 0 then 0 else if h[item].kind.stackable && count < max then count else max
  }

  /** Whether a move goes through, once the destination is resolved: everybody asked agrees. */
  ghost predicate GoesThrough<T>(h: Heap<T>, from: T, a: Answer<T>, item: T, count: nat, flags: Flags, trade: Option<T>)
    requires from in h && a.dest in h && item in h && ContentsKnown(h)
  {
    && a.into != Some(item)
    && CanAdd(h, a.dest, item, a.index, flags) == NoError
    && CanRemove(h, from, item, Amount(h, a, item, count, flags), flags) == NoError
    && (trade.Some? ==> !Inside(Parents(h), a.dest, trade.value))
  }

  /** What the caller is told. */
  ghost function Told<T>(h: Heap<T>, from: T, a: Answer<T>, item: T, count: nat, flags: Flags,
                         trade: Option<T>): ReturnValue
    requires from in h && a.dest in h && item in h && ContentsKnown(h)
  {
    var max, verdict := MaxCount(h, a.dest, item, a.index, count, flags),
                        MaxCountVerdict(h, a.dest, item, a.index, count, flags);
    var removal := CanRemove(h, from, item, Amount(h, a, item, count, flags), flags);
    if a.into == Some(item) then NoError
    else if CanAdd(h, a.dest, item, a.index, flags) != NoError then CanAdd(h, a.dest, item, a.index, flags)
    else if verdict != NoError && max == 0 then verdict
    else if removal != NoError then removal
    else if trade.Some? && Inside(Parents(h), a.dest, trade.value) then NotEnoughRoom
    else if h[item].kind.stackable && max < count then ContainerNotEnoughRoom
    else NoError
  }

  /** What the queries have established when a move goes through. */
  ghost predicate Granted<T>(h: Heap<T>, from: T, dest: T, item: T, slot: int, into: Option<T>, count: nat,
                             flags: Flags, m: nat) {
    && Resolved(h, dest, item, flags, slot, into) && from in h && into != Some(item)
    && CanAdd(h, dest, item, slot, flags) == NoError
    && CanRemove(h, from, item, m, flags) == NoError
    && var max := MaxCount(h, dest, item, slot, count, flags);
       0 <= max && m == if h[item].kind.stackable then (if count < max then count else max) else max
  }

  /**
   A move goes through exactly when the resolved destination takes the item and the source gives it; then everything
   granted is transferred, else nothing is touched.
   */
  method AskAndTransfer(from: Item, to: Item, index: int, item: Item, count: nat, flags: Flags, tradeItem: Item?,
                        ghost S: set<Item>)
    returns (ret: ReturnValue, ghost S': set<Item>, ghost m: nat)
    requires from in S && to in S && item in S && to.isContainer && (tradeItem != null ==> tradeItem in S)
    requires Valid(HeapOf(S)) && StacksBounded(HeapOf(S)) && !flags.childIsOwner
    modifies S
    ensures S <= S' && fresh(S' - S) && Valid(HeapOf(S')) && StacksBounded(HeapOf(S'))
    ensures ContentsKnown(old(HeapOf(S))) && from in old(HeapOf(S)) && to in old(HeapOf(S)) && item in old(HeapOf(S))
    ensures var h, trade := old(HeapOf(S)), Optional(tradeItem);
            var a := Resolve(h, to, index, item, flags, 0);
            && a.dest in h && (a.into.Some? ==> a.into.value in h)
            && ret == Told(h, from, a, item, count, flags, trade)
            && (m > 0 <==> GoesThrough(h, from, a, item, count, flags, trade))
            && (m > 0 ==>
                  && m == Amount(h, a, item, count, flags)
                  && Granted(h, from, a.dest, item, a.index, a.into, count, flags, m)
                  && Moved(h, HeapOf(S'), from, a.dest, item, m, a.into, a.index))
    ensures m == 0 ==> S' == S && HeapOf(S) == old(HeapOf(S))
  {
    hide *;
    ghost var h, trade := HeapOf(S), Optional(tradeItem);
    S', m := S, 0;
    var toCylinder, index', toItem := ResolveDestination(to, index, item, flags, S);
    ghost var a := Answer(toCylinder, index', Optional(toItem));
    ResolvedFacts(S, toCylinder, item, flags, index', toItem);
    VerdictFacts(S, from, a, item, toItem, count, flags, tradeItem);
    if item == toItem {
      return NoError, S', m;
    }
    ret := toCylinder.QueryAdd(index', item, flags, S);
    if ret != NoError {
      return;
    }
    var retMaxCount, maxQueryCount := toCylinder.QueryMaxCount(index', item, count, flags, S);
    if retMaxCount != NoError && maxQueryCount == 0 {
      return retMaxCount, S', m;
    }
    var amount := if item.kind.stackable then (if count < maxQueryCount then count else maxQueryCount)
        else maxQueryCount;
    ret := from.QueryRemove(item, amount, flags, S);
    if ret != NoError {
      return;
    }
    if tradeItem != null {
      if toCylinder == tradeItem {
        return NotEnoughRoom, S', m;
      }
      var enclosed := toCylinder.IsEnclosedBy(tradeItem, S);
      if enclosed {
        return NotEnoughRoom, S', m;
      }
    }
    GrantedMove(S, from, toCylinder, item, index', toItem, count, flags, amount);
    m := amount;
    S' := Transfer(from, toCylinder, index', item, amount, toItem, S);
    MovedIsValid(h, HeapOf(S'), from, toCylinder, item, amount, a.into, index');
    if item.kind.stackable && maxQueryCount < count {
      return retMaxCount, S', m;
    }
  }

  /** The move as a whole: it lands where the request leads, and nowhere else, exactly when everybody agrees. */
  method InternalMoveItem(from: Item, to: Item, index: int, item: Item, count: nat, flags: Flags, tradeItem: Item?,
                          ghost S: set<Item>)
    returns (ret: ReturnValue, ghost S': set<Item>, ghost m: nat)
    requires from in S && to in S && item in S && to.isContainer && (tradeItem != null ==> tradeItem in S)
    requires Valid(HeapOf(S)) && StacksBounded(HeapOf(S)) && !flags.childIsOwner
    modifies S
    ensures S <= S' && fresh(S' - S) && Valid(HeapOf(S')) && StacksBounded(HeapOf(S'))
    ensures ContentsKnown(old(HeapOf(S))) && from in old(HeapOf(S)) && to in old(HeapOf(S)) && item in old(HeapOf(S))
    ensures var h, trade := old(HeapOf(S)), Optional(tradeItem);
            var a := Resolve(h, to, index, item, flags, 0);
            && a.dest in h && (a.into.Some? ==> a.into.value in h)
            && ret == Told(h, from, a, item, count, flags, trade)
            && (m > 0 <==> GoesThrough(h, from, a, item, count, flags, trade))
            && (m > 0 ==>
                  && m == Amount(h, a, item, count, flags)
                  && Granted(h, from, a.dest, item, a.index, a.into, count, flags, m)
                  && Moved(h, HeapOf(S'), from, a.dest, item, m, a.into, a.index))
    ensures m == 0 ==> S' == S && HeapOf(S) == old(HeapOf(S))
    ensures var h, trade := old(HeapOf(S)), Optional(tradeItem);
            exists a, max :: LeadsTo(h, to, index, item, flags, a)
                             && MovesTo(h, HeapOf(S'), from, a, max, item, count, flags, trade, ret, m)
  {
    hide *;
    ghost var h := HeapOf(S);
    ret, S', m := AskAndTransfer(from, to, index, item, count, flags, tradeItem, S);
    ghost var a, max := MoveIsLawful(h, HeapOf(S'), from, to, index, item, count, flags, Optional(tradeItem), ret, m);
  }

  /** What is asked on the objects is what the verdict is made of. */
  lemma VerdictFacts(S: set<Item>, from: Item, a: Answer<Item>, item: Item, toItem: Item?, count: nat, flags: Flags,
                     tradeItem: Item?)
    requires from in S && a.dest in S && item in S && ContentsKnown(HeapOf(S)) && a.into == Optional(toItem)
    requires tradeItem != null ==> tradeItem in S
    ensures var h, trade := HeapOf(S), Optional(tradeItem);
            var max, verdict := MaxCount(h, a.dest, item, a.index, count, flags),
                                MaxCountVerdict(h, a.dest, item, a.index, count, flags);
            var add, m := CanAdd(h, a.dest, item, a.index, flags), Amount(h, a, item, count, flags);
            var remove := CanRemove(h, from, item, m, flags);
            && max >= 0 && h[item].kind == item.kind
            && m == (if item.kind.stackable then (if count < max then count else max) else max)
            && (item.kind.stackable && max < count ==> verdict == ContainerNotEnoughRoom)
            && (tradeItem == null ==> trade == None)
            && (tradeItem != null ==> trade == Some(tradeItem))
            && (toItem == item ==> Told(h, from, a, item, count, flags, trade) == NoError)
            && (toItem != item && add != NoError ==> Told(h, from, a, item, count, flags, trade) == add)
            && (toItem != item && add == NoError && verdict != NoError && max == 0 ==>
                  Told(h, from, a, item, count, flags, trade) == verdict && remove != NoError)
            && (toItem != item && add == NoError && !(verdict != NoError && max == 0) ==>
                  Told(h, from, a, item, count, flags, trade) ==
                  if remove != NoError then remove
                  else if tradeItem != null && Inside(Parents(h), a.dest, trade.value) then NotEnoughRoom
                  else if item.kind.stackable && max < count then ContainerNotEnoughRoom else NoError)
            && (remove == NoError ==> m > 0)
            && (GoesThrough(h, from, a, item, count, flags, trade) <==>
                  && toItem != item && add == NoError && remove == NoError
                  && (tradeItem != null ==> !Inside(Parents(h), a.dest, trade.value)))
            && (tradeItem != null && a.dest == tradeItem ==> Inside(Parents(h), a.dest, trade.value))
  {
    hide CanAdd, Sum, Inside;
    SumNonNegative(Rooms(HeapOf(S), item), HeapOf(S)[a.dest].contents);
    InsideRefl(Parents(HeapOf(S)), a.dest);
  }

  lemma ResolvedFacts(S: set<Item>, dest: Item, item: Item, flags: Flags, index: int, toItem: Item?)
    requires Resolved(HeapOf(S), dest, item, flags, index, Optional(toItem))
    ensures dest in S && item in S && dest.isContainer && ContentsKnown(HeapOf(S))
    ensures toItem == item ==> Optional(toItem) == Some(item)
    ensures toItem != item ==> Optional(toItem) != Some(item)
  {
    hide AskSlot, ContentsKnown;
    assert HeapOf(S)[dest].isContainer == dest.isContainer;
  }

  lemma GrantedMove(S: set<Item>, from: Item, dest: Item, item: Item, index: int, toItem: Item?, count: nat,
                    flags: Flags, m: int)
    requires Valid(HeapOf(S)) && StacksBounded(HeapOf(S)) && from in S && dest in S && item in S
    requires Resolved(HeapOf(S), dest, item, flags, index, Optional(toItem)) && item != toItem && !flags.childIsOwner
    requires CanAdd(HeapOf(S), dest, item, index, flags) == NoError
    requires 0 <= m && CanRemove(HeapOf(S), from, item, m, flags) == NoError
    requires var max := MaxCount(HeapOf(S), dest, item, index, count, flags);
             0 <= max && m == if item.kind.stackable then (if count < max then count else max) else max
    ensures m > 0 && MayTransfer(HeapOf(S), from, dest, item, m, Optional(toItem))
    ensures Granted(HeapOf(S), from, dest, item, index, Optional(toItem), count, flags, m)
    ensures toItem != null ==> toItem in S
  {
    hide Valid, StacksBounded, AskSlot, ContentsKnown, MaxCount, Inside;
    assert HeapOf(S)[item].kind == item.kind;
  }

  lemma MovedIsValid<T>(h: Heap<T>, h': Heap<T>, from: T, dest: T, item: T, m: nat, into: Option<T>, index: int)
    requires item in h && dest in h && (into.Some? ==> into.value in h)
    requires Moved(h, h', from, dest, item, m, into, index)
    ensures Valid(h') && StacksBounded(h')
  {
    hide Valid, StacksBounded, Transferred, Lost, Merged;
  }

  // ----- Where a move ends

  lemma MovedLands<T>(h: Heap<T>, h': Heap<T>, from: T, dest: T, item: T, m: nat, into: Option<T>, index: int)
    requires item in h && dest in h && from in h && (into.Some? ==> into.value in h && into.value != item)
    requires Moved(h, h', from, dest, item, m, into, index)
    ensures Landed(h, h', from, dest, item, m, into, index < h[dest].capacity)
  {
    hide Valid, StacksBounded, Transferred, Lost;
  }

  /** One question asked of any place in a container ends there. */
  lemma AnywhereEnds<T>(h: Heap<T>, c: T, item: T, flags: Flags, n: nat)
    requires c in h && item in h && ContentsKnown(h) && (forall x | x in h[c].contents :: x in h)
    ensures AskLaw(h, c, INDEX_WHEREEVER, item, flags, Resolve(h, c, INDEX_WHEREEVER, item, flags, n))
  {
    hide FirstRoom, AskLaw;
    AskIsLawful(h, c, INDEX_WHEREEVER, item, flags);
  }

  /** The loop of questions ends where the request leads. */
  lemma ResolveLeads<T>(h: Heap<T>, to: T, index: int, item: T, flags: Flags)
    requires to in h && item in h && ContentsKnown(h) && to !in h[to].contents && h[to].parent != Some(to)
    requires h[to].parent.Some? ==> h[to].parent.value in h
    ensures LeadsTo(h, to, index, item, flags, Resolve(h, to, index, item, flags, 0))
  {
    hide ContentsKnown, AskLaw;
    KnownList(h, to);
    var a := Ask(h, to, index, item, flags);
    AskIsLawful(h, to, index, item, flags);
    LeadsOn(h, to, index, item, flags);
    if a.dest != to {
      KnownList(h, a.dest);
      AnywhereEnds(h, a.dest, item, flags, 1);
    }
    hide AskSlot;
  }

  /** The containers that a move is led on to: the one around, or one in the slot; and no other answer leads on. */
  lemma LeadsOn<T>(h: Heap<T>, c: T, index: int, item: T, flags: Flags)
    requires c in h && item in h && (forall x | x in h[c].contents :: x in h)
    requires c !in h[c].contents && h[c].parent != Some(c)
    ensures var a, slot := Ask(h, c, index, item, flags), Slot(h[c], index);
            && (a.dest == c <==>
                  || !h[c].unlocked || (index == 254 && h[c].parent == None)
                  || (index != 254 && (slot == None || !h[slot.value].isContainer)))
            && (a.dest != c ==>
                  && a.index == INDEX_WHEREEVER && a.into == None
                  && if index == 254 then h[c].parent == Some(a.dest) else slot == Some(a.dest))
    ensures Slot(h[c], index).Some? ==> Slot(h[c], index).value in h[c].contents
  {
    hide FirstRoom;
  }

  lemma ListKnows<T>(h: Heap<T>, c: T, item: T)
    requires Valid(h) && c in h && item in h
    ensures h[c].parent.Some? ==> h[c].parent.value in h
    ensures c !in h[c].contents && h[c].parent != Some(c) && (h[item].parent != Some(c) ==> item !in h[c].contents)
  {
    hide Balanced, Forest;
    if c in h[c].contents {
      HeldIsOther(h, c, c);
    }
  }

  lemma KnownList<T>(h: Heap<T>, c: T)
    requires c in h && ContentsKnown(h)
    ensures forall x | x in h[c].contents :: x in h
  {
  }

  /** A move does what the law says. */
  lemma MoveIsLawful<T>(h: Heap<T>, h': Heap<T>, from: T, to: T, index: int, item: T, count: nat, flags: Flags,
                        trade: Option<T>, ret: ReturnValue, m: nat)
    returns (end: Answer<T>, max: int)
    requires Valid(h) && from in h && to in h && item in h && ContentsKnown(h) && !flags.childIsOwner
    requires var a := Resolve(h, to, index, item, flags, 0);
             && a.dest in h && (a.into.Some? ==> a.into.value in h)
             && ret == Told(h, from, a, item, count, flags, trade)
             && (m > 0 <==> GoesThrough(h, from, a, item, count, flags, trade))
             && (m > 0 ==>
                   && m == Amount(h, a, item, count, flags)
                   && Moved(h, h', from, a.dest, item, m, a.into, a.index))
             && (m == 0 ==> h' == h)
    ensures LeadsTo(h, to, index, item, flags, end)
    ensures MovesTo(h, h', from, end, max, item, count, flags, trade, ret, m)
  {
    hide Valid, Resolve, Moved, Told, GoesThrough, LeadsTo, Landed, ContentsKnown;
    ListKnows(h, to, item);
    ResolveLeads(h, to, index, item, flags);
    end := Resolve(h, to, index, item, flags, 0);
    GoesWhenAgreed(h, from, end, item, count, flags, trade);
    max := MaxCount(h, end.dest, item, end.index, count, flags);
    if m > 0 {
      MovedLands(h, h', from, end.dest, item, m, end.into, end.index);
    }
  }

  lemma GoesWhenAgreed<T>(h: Heap<T>, from: T, a: Answer<T>, item: T, count: nat, flags: Flags, trade: Option<T>)
    requires from in h && a.dest in h && item in h && ContentsKnown(h) && !flags.childIsOwner
    ensures forall x | x in h[a.dest].contents :: x in h
    ensures var max := MaxCount(h, a.dest, item, a.index, count, flags);
            var amount := if h[item].kind.stackable && count < max then count else max;
            && CountLaw(h, a.dest, item, a.index, count, flags, max) && max >= 0
            && amount == Amount(h, a, item, count, flags)
            && (GoesThrough(h, from, a, item, count, flags, trade) <==> Agreed(h, from, a, item, amount, flags, trade))
            && (GoesThrough(h, from, a, item, count, flags, trade) ==>
                  && a.into != Some(item)
                  && Told(h, from, a, item, count, flags, trade) ==
                     if h[item].kind.stackable && max < count then ContainerNotEnoughRoom else NoError)
            && (!GoesThrough(h, from, a, item, count, flags, trade) ==>
                  (Told(h, from, a, item, count, flags, trade) == NoError <==> a.into == Some(item)))
  {
    hide CanAdd, Sum, Inside, ContentsKnown, Welcomes, CountLaw;
    KnownList(h, a.dest);
    SumNonNegative(Rooms(h, item), h[a.dest].contents);
    MaxCountMeans(h, a.dest, item, a.index, count, flags);
    CanAddMeans(h, a.dest, item, a.index, flags);
  }

  // ----- What a move keeps

  /** Nothing is lost exactly when the slot is within the capacity or everything merged. */
  lemma LossIsBeyondCapacity<T>(h: Heap<T>, from: T, dest: T, item: T, slot: int, into: Option<T>, count: nat,
                                flags: Flags, m: nat)
    requires StacksBounded(h) && Granted(h, from, dest, item, slot, into, count, flags, m)
    requires !flags.childIsOwner
    ensures (into.Some? ==> into.value in h)
    ensures Lost(h, dest, item, m, into, slot) > 0
       <==> && into.Some? && h[item].kind.stackable
            && h[dest].capacity <= slot < |h[dest].contents| && h[dest].contents[slot] == into.value
            && h[into.value].GetKey() == h[item].GetKey() && m > STACK_SIZE - h[into.value].count
  {
    hide Inside, MaxCount, ContentsKnown;
  }

  /**
   A container that holds no more than its capacity, and a plain one at any size, loses nothing and never overflows.
   */
  lemma PlainMoveIsSafe<T>(h: Heap<T>, from: T, dest: T, item: T, slot: int, into: Option<T>, count: nat, flags: Flags,
                           m: nat)
    requires StacksBounded(h) && Granted(h, from, dest, item, slot, into, count, flags, m)
    requires !flags.childIsOwner
    ensures (into.Some? ==> into.value in h)
    ensures |h[dest].contents| <= h[dest].capacity ==> Lost(h, dest, item, m, into, slot) <= 0
    ensures !flags.noLimit && !h[dest].pagination ==>
              && Lost(h, dest, item, m, into, slot) <= 0
              && ((h[item].kind.stackable ==> m > Merged(h, item, m, into)) ==> |h[dest].contents| < h[dest].capacity)
  {
    hide Inside, ContentsKnown;
  }

  /**
   A move into a plain container: no piece of any kind is lost or made anywhere, and no container outgrows its capacity.
   */
  lemma PlainMoveConserves<T>(h: Heap<T>, h': Heap<T>, from: T, dest: T, item: T, slot: int, into: Option<T>,
                              count: nat, flags: Flags, m: nat, cs: seq<T>, q: Key)
    requires StacksBounded(h) && Granted(h, from, dest, item, slot, into, count, flags, m)
    requires (into.Some? ==> into.value in h) && Moved(h, h', from, dest, item, m, into, slot)
    requires !flags.childIsOwner && !flags.noLimit && !h[dest].pagination
    requires Distinct(cs) && (forall c | c in cs :: c in h) && (from in cs <==> dest in cs)
    ensures forall c | c in cs :: c in h'
    ensures TotalIn(h', cs, q) == TotalIn(h, cs, q)
    ensures dest in h' && (|h[dest].contents| <= h[dest].capacity ==> |h'[dest].contents| <= h[dest].capacity)
    ensures forall x | x in h && x != dest :: |h'[x].contents| <= |h[x].contents|
  {
    hide Granted, StacksBounded, Valid, CountIn, Merged, TakenFrom, Lost, Transferred;
    GrantedKeys(h, from, dest, item, slot, into, count, flags, m);
    TransferredKeys(h, h', from, dest, h[item].GetKey(), TakenFrom(h, item, m),
                    TakenFrom(h, item, m) - Lost(h, dest, item, m, into, slot));
    PlainMoveIsSafe(h, from, dest, item, slot, into, count, flags, m);
    LossNotNegative(h, from, dest, item, slot, into, count, flags, m);
    var out := TakenFrom(h, item, m);
    TransferConserves(h, h', from, dest, h[item].GetKey(), out, cs, q);
  }

  lemma GrantedKeys<T>(h: Heap<T>, from: T, dest: T, item: T, slot: int, into: Option<T>, count: nat, flags: Flags,
                       m: nat)
    requires Granted(h, from, dest, item, slot, into, count, flags, m)
    ensures from in h && dest in h && item in h
  {
  }

  lemma TransferredKeys<T>(h: Heap<T>, h': Heap<T>, from: T, to: T, k: Key, out: int, into: int)
    requires Transferred(h, h', from, to, k, out, into)
    ensures h.Keys <= h'.Keys
  {
  }

  lemma LossNotNegative<T>(h: Heap<T>, from: T, dest: T, item: T, slot: int, into: Option<T>, count: nat, flags: Flags,
                           m: nat)
    requires Granted(h, from, dest, item, slot, into, count, flags, m) && (into.Some? ==> into.value in h)
    ensures Lost(h, dest, item, m, into, slot) >= 0
  {
    hide Inside, MaxCount, ContentsKnown, Resolved, CanAdd;
  }
}
