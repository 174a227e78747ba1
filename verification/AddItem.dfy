/** Adding an item to a container anywhere: merge into one stack after the other, then take a free slot. */
module AddItem {
  import opened Sums
  import opened Options
  import opened Ancestry
  import opened ItemHeap
  import opened CylinderQueries
  import opened Conservation
  import opened Items
  import opened MoveSteps
  import opened Movement
  import opened AddLaws

  /** Some other stack in `c` has room for the item and may be used. */
  ghost predicate HasMergeTarget<T>(h: Heap<T>, c: T, item: T, flags: Flags)
    requires c in h && item in h && ContentsKnown(h)
  {
    && !flags.ignoreAutoStack && h[item].kind.stackable && h[item].parent != Some(c)
    && exists k :: 0 <= k < |h[c].contents| && h[c].contents[k] != item && Mergeable(h, h[c].contents[k], item)
  }

  /** The condition under which the whole item fits. */
  ghost predicate Fits<T>(h: Heap<T>, c: T, item: T, flags: Flags)
    requires c in h && item in h && ContentsKnown(h)
  {
    && CanAdd(h, c, item, 0, flags) == NoError
    && MaxCountVerdict(h, c, item, INDEX_WHEREEVER, h[item].count, flags) == NoError
    && (HasMergeTarget(h, c, item, flags) || CanAdd(h, c, item, INDEX_WHEREEVER, flags) == NoError)
  }

  /** The whole item has arrived: its pieces are in `c`, no other list has changed, and at most one slot was taken. */
  ghost predicate Added<T>(h: Heap<T>, h': Heap<T>, c: T, k: Key, pieces: int, flags: Flags) {
    && Valid(h') && StacksBounded(h') && c in h
    && CountsMove(h, h', c, k, pieces)
    && (forall x | x in h && x != c :: h'[x].contents == h[x].contents)
    && |h'[c].contents| <= |h[c].contents| + 1
    && (!flags.noLimit && !h[c].pagination ==>
          |h'[c].contents| <= |h[c].contents| || |h'[c].contents| <= h[c].capacity)
  }

  /**
   An item fits when it is welcome and the free slots, with a full stack each, and the stacks of its kind can take all
   of it; and to begin with there is a free slot, or a stack to join.
   */
  ghost predicate FitLaw<T>(h: Heap<T>, c: T, item: T, flags: Flags)
    requires c in h && item in h && forall x | x in h[c].contents :: x in h
  {
    var xs, unlimited := h[c].contents, flags.noLimit || h[c].pagination;
    var free := if |xs| < h[c].capacity then h[c].capacity - |xs| else 0;
    && Welcomes(h, c, item, flags)
    && (unlimited || if h[item].kind.stackable then h[item].count <= 100 * free + RoomIn(h, item, xs) else free > 0)
    && (unlimited || free > 0 || (LooksForStacks(h, c, item, flags) && exists j :: FirstStack(h, xs, item, j)))
  }

  lemma FitsMeans<T>(h: Heap<T>, c: T, item: T, flags: Flags)
    requires c in h && item in h && ContentsKnown(h) && !flags.childIsOwner
    ensures forall x | x in h[c].contents :: x in h
    ensures Fits(h, c, item, flags) <==> FitLaw(h, c, item, flags)
  {
    hide Inside, Welcomes, CanAdd, MaxCount, FirstStack, HasMergeTarget, ContentsKnown;
    assert forall x | x in h[c].contents :: x in h by { KnownList(h, c); }
    MaxCountMeans(h, c, item, INDEX_WHEREEVER, h[item].count, flags);
    CanAddMeans(h, c, item, INDEX_WHEREEVER, flags);
    WelcomeAtSlots(h, c, item, flags);
    TargetIsFirst(h, c, item, flags);
  }

  lemma TargetIsFirst<T>(h: Heap<T>, c: T, item: T, flags: Flags)
    requires c in h && item in h && ContentsKnown(h) && forall x | x in h[c].contents :: x in h
    ensures HasMergeTarget(h, c, item, flags)
       <==> LooksForStacks(h, c, item, flags) && exists j :: FirstStack(h, h[c].contents, item, j)
  {
    hide ContentsKnown;
    FirstRoomIsFirst(h, h[c].contents, item);
  }

  // ----- The three ways the item goes

  lemma PutWhole<T>(h: Heap<T>, c: T, item: T, flags: Flags)
    requires Valid(h) && StacksBounded(h) && c in h && item in h && h[c].isContainer && h[item].parent == None
    requires h[item].kind.stackable ==> h[item].count <= STACK_SIZE
    requires CanAdd(h, c, item, INDEX_WHEREEVER, flags) == NoError && !flags.childIsOwner
    ensures !Inside(Parents(h), c, item) && c != item && h[c].unlocked
    ensures Added(h, Add(h, c, item, true), c, h[item].GetKey(), h[item].count, flags)
  {
    hide Valid, StacksBounded, Inside, Add, CountsMove;
    PutStep(h, c, item);
    AddKeepsValid(h, c, item, true);
  }

  lemma MergeWhole<T>(h: Heap<T>, c: T, item: T, into: T, flags: Flags)
    requires Valid(h) && StacksBounded(h) && c in h && item in h && into in h && into in h[c].contents
    requires h[item].kind.stackable && h[into].GetKey() == h[item].GetKey()
    requires h[into].count + h[item].count <= STACK_SIZE
    ensures Added(h, Updated(h, c, into, h[into].kind, h[into].count + h[item].count), c,
                  h[item].GetKey(), h[item].count, flags)
  {
    hide Valid, StacksBounded, Updated, CountsMove;
    MergeStep(h, c, into, h[item].count);
    UpdatedValid(h, c, into, h[into].kind, h[into].count + h[item].count);
  }

  /** The heap after `n` pieces have merged and a copy for the rest has been made. */
  ghost predicate RestIs<T>(h: Heap<T>, h2: Heap<T>, c: T, item: T, into: T, n: nat, copy: T)
    requires c in h && item in h && into in h
  {
    && h2.Keys == h.Keys + {copy} && copy !in h && Valid(h2) && StacksBounded(h2)
    && CountsMove(h, h2, c, h[item].GetKey(), n)
    && (forall x | x in h :: h2[x].contents == h[x].contents && h2[x].GetKey() == h[x].GetKey()
                             && h2[x].capacity == h[x].capacity && h2[x].isContainer == h[x].isContainer
                             && h2[x].unlocked == h[x].unlocked && h2[x].pagination == h[x].pagination
                             && (x != into ==> h2[x].count == h[x].count))
    && h2[into].count == h[into].count + n
    && h2[copy].GetKey() == h[item].GetKey() && h2[copy].parent == None && h2[copy].count == h[item].count - n
    && !Inside(Parents(h2), c, copy)
  }

  lemma MergePart<T>(h: Heap<T>, c: T, item: T, into: T, n: nat, copy: T, r: Rec<T>)
    requires Valid(h) && StacksBounded(h) && c in h && item in h && into in h && into in h[c].contents
    requires h[item].kind.stackable && h[into].GetKey() == h[item].GetKey()
    requires h[into].count + n <= STACK_SIZE && n <= h[item].count
    requires copy !in h && IsLoose(r) && !r.isContainer && r.GetKey() == h[item].GetKey()
             && r.count == h[item].count - n
    ensures var h1 := Updated(h, c, into, h[into].kind, h[into].count + n);
            RestIs(h, h1[copy := r], c, item, into, n, copy)
  {
    hide Valid, StacksBounded, Updated, CountsMove, Inside;
    MergeStep(h, c, into, n);
    UpdatedValid(h, c, into, h[into].kind, h[into].count + n);
    var h1 := Updated(h, c, into, h[into].kind, h[into].count + n);
    NotFluid(h, item);
    CopyStep(h1, copy, r, c, h[item].GetKey());
    CountsCompose(h, h1, h1[copy := r], c, h[item].GetKey(), n, 0);
  }

  lemma NotFluid<T>(h: Heap<T>, item: T)
    requires StacksBounded(h) && item in h && h[item].kind.stackable
    ensures !h[item].kind.fluid && !h[item].isContainer
  {
  }

  lemma CountsCompose<T>(h: Heap<T>, h1: Heap<T>, h2: Heap<T>, c: T, k: Key, a: int, b: int)
    requires CountsMove(h, h1, c, k, a) && CountsMove(h1, h2, c, k, b)
    ensures CountsMove(h, h2, c, k, a + b)
  {
    hide CountIn;
  }

  lemma AddedCompose<T>(h: Heap<T>, h2: Heap<T>, h3: Heap<T>, c: T, item: T, into: T, n: nat, copy: T, flags: Flags)
    requires c in h && item in h && into in h && RestIs(h, h2, c, item, into, n, copy)
    requires Added(h2, h3, c, h[item].GetKey(), h[item].count - n, flags)
    ensures Added(h, h3, c, h[item].GetKey(), h[item].count, flags)
  {
    hide Valid, StacksBounded, CountsMove, Inside;
    CountsCompose(h, h2, h3, c, h[item].GetKey(), n, h[item].count - n);
  }

  // ----- The rest fits again

  lemma RoomsShrink<T>(h: Heap<T>, h2: Heap<T>, c: T, item: T, into: T, n: nat, copy: T)
    requires c in h && item in h && into in h && into != item && RestIs(h, h2, c, item, into, n, copy)
    requires Mergeable(h, into, item) && h[into].count + n <= STACK_SIZE
    ensures copy in h2 && h2[c].contents == h[c].contents
    ensures forall x | x in h && x != into && x != item :: Value(Rooms(h, item), x) == Value(Rooms(h2, copy), x)
    ensures Value(Rooms(h2, copy), into) == Value(Rooms(h, item), into) - n
  {
    hide Valid, StacksBounded, CountsMove, Inside;
  }

  lemma RoomShrinks<T>(h: Heap<T>, h2: Heap<T>, c: T, item: T, into: T, n: nat, copy: T)
    requires ContentsLinked(h) && c in h && item in h && into in h && into in h[c].contents
    requires h[item].parent == None && RestIs(h, h2, c, item, into, n, copy)
    requires Mergeable(h, into, item) && h[into].count + n <= STACK_SIZE
    ensures Sum(Rooms(h2, copy), h2[c].contents) == Sum(Rooms(h, item), h[c].contents) - n
  {
    hide Valid, StacksBounded, CountsMove, Inside;
    NotListedAnywhere(h, item, c);
    HeldOnce(h, c, into, c);
    assert forall x | x in h[c].contents :: x in h;
    hide ContentsLinked, Sum, RestIs;
    RoomsShrink(h, h2, c, item, into, n, copy);
    SumChangedAt(Rooms(h, item), Rooms(h2, copy), h[c].contents, into);
  }

  lemma RestFits<T>(h: Heap<T>, h2: Heap<T>, c: T, item: T, into: T, n: nat, copy: T, flags: Flags)
    requires Valid(h) && c in h && item in h && into in h && into in h[c].contents && ContentsKnown(h)
    requires h[item].parent == None && RestIs(h, h2, c, item, into, n, copy) && h[item].kind.stackable
    requires Mergeable(h, into, item) && h[into].count + n <= STACK_SIZE && n < h[item].count
    requires !flags.ignoreAutoStack && !flags.childIsOwner && Fits(h, c, item, flags)
    ensures ContentsKnown(h2) && Fits(h2, c, copy, flags)
  {
    hide Valid, StacksBounded, CountsMove, Inside, Sum, Rooms, ContentsKnown, CanAdd, HasMergeTarget, Mergeable;
    LinkedIsPart(h);
    KnownContents(h2);
    RoomShrinks(h, h2, c, item, into, n, copy);
    RestMayBeAdded(h, h2, c, item, into, n, copy, flags);
    if !HasMergeTarget(h2, c, copy, flags) {
      NoRoomOnStacks(h2, c, copy, flags);
    }
  }

  lemma RestMayBeAdded<T>(h: Heap<T>, h2: Heap<T>, c: T, item: T, into: T, n: nat, copy: T, flags: Flags)
    requires c in h && item in h && into in h && RestIs(h, h2, c, item, into, n, copy)
    requires CanAdd(h, c, item, 0, flags) == NoError && !flags.childIsOwner
    ensures c in h2 && copy in h2 && CanAdd(h2, c, copy, 0, flags) == NoError
    ensures CanAdd(h2, c, copy, INDEX_WHEREEVER, flags) ==
            if !flags.noLimit && IsFull(h2[c]) then ContainerNotEnoughRoom else NoError
  {
    hide Valid, StacksBounded, CountsMove, Inside;
  }

  /** Without a stack to merge with there is no room on stacks. */
  lemma NoRoomOnStacks<T>(h: Heap<T>, c: T, item: T, flags: Flags)
    requires c in h && item in h && ContentsKnown(h) && !HasMergeTarget(h, c, item, flags)
    requires !flags.ignoreAutoStack && h[item].kind.stackable && h[item].parent == None
    ensures Sum(Rooms(h, item), h[c].contents) == 0
  {
    forall x | x in h[c].contents
      ensures Value(Rooms(h, item), x) == 0
    {
      var k :| 0 <= k < |h[c].contents| && h[c].contents[k] == x;
    }
    ZeroSum(Rooms(h, item), h[c].contents);
  }

  // ----- The method

  /** Where `queryDestination` sends an item that may go anywhere: to a stack with room if there is one. */
  ghost predicate SentTo<T>(h: Heap<T>, c: T, item: T, flags: Flags, index: int, into: Option<T>)
    requires c in h && item in h && ContentsKnown(h)
  {
    if into.Some? then
      && HasMergeTarget(h, c, item, flags) && index >= 0
      && into.value in h && into.value in h[c].contents && Mergeable(h, into.value, item)
      && LooksForStacks(h, c, item, flags) && FirstStack(h, h[c].contents, item, index)
      && into.value == h[c].contents[index]
    else index == INDEX_WHEREEVER && (h[c].unlocked ==> !HasMergeTarget(h, c, item, flags))
  }

  lemma AnywhereIsSentTo<T>(h: Heap<T>, c: T, item: T, flags: Flags, dest: T, index: int, into: Option<T>)
    requires c in h && item in h && dest in h && ContentsKnown(h) && h[item].parent == None
    requires Answer(dest, index, into) == AskSlot(h, c, INDEX_WHEREEVER, item, flags)
    ensures dest == c && SentTo(h, c, item, flags, index, into)
  {
    FirstRoomIsFirst(h, h[c].contents, item);
  }

  /** The three questions asked one after the other decide exactly whether the item fits. */
  lemma FitsIsDecided<T>(h: Heap<T>, c: T, item: T, flags: Flags, index: int, into: Option<T>)
    requires c in h && item in h && ContentsKnown(h) && !flags.childIsOwner
    requires SentTo(h, c, item, flags, index, into)
    ensures Fits(h, c, item, flags)
       <==> CanAdd(h, c, item, index, flags) == NoError
            && MaxCountVerdict(h, c, item, INDEX_WHEREEVER, h[item].count, flags) == NoError
    ensures MaxCountVerdict(h, c, item, INDEX_WHEREEVER, h[item].count, flags) == NoError && h[item].kind.stackable ==>
              h[item].count <= MaxCount(h, c, item, INDEX_WHEREEVER, h[item].count, flags)
  {
    hide Inside, StackRoom, ContentsKnown, HasMergeTarget;
  }

  lemma SentFacts(S: set<Item>, to: Item, item: Item, flags: Flags, dest: Item, index: int, toItem: Item?)
    requires to in S && item in S && dest in S && Valid(HeapOf(S)) && item.parent == null && ContentsKnown(HeapOf(S))
    requires toItem != null ==> toItem in S
    requires Answer(dest, index, Optional(toItem)) == Ask(HeapOf(S), to, INDEX_WHEREEVER, item, flags)
    ensures dest == to && SentTo(HeapOf(S), to, item, flags, index, Optional(toItem))
    ensures item in HeapOf(S) && to in HeapOf(S) && HeapOf(S)[item].parent == None
            && HeapOf(S)[item].count == item.count
    ensures HeapOf(S)[item].GetKey() == item.GetKey() && HeapOf(S)[to].isContainer == to.isContainer
  {
    hide Valid, AskSlot, ContentsKnown, HasMergeTarget;
    assert HeapOf(S)[item].parent == item.Above();
    assert HeapOf(S)[to].unlocked == to.unlocked;
    if to.unlocked {
      AnywhereIsSentTo(HeapOf(S), to, item, flags, dest, index, Optional(toItem));
    }
  }

  method InternalAddItem(to: Item, item: Item, flags: Flags, test: bool, ghost S: set<Item>)
    returns (ret: ReturnValue, remainderCount: int, ghost S': set<Item>)
    requires to in S && item in S && to.isContainer && item.parent == null
    requires Valid(HeapOf(S)) && StacksBounded(HeapOf(S)) && !flags.childIsOwner
    requires item.kind.stackable ==> item.count <= STACK_SIZE
    modifies S
    ensures S <= S' && fresh(S' - S) && remainderCount == 0
    ensures to in old(HeapOf(S)) && item in old(HeapOf(S)) && ContentsKnown(old(HeapOf(S)))
    ensures ret == NoError <==> Fits(old(HeapOf(S)), to, item, flags)
    ensures forall x | x in old(HeapOf(S))[to].contents :: x in old(HeapOf(S))
    ensures ret == NoError <==> FitLaw(old(HeapOf(S)), to, item, flags)
    ensures ret != NoError || test ==> S' == S && HeapOf(S) == old(HeapOf(S))
    ensures ret == NoError && !test ==>
              && Added(old(HeapOf(S)), HeapOf(S'), to, old(item.GetKey()), old(item.count), flags)
              && Filled(old(HeapOf(S)), HeapOf(S'), to, item, old(item.count),
                        LooksForStacks(old(HeapOf(S)), to, item, flags))
    decreases item.count, 1
  {
    hide *;
    ghost var h := HeapOf(S);
    remainderCount, S' := 0, S;
    KnownContents(h);
    var toCylinder, index, toItem := to.QueryDestination(INDEX_WHEREEVER, item, flags, null, S);
    SentFacts(S, to, item, flags, toCylinder, index, toItem);
    FitsIsDecided(h, to, item, flags, index, Optional(toItem));
    FitsMeans(h, to, item, flags);
    ret := toCylinder.QueryAdd(index, item, flags, S);
    if ret != NoError {
      return;
    }
    var maxQueryCount;
    ret, maxQueryCount := to.QueryMaxCount(INDEX_WHEREEVER, item, item.count, flags, S);
    if ret != NoError {
      return;
    }
    if test {
      return;
    }
    TargetFacts(S, to, item, flags, index, toItem);
    if item.kind.stackable && item.Equals(toItem) {
      var m := if item.count < maxQueryCount then item.count else maxQueryCount;
      remainderCount, S' := MergeAndAddRest(to, item, toItem, m, flags, S);
    } else {
      PutWhole(h, to, item, flags);
      PutFills(h, to, item, flags);
      toCylinder.AddThing(index, item, S);
    }
  }

  lemma TargetFacts(S: set<Item>, to: Item, item: Item, flags: Flags, index: int, toItem: Item?)
    requires to in S && item in S && ContentsKnown(HeapOf(S)) && (toItem != null ==> toItem in S)
    requires SentTo(HeapOf(S), to, item, flags, index, Optional(toItem))
    ensures HeapOf(S)[item].kind == item.kind && HeapOf(S)[item].count == item.count
    ensures item.kind.stackable && item.Equals(toItem) ==>
              toItem != null && MergeGranted(HeapOf(S), to, item, toItem, flags)
    ensures item.kind.stackable && item.Equals(toItem) ==> LooksForStacks(HeapOf(S), to, item, flags)
    ensures !(item.kind.stackable && item.Equals(toItem)) ==> index == INDEX_WHEREEVER && index < to.capacity
    ensures !(item.kind.stackable && item.Equals(toItem)) && HeapOf(S)[to].unlocked ==>
              !HasMergeTarget(HeapOf(S), to, item, flags)
  {
    hide ContentsKnown;
    EqualsInHeap(S, item, toItem);
  }

  ghost predicate MergeGranted<T>(h: Heap<T>, c: T, item: T, into: T, flags: Flags) {
    && c in h && item in h && into in h && into in h[c].contents && Mergeable(h, into, item)
    && h[item].kind.stackable && !flags.ignoreAutoStack
    && exists k :: FirstStack(h, h[c].contents, item, k) && h[c].contents[k] == into
  }

  /** Without a stack to merge with the item lies in front. */
  lemma PutFills<T>(h: Heap<T>, c: T, item: T, flags: Flags)
    requires Valid(h) && ContentsKnown(h) && c in h && item in h && c != item && h[item].parent == None
    requires !HasMergeTarget(h, c, item, flags)
    ensures Filled(h, Add(h, c, item, true), c, item, h[item].count, LooksForStacks(h, c, item, flags))
  {
    hide Valid, Add, Filled;
    NoFirstStack(h, c, item, flags);
    AddKeeps(h, c, item);
    FilledInFront(h, Add(h, c, item, true), c, item, LooksForStacks(h, c, item, flags));
  }

  lemma NoFirstStack<T>(h: Heap<T>, c: T, item: T, flags: Flags)
    requires ContentsKnown(h) && c in h && item in h && !HasMergeTarget(h, c, item, flags)
    ensures forall x | x in h[c].contents :: x in h
    ensures LooksForStacks(h, c, item, flags) ==> forall j :: !FirstStack(h, h[c].contents, item, j)
  {
  }

  /** Filling a stack is all there is to do when it has room for everything. */
  lemma MergeFills<T>(h: Heap<T>, c: T, item: T, into: T, flags: Flags)
    requires MergeGranted(h, c, item, into, flags) && Valid(h) && StacksBounded(h) && h[item].parent == None
    requires h[into].count + h[item].count <= STACK_SIZE
    ensures Filled(h, Updated(h, c, into, h[into].kind, h[into].count + h[item].count), c, item, h[item].count, true)
  {
    hide Valid, StacksBounded, Updated, CountsMove, Filled, FirstStack;
    var k := FirstOf(h, c, item, into, flags);
    MergeStep(h, c, into, h[item].count);
    ListFacts(h, c, item);
    FilledAtOnce(h, Updated(h, c, into, h[into].kind, h[into].count + h[item].count), c, item, k, h[item].count);
  }

  lemma FirstOf<T>(h: Heap<T>, c: T, item: T, into: T, flags: Flags) returns (k: nat)
    requires MergeGranted(h, c, item, into, flags)
    ensures k < |h[c].contents| && FirstStack(h, h[c].contents, item, k) && h[c].contents[k] == into
  {
    k :| FirstStack(h, h[c].contents, item, k) && h[c].contents[k] == into;
  }

  lemma ListFacts<T>(h: Heap<T>, c: T, item: T)
    requires Valid(h) && c in h && item in h && h[item].parent == None
    ensures Distinct(h[c].contents) && item !in h[c].contents && forall x | x in h[c].contents :: x in h
  {
    hide Balanced, Forest, ParentsLinked;
  }

  /** Filling a stack to its end and adding the rest fills all stacks in turn. */
  lemma RestFills<T>(h: Heap<T>, h2: Heap<T>, h3: Heap<T>, c: T, item: T, into: T, n: nat, copy: T, flags: Flags)
    requires MergeGranted(h, c, item, into, flags) && Valid(h) && h[item].parent == None
    requires RestIs(h, h2, c, item, into, n, copy) && n == STACK_SIZE - h[into].count < h[item].count
    requires Filled(h2, h3, c, copy, h[item].count - n, true)
    ensures Filled(h, h3, c, item, h[item].count, true)
  {
    hide Valid, StacksBounded, CountsMove, Inside, Filled, FirstStack;
    var k := FirstOf(h, c, item, into, flags);
    ListFacts(h, c, item);
    FilledOn(h, h2, h3, c, item, copy, k, h[item].count);
  }

  /** The rest looks for stacks as the item did. */
  lemma RestLooks<T>(h: Heap<T>, h2: Heap<T>, c: T, item: T, into: T, n: nat, copy: T, flags: Flags)
    requires MergeGranted(h, c, item, into, flags) && RestIs(h, h2, c, item, into, n, copy)
    ensures LooksForStacks(h2, c, copy, flags)
  {
    hide Valid, StacksBounded, CountsMove, Inside, FirstStack;
  }

  /** Fills the stack `toItem` and adds a copy with the rest, anywhere again. */
  method MergeAndAddRest(to: Item, item: Item, toItem: Item, m: nat, flags: Flags, ghost S: set<Item>)
    returns (remainderCount: int, ghost S': set<Item>)
    requires to in S && item in S && toItem in S && to.isContainer && item.parent == null
    requires Valid(HeapOf(S)) && StacksBounded(HeapOf(S)) && !flags.childIsOwner && ContentsKnown(HeapOf(S))
    requires to in HeapOf(S) && item in HeapOf(S) && Fits(HeapOf(S), to, item, flags)
    requires MergeGranted(HeapOf(S), to, item, toItem, flags)
    requires m == item.count <= STACK_SIZE
    modifies S
    ensures S <= S' && fresh(S' - S) && remainderCount == 0
    ensures Added(old(HeapOf(S)), HeapOf(S'), to, old(item.GetKey()), old(item.count), flags)
    ensures Filled(old(HeapOf(S)), HeapOf(S'), to, item, old(item.count), true)
    decreases item.count, 0
  {
    hide *;
    ghost var h := HeapOf(S);
    S' := S;
    remainderCount := 0;
    MergeFacts(S, to, item, toItem, flags);
    var n := if STACK_SIZE - toItem.count < m then STACK_SIZE - toItem.count else m;
    to.UpdateThing(toItem, toItem.kind, toItem.count + n, S);
    var count: nat := m - n;
    if count > 0 {
      if item.count != count {
        KeyAfterMerge(h, S, to, item, toItem, n);
        var remainderItem := CloneWith(item, count, S);
        HeapWithNew(S, remainderItem);
        S' := S + {remainderItem};
        MergePart(h, to, item, toItem, n, remainderItem, remainderItem.Record());
        ghost var h2 := HeapOf(S');
        RestFits(h, h2, to, item, toItem, n, remainderItem, flags);
        RestFacts(h, S', to, item, toItem, n, remainderItem);
        RestLooks(h, h2, to, item, toItem, n, remainderItem, flags);
        ghost var S0 := S';
        var retRest, ignored;
        retRest, ignored, S' := InternalAddItem(to, remainderItem, flags, false, S0);
        remainderCount := if retRest == NoError then 0 else count;
        AddedCompose(h, h2, HeapOf(S'), to, item, toItem, n, remainderItem, flags);
        RestFills(h, h2, HeapOf(S'), to, item, toItem, n, remainderItem, flags);
      } else {
        assert false;
      }
    } else {
      MergeWhole(h, to, item, toItem, flags);
      MergeFills(h, to, item, toItem, flags);
    }
  }

  lemma MergeFacts(S: set<Item>, to: Item, item: Item, toItem: Item, flags: Flags)
    requires to in S && item in S && toItem in S && item.parent == null
    requires Valid(HeapOf(S)) && StacksBounded(HeapOf(S))
    requires MergeGranted(HeapOf(S), to, item, toItem, flags)
    ensures var h := HeapOf(S);
            && h[item].GetKey() == item.GetKey() && h[item].count == item.count && h[item].parent == None
            && h[toItem].kind == toItem.kind && h[toItem].count == toItem.count
               && h[toItem].GetKey() == h[item].GetKey()
            && toItem in h[to].contents && h[item].kind.stackable && Mergeable(h, toItem, item)
            && !flags.ignoreAutoStack && toItem.count < STACK_SIZE && STACK_SIZE == 100
            && toItem != item && !item.isContainer && h[to].isContainer == to.isContainer
            && h[toItem].kind.stackable
            && forall k: nat | k <= STACK_SIZE :: Byte(k) == k
  {
    hide Forest, Balanced, ParentsLinked;
    assert HeapOf(S)[item].parent == item.Above();
    assert HeapOf(S)[toItem] == toItem.Record();
    assert HeapOf(S)[item] == item.Record();
    assert HeapOf(S)[to] == to.Record();
  }

  lemma KeyAfterMerge(h: Heap<Item>, S: set<Item>, c: Item, item: Item, into: Item, n: nat)
    requires Valid(h) && StacksBounded(h) && c in h && into in h && item in h && into in h[c].contents
    requires h[into].kind.stackable && h[into].count + n <= STACK_SIZE && item in S
    requires HeapOf(S) == Updated(h, c, into, h[into].kind, h[into].count + n)
    ensures item.GetKey() == h[item].GetKey()
  {
    hide Valid, StacksBounded, Updated, CountsMove;
    MergeStep(h, c, into, n);
    assert HeapOf(S)[item] == item.Record();
  }

  lemma RestFacts(h: Heap<Item>, S: set<Item>, c: Item, item: Item, into: Item, n: nat, copy: Item)
    requires c in h && item in h && into in h && c in S && copy in S
    requires RestIs(h, HeapOf(S), c, item, into, n, copy) && h[c].isContainer
    ensures Valid(HeapOf(S)) && StacksBounded(HeapOf(S)) && copy.parent == null && c.isContainer
    ensures copy.GetKey() == h[item].GetKey() && copy.count == h[item].count - n
    ensures copy.kind.stackable ==> HeapOf(S)[copy].kind == copy.kind
  {
    hide Valid, StacksBounded, CountsMove, Inside;
    assert HeapOf(S)[copy] == copy.Record();
    assert HeapOf(S)[c] == c.Record();
  }
}
