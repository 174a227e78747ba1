/** What a container answers when asked whether, how much and where something may be put. */
module CylinderQueries {
  import opened Sums
  import opened Options
  import opened Ancestry
  import opened ItemHeap

  const INDEX_WHEREEVER := -1
  const MOVE_UP := 254
  const ADD_WHEREVER := 255

  /** The flags of a query that a container looks at. */
  datatype Flags = Flags(
    noLimit: bool, childIsOwner: bool, ignoreNotPickupable: bool, ignoreNotMoveable: bool, ignoreAutoStack: bool)

  datatype ReturnValue =
    | NoError
    | NotPossible
    | ThisIsImpossible
    | CannotPickup
    | NotMoveable
    | ContainerNotEnoughRoom
    | NotEnoughRoom
    | ItemCannotBeMovedThere
    | QuiverAmmoOnly

  predicate IsFull<T>(r: Rec<T>) {
    |r.contents| >= r.capacity && !r.pagination
  }

  /** The answer of `queryAdd`. */
  ghost function CanAdd<T>(h: Heap<T>, c: T, item: T, index: int, flags: Flags): ReturnValue
    requires c in h && item in h
  {
    if flags.childIsOwner then NoError
    else if !h[c].unlocked then NotPossible
    else if !h[item].kind.pickupable && !flags.ignoreNotPickupable then CannotPickup
    else if item == c then ThisIsImpossible
    else if h[item].kind.storeItem then ItemCannotBeMovedThere
    else if h[c].kind.quiver && !h[item].kind.ammo then QuiverAmmoOnly
    else if Inside(Parents(h), c, item) then ThisIsImpossible
    else if !flags.noLimit && index == INDEX_WHEREEVER && IsFull(h[c]) then ContainerNotEnoughRoom
    else NoError
  }

  /** Every slot gets the same answer: only "anywhere" asks for a free one. */
  lemma SlotsAlike<T>(h: Heap<T>, c: T, item: T, i: int, j: int, flags: Flags)
    requires c in h && item in h && i != INDEX_WHEREEVER && j != INDEX_WHEREEVER
    ensures CanAdd(h, c, item, i, flags) == CanAdd(h, c, item, j, flags)
  {
  }

  /** `other` is another stack of the same kind with room left. */
  predicate Mergeable<T>(h: Heap<T>, other: T, item: T)
    requires other in h && item in h
  {
    h[other].GetKey() == h[item].GetKey() && h[other].count < STACK_SIZE
  }

  /** The room for `item` on every stack it could be merged with. */
  ghost function Rooms<T>(h: Heap<T>, item: T): map<T, int>
    requires item in h
  {
    map x | x in h :: if x != item && Mergeable(h, x, item) then STACK_SIZE - h[x].count else 0
  }

  function FreeSlots<T>(r: Rec<T>): nat {
    if r.capacity > |r.contents| then r.capacity - |r.contents| else 0
  }

  ghost function StackRoom<T>(h: Heap<T>, c: T, item: T, index: int, flags: Flags): int
    requires c in h && item in h
    requires forall x | x in h[c].contents :: x in h
  {
    if CanAdd(h, c, item, 0, flags) != NoError then 0
    else if index == INDEX_WHEREEVER then Sum(Rooms(h, item), h[c].contents)
    else if 0 <= index < |h[c].contents| && Mergeable(h, h[c].contents[index], item)
    then STACK_SIZE - h[h[c].contents[index]].count
    else 0
  }

  /** The amount answered by `queryMaxCount`. */
  ghost function MaxCount<T>(h: Heap<T>, c: T, item: T, index: int, count: nat, flags: Flags): int
    requires c in h && item in h
    requires forall x | x in h[c].contents :: x in h
  {
    if flags.noLimit || h[c].pagination then (if count < 1 then 1 else count)
    else if h[item].kind.stackable then FreeSlots(h[c]) * STACK_SIZE + StackRoom(h, c, item, index, flags)
    else FreeSlots(h[c])
  }

  /** The verdict answered by `queryMaxCount`. */
  ghost function MaxCountVerdict<T>(h: Heap<T>, c: T, item: T, index: int, count: nat, flags: Flags): ReturnValue
    requires c in h && item in h
    requires forall x | x in h[c].contents :: x in h
  {
    if flags.noLimit || h[c].pagination then NoError
    else if h[item].kind.stackable then
      if MaxCount(h, c, item, index, count, flags) < count then ContainerNotEnoughRoom else NoError
    else if FreeSlots(h[c]) == 0 then ContainerNotEnoughRoom
    else NoError
  }

  /** The answer of `queryRemove`. */
  function CanRemove<T>(h: Heap<T>, c: T, item: T, count: nat, flags: Flags): ReturnValue
    requires c in h && item in h
  {
    if item !in h[c].contents then NotPossible
    else if count == 0 || (h[item].kind.stackable && count > h[item].count) then NotPossible
    else if !h[item].kind.moveable && !flags.ignoreNotMoveable then NotMoveable
    else NoError
  }

  /** The index `queryDestination` works with: everything that is no slot of the container means anywhere. */
  function Normalised<T>(r: Rec<T>, index: int): int {
    if index == ADD_WHEREVER || index >= r.capacity then INDEX_WHEREEVER else index
  }

  /** Where a container sends an item: the container to ask next, the index there and the item found at it. */
  datatype Answer<T> = Answer(dest: T, index: int, into: Option<T>)

  /** The first other stack from position `k` on with room for the item, or -1. */
  ghost function FirstRoom<T>(h: Heap<T>, xs: seq<T>, item: T, k: nat): (r: int)
    requires item in h && k <= |xs| && forall x | x in xs :: x in h
    ensures r == -1 || (k <= r < |xs| && xs[r] != item && Mergeable(h, xs[r], item))
    ensures forall j | k <= j < (if r == -1 then |xs| else r) :: xs[j] == item || !Mergeable(h, xs[j], item)
    decreases |xs| - k
  {
    if k == |xs| then -1 else if xs[k] != item && Mergeable(h, xs[k], item) then k else FirstRoom(h, xs, item, k + 1)
  }

  /** The answer of `queryDestination` of an unlocked container that is not asked to move up. */
  ghost function AskSlot<T>(h: Heap<T>, c: T, index: int, item: T, flags: Flags): Answer<T>
    requires c in h && item in h
    requires forall x | x in h[c].contents :: x in h
  {
    var xs := h[c].contents;
    var i := Normalised(h[c], index);
    // a container in the slot takes the item in
    if 0 <= i < |xs| && h[xs[i]].isContainer then Answer(xs[i], INDEX_WHEREEVER, None)
    else
      var direct := if 0 <= i < |xs| then Some(xs[i]) else None;
      if flags.ignoreAutoStack || !h[item].kind.stackable || h[item].parent == Some(c) then Answer(c, i, direct)
      else if direct.Some? && Mergeable(h, direct.value, item) then Answer(c, i, direct)
      else
        var k := FirstRoom(h, xs, item, 0);
        if k >= 0 then Answer(c, k, Some(xs[k])) else Answer(c, i, direct)
  }

  /** The answer of `queryDestination`. */
  ghost function Ask<T>(h: Heap<T>, c: T, index: int, item: T, flags: Flags): Answer<T>
    requires c in h && item in h
    requires forall x | x in h[c].contents :: x in h
  {
    if !h[c].unlocked then Answer(c, index, None)
    else if index == MOVE_UP then Answer(if h[c].parent.Some? then h[c].parent.value else c, INDEX_WHEREEVER, None)
    else AskSlot(h, c, index, item, flags)
  }

  // ----- What each answer means

  /** A container takes an item in, if only it has a place for it. */
  ghost predicate Welcomes<T>(h: Heap<T>, c: T, item: T, flags: Flags)
    requires c in h && item in h
  {
    && h[c].unlocked && (h[item].kind.pickupable || flags.ignoreNotPickupable) && item != c && !h[item].kind.storeItem
    && (h[c].kind.quiver ==> h[item].kind.ammo) && !Inside(Parents(h), c, item)
  }

  /**
   No error means that the item is welcome and, if it may go anywhere, that a slot is free; each error has one reason.
   */
  ghost predicate AddVerdict<T>(h: Heap<T>, c: T, item: T, index: int, flags: Flags, ret: ReturnValue)
    requires c in h && item in h
  {
    var r, x := h[c], h[item];
    var light := x.kind.pickupable || flags.ignoreNotPickupable;
    if flags.childIsOwner then ret == NoError
    else
      && (ret == NoError <==>
            && Welcomes(h, c, item, flags)
            && (flags.noLimit || index != -1 || |r.contents| < r.capacity || r.pagination))
      && (ret == NotPossible <==> !r.unlocked)
      && (ret == CannotPickup <==> r.unlocked && !light)
      && (ret == ItemCannotBeMovedThere <==> r.unlocked && light && item != c && x.kind.storeItem)
      && (ret == QuiverAmmoOnly <==>
            r.unlocked && light && item != c && !x.kind.storeItem && r.kind.quiver && !x.kind.ammo)
      && (ret == ThisIsImpossible <==>
            && r.unlocked && light
            && (item == c || (!x.kind.storeItem && (r.kind.quiver ==> x.kind.ammo) && Inside(Parents(h), c, item))))
      && (ret == ContainerNotEnoughRoom <==>
            && Welcomes(h, c, item, flags)
            && !flags.noLimit && index == -1 && |r.contents| >= r.capacity && !r.pagination)
  }

  lemma CanAddMeans<T>(h: Heap<T>, c: T, item: T, index: int, flags: Flags)
    requires c in h && item in h
    ensures AddVerdict(h, c, item, index, flags, CanAdd(h, c, item, index, flags))
  {
    hide Inside;
  }

  /** The pieces of an item that one stack can still take. */
  ghost function RoomOn<T>(h: Heap<T>, item: T, x: T): nat
    requires item in h
  {
    if x != item && HasRoom(h, item, x) then 100 - h[x].count else 0
  }

  ghost function RoomIn<T>(h: Heap<T>, item: T, xs: seq<T>): nat
    requires item in h
  {
    if xs == [] then 0 else RoomOn(h, item, xs[0]) + RoomIn(h, item, xs[1..])
  }

  lemma {:induction false} RoomIsSum<T>(h: Heap<T>, item: T, xs: seq<T>)
    requires item in h && forall x | x in xs :: x in h
    ensures RoomIn(h, item, xs) == Sum(Rooms(h, item), xs)
  {
    if xs != [] {
      assert RoomOn(h, item, xs[0]) == Value(Rooms(h, item), xs[0]);
      RoomIsSum(h, item, xs[1..]);
    }
  }

  /**
   How much of an item fits: whatever is asked for where there is no limit; else a full stack in every free slot and,
   if the item is welcome, what the stacks of its kind can still take, or the one in the slot asked for.
   */
  ghost predicate CountLaw<T>(h: Heap<T>, c: T, item: T, index: int, count: nat, flags: Flags, max: int)
    requires c in h && item in h && forall x | x in h[c].contents :: x in h
  {
    var xs := h[c].contents;
    var free := if |xs| < h[c].capacity then h[c].capacity - |xs| else 0;
    var welcome := flags.childIsOwner || Welcomes(h, c, item, flags);
    if flags.noLimit || h[c].pagination then max == (if count == 0 then 1 else count)
    else if !h[item].kind.stackable then max == free
    else if index == -1 then max == 100 * free + if welcome then RoomIn(h, item, xs) else 0
    else max == 100 * free + if welcome && 0 <= index < |xs| && HasRoom(h, item, xs[index])
                             then 100 - h[xs[index]].count else 0
  }

  lemma MaxCountMeans<T>(h: Heap<T>, c: T, item: T, index: int, count: nat, flags: Flags)
    requires c in h && item in h && forall x | x in h[c].contents :: x in h
    ensures CountLaw(h, c, item, index, count, flags, MaxCount(h, c, item, index, count, flags))
  {
    hide Inside, Welcomes, CanAdd;
    RoomIsSum(h, item, h[c].contents);
    WelcomeAtSlots(h, c, item, flags);
  }

  lemma WelcomeAtSlots<T>(h: Heap<T>, c: T, item: T, flags: Flags)
    requires c in h && item in h
    ensures CanAdd(h, c, item, 0, flags) == NoError <==> flags.childIsOwner || Welcomes(h, c, item, flags)
  {
    hide Inside;
  }

  // ----- Where a container sends an item, told from its list

  /** The first other stack of the kind of an item in a list that has room. */
  ghost predicate FirstStack<T>(h: Heap<T>, xs: seq<T>, item: T, j: int)
    requires item in h
  {
    && 0 <= j < |xs| && xs[j] != item && HasRoom(h, item, xs[j])
    && forall i | 0 <= i < j :: xs[i] == item || !HasRoom(h, item, xs[i])
  }

  ghost predicate HasRoom<T>(h: Heap<T>, item: T, x: T)
    requires item in h
  {
    x in h && h[x].kind == h[item].kind && h[x].attrs == h[item].attrs && h[x].count < 100
  }

  /** Whether an item looks for a stack to join in a container: a stack from elsewhere, unless that is switched off. */
  predicate LooksForStacks<T>(h: Heap<T>, c: T, item: T, flags: Flags)
    requires item in h
  {
    h[item].kind.stackable && !flags.ignoreAutoStack && h[item].parent != Some(c)
  }

  /** What lies in the slot asked for; 255, and whatever is no slot of the container, asks for none. */
  function Slot<T>(r: Rec<T>, index: int): Option<T> {
    if 0 <= index < |r.contents| && index < r.capacity && index != 255 then Some(r.contents[index]) else None
  }

  /**
   A locked container keeps the request, 254 asks the container around, a container in the slot is asked next. Any other
   answer is the container itself with the stack to merge with: the one in the slot if it has room, else the first one
   that has, for items that look for stacks; else whatever lies in the slot.
   */
  ghost predicate AskLaw<T>(h: Heap<T>, c: T, index: int, item: T, flags: Flags, a: Answer<T>)
    requires c in h && item in h && forall x | x in h[c].contents :: x in h
  {
    var xs, slot := h[c].contents, Slot(h[c], index);
    if !h[c].unlocked then a == Answer(c, index, None)
    else if index == 254 then a == Answer(if h[c].parent.Some? then h[c].parent.value else c, -1, None)
    else if slot.Some? && h[slot.value].isContainer then a == Answer(slot.value, -1, None)
    else if LooksForStacks(h, c, item, flags) && !(slot.Some? && HasRoom(h, item, slot.value))
            && exists j :: FirstStack(h, xs, item, j)
    then exists j :: FirstStack(h, xs, item, j) && a == Answer(c, j, Some(xs[j]))
    else a == Answer(c, if index == 255 || index >= h[c].capacity then -1 else index, slot)
  }

  lemma AskIsLawful<T>(h: Heap<T>, c: T, index: int, item: T, flags: Flags)
    requires c in h && item in h && forall x | x in h[c].contents :: x in h
    ensures AskLaw(h, c, index, item, flags, Ask(h, c, index, item, flags))
  {
    hide FirstRoom, FirstStack;
    var xs, slot := h[c].contents, Slot(h[c], index);
    FirstRoomIsFirst(h, xs, item);
    assert slot.Some? ==> slot.value in xs;
  }

  lemma FirstRoomIsFirst<T>(h: Heap<T>, xs: seq<T>, item: T)
    requires item in h && forall x | x in xs :: x in h
    ensures var k := FirstRoom(h, xs, item, 0);
            if k >= 0 then FirstStack(h, xs, item, k) else forall j :: !FirstStack(h, xs, item, j)
  {
    hide FirstRoom;
    assert forall j | 0 <= j < |xs| :: xs[j] in h && (HasRoom(h, item, xs[j]) <==> Mergeable(h, xs[j], item));
  }

  /**
   An answer never leaves an index behind that `addThing` would drop, unless a stack is merged with, which then lies
   in the destination.
   */
  lemma DestinationIsSafe<T>(h: Heap<T>, c: T, index: int, item: T, flags: Flags)
    requires c in h && item in h
    requires forall x | x in h[c].contents :: x in h
    ensures var a := AskSlot(h, c, index, item, flags);
            && (a.dest == c || (a.dest in h[c].contents && h[a.dest].isContainer))
            && (a.dest != c ==> a.index == INDEX_WHEREEVER && a.into == None)
            && (a.dest == c && a.into == None ==> a.index < h[c].capacity || a.index == INDEX_WHEREEVER)
            && (a.into.Some? ==> a.into.value in h[c].contents)
  {
  }
}
