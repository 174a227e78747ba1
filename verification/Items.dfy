/** Items and containers as objects: the fields the server keeps for them and every operation that changes them. */
module Items {
  import opened Sums
  import opened Options
  import opened Ancestry
  import opened ItemHeap
  import opened CylinderQueries

  /** Truncation to an unsigned byte, the width of an item's count. */
  function Byte(n: int): nat {
    n % 256
  }

  /** Reading of an unsigned 32-bit difference as a signed word. */
  function Signed(n: int): int {
    var w := n % WORD;
    if w < 0x8000_0000 then w else w - WORD
  }

  /** An item; a container is an item with `isContainer`. The parent is null when it is no container. */
  class Item {
    var kind: ItemType
    var attrs: nat
    var count: nat
    var subType: nat
    var parent: Item?

    const isContainer: bool
    const capacity: nat
    const unlocked: bool
    const pagination: bool
    var itemlist: seq<Item>
    var totalWeight: Word
    var ammoCount: Word

    constructor (kind: ItemType, attrs: nat, count: nat, isContainer: bool, capacity: nat, unlocked: bool,
                 pagination: bool)
      ensures this.kind == kind && this.attrs == attrs && this.count == count && parent == null
      ensures this.isContainer == isContainer && this.capacity == capacity
      ensures this.unlocked == unlocked && this.pagination == pagination
      ensures itemlist == [] && totalWeight == 0 && ammoCount == 0 && subType == 0
    {
      this.kind, this.attrs, this.count, this.subType := kind, attrs, count, 0;
      this.parent := null;
      this.isContainer, this.capacity, this.unlocked, this.pagination := isContainer, capacity, unlocked, pagination;
      this.itemlist, this.totalWeight, this.ammoCount := [], 0, 0;
    }

    /** The parent, as an option. */
    ghost function Above(): Option<Item>
      reads this
    {
      Optional(parent)
    }

    ghost function Record(): Rec<Item>
      reads this
    {
      Rec(kind, attrs, count, subType, Above(),
          isContainer, capacity, unlocked, pagination, itemlist, totalWeight, ammoCount)
    }

    function GetKey(): Key
      reads this
    {
      Key(kind, attrs)
    }

    predicate Equals(other: Item?)
      reads this, other
    {
      other != null && GetKey() == other.GetKey()
    }

    function GetWeight(): (w: int)
      reads this
      ensures w == Record().Weight()
    {
      if isContainer then (StackWeight(kind, count) + totalWeight) % WORD else StackWeight(kind, count)
    }

    function GetItemByIndex(index: int): Item?
      reads this
    {
      if 0 <= index < |itemlist| then itemlist[index] else null
    }

    /** Position of `thing` in this container, or -1. */
    method GetThingIndex(thing: Item) returns (index: int)
      ensures index == -1 <==> thing !in itemlist
      ensures index != -1 ==> 0 <= index < |itemlist| && itemlist[index] == thing && thing !in itemlist[..index]
    {
      index := 0;
      while index < |itemlist|
        invariant 0 <= index <= |itemlist|
        invariant thing !in itemlist[..index]
      {
        if itemlist[index] == thing {
          return;
        }
        index := index + 1;
      }
      index := -1;
    }

    /** The change of an item's type and subtype; fluids and charged items keep their count. */
    method SetSubType(n: nat)
      modifies this`count, this`subType
      ensures count == CountAfter(kind, old(count), n) && subType == SubTypeAfter(kind, old(subType), n)
    {
      if kind.fluid {
        subType := n % 0x1_0000;
      } else if kind.stackable {
        count := Byte(n);
      } else if kind.charges != 0 {
        subType := n % 0x1_0000;
      } else {
        count := Byte(n);
      }
    }

    /** Adds `diff` to the cached weight here and on every enclosing container. */
    method UpdateItemWeight(diff: int, ghost S: set<Item>, ghost n: nat)
      requires this in S && ParentsKnown(HeapOf(S)) && Forest(Parents(HeapOf(S)))
      requires Up(Parents(HeapOf(S)), Some(this), n) == None
      modifies S`totalWeight
      ensures HeapOf(S) == ShiftWeights(old(HeapOf(S)), this, diff)
      decreases n
    {
      hide *;
      ghost var h := HeapOf(S);
      ShiftReady(S, this, diff, n);
      ShiftHere(diff, S);
      if parent != null {
        parent.UpdateItemWeight(diff, S, n - 1);
      }
    }

    method ShiftHere(diff: int, ghost S: set<Item>)
      requires this in S
      modifies this`totalWeight
      ensures this in old(HeapOf(S)) && HeapOf(S) == old(HeapOf(S))[this := old(HeapOf(S))[this].Shifted(diff)]
    {
      ghost var h := HeapOf(S);
      totalWeight := (totalWeight + diff) % WORD;
      PatchedHeap(S, h, this);
    }

    /** The same, started where every chain ends. */
    method Propagate(diff: int, ghost S: set<Item>)
      requires this in S && Walkable(HeapOf(S), this)
      modifies S`totalWeight
      ensures HeapOf(S) == ShiftWeights(old(HeapOf(S)), this, diff)
    {
      UpdateItemWeight(diff, S, NestingBound(HeapOf(S)));
    }

    // ----- Single field updates, stated on the whole heap

    method CountAmmo(diff: int, ghost S: set<Item>)
      requires this in S
      modifies this`ammoCount
      ensures this in old(HeapOf(S)) && HeapOf(S) == old(HeapOf(S))[this := old(HeapOf(S))[this].Ammo(diff)]
    {
      ghost var h := HeapOf(S);
      ammoCount := (ammoCount + diff) % WORD;
      PatchedHeap(S, h, this);
    }

    /** Sets the parent and pushes the item to the front or to the back of the list. */
    method Hang(item: Item, front: bool, ghost S: set<Item>)
      requires this in S && item in S && this != item
      modifies this`itemlist, item`parent
      ensures HeapOf(S) == Hung(old(HeapOf(S)), this, item, front)
    {
      ghost var h := HeapOf(S);
      item.parent := this;
      PatchedHeap(S, h, item);
      ghost var h1 := HeapOf(S);
      itemlist := if front then [item] + itemlist else itemlist + [item];
      PatchedHeap(S, h1, this);
    }

    /** Uncounts the content at `index` and lists `item` in its place. */
    method Exchange(replaced: Item, index: nat, item: Item, ghost S: set<Item>)
      requires this in S && item in S && replaced in S && this != item && this != replaced && item != replaced
      requires index < |itemlist| && itemlist[index] == replaced
      modifies this`itemlist, this`ammoCount, item`parent
      ensures replaced in old(HeapOf(S)) && old(HeapOf(S))[this].contents == old(itemlist)
      ensures HeapOf(S) == Exchanged(old(HeapOf(S)), this, index, item)
    {
      hide *;
      ghost var h := HeapOf(S);
      HeapAt(S, this);
      HeapAt(S, item);
      HeapAt(S, replaced);
      ExchangedSteps(h, this, index, item);
      CountAmmo(0 - replaced.count, S);
      SetItemList(itemlist[index := item], S);
      item.SetParent(this, S);
    }

    method SetTypeAndCount(kind: ItemType, n: nat, ghost S: set<Item>)
      requires this in S
      modifies this`kind, this`count, this`subType
      ensures this in old(HeapOf(S))
      ensures var r := old(HeapOf(S))[this];
              HeapOf(S) == old(HeapOf(S))[this := r.(kind := kind, count := CountAfter(kind, r.count, n),
                                                     subType := SubTypeAfter(kind, r.subType, n))]
    {
      ghost var h := HeapOf(S);
      this.kind := kind;
      SetSubType(n);
      PatchedHeap(S, h, this);
    }

    method SetItemCount(n: nat, ghost S: set<Item>)
      requires this in S
      modifies this`count
      ensures this in old(HeapOf(S))
      ensures HeapOf(S) == old(HeapOf(S))[this := old(HeapOf(S))[this].(count := Byte(n))]
    {
      ghost var h := HeapOf(S);
      count := Byte(n);
      PatchedHeap(S, h, this);
    }

    method SetParent(p: Item?, ghost S: set<Item>)
      requires this in S
      modifies this`parent
      ensures this in old(HeapOf(S))
      ensures HeapOf(S) == old(HeapOf(S))[this := old(HeapOf(S))[this].(parent := Optional(p))]
    {
      ghost var h := HeapOf(S);
      parent := p;
      PatchedHeap(S, h, this);
    }

    method SetItemList(list: seq<Item>, ghost S: set<Item>)
      requires this in S
      modifies this`itemlist
      ensures this in old(HeapOf(S))
      ensures HeapOf(S) == old(HeapOf(S))[this := old(HeapOf(S))[this].(contents := list)]
    {
      ghost var h := HeapOf(S);
      itemlist := list;
      PatchedHeap(S, h, this);
    }

    // ----- The operations of a container

    /** Puts `item` in front, unless the index lies beyond the capacity: then nothing happens at all. */
    method AddThing(index: int, item: Item, ghost S: set<Item>)
      requires this in S && item in S && isContainer && Valid(HeapOf(S))
      requires item.parent == null && !Inside(Parents(HeapOf(S)), this, item)
      modifies this`itemlist, this`ammoCount, item`parent, S`totalWeight
      ensures HeapOf(S) == if index >= capacity then old(HeapOf(S)) else Add(old(HeapOf(S)), this, item, true)
      ensures Valid(HeapOf(S))
    {
      if index >= capacity {
        return;
      }
      InternalAddThing(item, S);
    }

    /** Puts `item` in front, whatever the capacity. */
    method InternalAddThing(item: Item, ghost S: set<Item>)
      requires this in S && item in S && isContainer && Valid(HeapOf(S))
      requires item.parent == null && !Inside(Parents(HeapOf(S)), this, item)
      modifies this`itemlist, this`ammoCount, item`parent, S`totalWeight
      ensures HeapOf(S) == Add(old(HeapOf(S)), this, item, true)
      ensures Valid(HeapOf(S))
    {
      AddAt(item, true, S);
    }

    /** Puts `item` at the back, whatever the capacity. */
    method AddItemBack(item: Item, ghost S: set<Item>)
      requires this in S && item in S && isContainer && Valid(HeapOf(S))
      requires item.parent == null && !Inside(Parents(HeapOf(S)), this, item)
      modifies this`itemlist, this`ammoCount, item`parent, S`totalWeight
      ensures HeapOf(S) == Add(old(HeapOf(S)), this, item, false)
      ensures Valid(HeapOf(S))
    {
      AddAt(item, false, S);
    }

    method AddAt(item: Item, front: bool, ghost S: set<Item>)
      requires this in S && item in S && isContainer && Valid(HeapOf(S))
      requires item.parent == null && !Inside(Parents(HeapOf(S)), this, item)
      modifies this`itemlist, this`ammoCount, item`parent, S`totalWeight
      ensures HeapOf(S) == Add(old(HeapOf(S)), this, item, front)
      ensures Valid(HeapOf(S))
    {
      hide *;
      ghost var h := HeapOf(S);
      HeapAt(S, this);
      HeapAt(S, item);
      AddReady(h, this, item, front);
      var weight := item.GetWeight();
      Hang(item, front, S);
      Propagate(weight, S);
      CountAmmo(item.count, S);
    }

    /** Gives a content another type and count; an item that is not here is left alone. */
    method UpdateThing(thing: Item, kind: ItemType, n: nat, ghost S: set<Item>)
      requires this in S && thing in S && Valid(HeapOf(S))
      modifies this`ammoCount, thing`kind, thing`count, thing`subType, S`totalWeight
      ensures HeapOf(S) == Updated(old(HeapOf(S)), this, thing, kind, n)
      ensures Valid(HeapOf(S))
      ensures thing in old(itemlist) ==>
                && thing.kind == kind
                && if kind.fluid || (!kind.stackable && kind.charges > 0)
                   then thing.subType == n % 0x1_0000 && thing.count == old(thing.count)
                   else thing.count == n % 256 && thing.subType == old(thing.subType)
      ensures thing !in old(itemlist) ==> HeapOf(S) == old(HeapOf(S))
    {
      var index := GetThingIndex(thing);
      if index == -1 {
        return;
      }
      UpdateHeld(thing, kind, n, S);
    }

    method UpdateHeld(thing: Item, kind: ItemType, n: nat, ghost S: set<Item>)
      requires this in S && thing in S && Valid(HeapOf(S)) && thing in itemlist
      modifies this`ammoCount, thing`kind, thing`count, thing`subType, S`totalWeight
      ensures HeapOf(S) == Updated(old(HeapOf(S)), this, thing, kind, n)
      ensures Valid(HeapOf(S))
      ensures thing.kind == kind
      ensures if kind.fluid || (!kind.stackable && kind.charges > 0)
              then thing.subType == n % 0x1_0000 && thing.count == old(thing.count)
              else thing.count == n % 256 && thing.subType == old(thing.subType)
    {
      hide *;
      ghost var h := HeapOf(S);
      HeapAt(S, this);
      HeapAt(S, thing);
      UpdateReady(h, this, thing, kind, n);
      CountAmmo(n - thing.count, S);
      var oldWeight := thing.GetWeight();
      thing.SetTypeAndCount(kind, n, S);
      HeapAt(S, thing);
      Propagate(-oldWeight + thing.GetWeight(), S);
      UpdatedTo(h, this, thing, kind, n);
      HeapAt(S, thing);
    }

    /** Puts `item` in the place of the content at `index`, which ends without parent. */
    method ReplaceThing(index: int, item: Item, ghost S: set<Item>)
      requires this in S && item in S && isContainer && Valid(HeapOf(S))
      requires item.parent == null && !Inside(Parents(HeapOf(S)), this, item)
      modifies this`itemlist, this`ammoCount, item`parent, S`totalWeight, S`parent
      ensures 0 <= index < |old(itemlist)| ==>
                && old(itemlist)[index] in S && this != item
                && HeapOf(S) == Replace(old(HeapOf(S)), this, index, item)
      ensures !(0 <= index < |old(itemlist)|) ==> HeapOf(S) == old(HeapOf(S))
      ensures Valid(HeapOf(S))
    {
      var replaced := GetItemByIndex(index);
      if replaced == null {
        return;
      }
      PutInPlace(replaced, index, item, S);
    }

    method PutInPlace(replaced: Item, index: nat, item: Item, ghost S: set<Item>)
      requires this in S && item in S && replaced in S && isContainer && Valid(HeapOf(S))
      requires index < |itemlist| && itemlist[index] == replaced
      requires item.parent == null && !Inside(Parents(HeapOf(S)), this, item)
      modifies this`itemlist, this`ammoCount, item`parent, S`totalWeight, replaced`parent
      ensures replaced in old(HeapOf(S)) && this != item && old(HeapOf(S))[this].contents == old(itemlist)
      ensures HeapOf(S) == Replace(old(HeapOf(S)), this, index, item)
      ensures Valid(HeapOf(S))
    {
      hide *;
      ghost var h := HeapOf(S);
      HeapAt(S, this);
      HeapAt(S, item);
      ReplaceReady(h, this, index, item);
      HeapAt(S, replaced);
      ExchangedWalkable(h, this, index, item);
      ReplaceSteps(h, this, index, item);
      var diff := -replaced.GetWeight() + item.GetWeight();
      Exchange(replaced, index, item, S);
      Propagate(diff, S);
      CountAmmo(item.count, S);
      replaced.SetParent(null, S);
    }

    /** Takes `count` pieces of a stack, or the whole item; an item that is not here is left alone. */
    method RemoveThing(thing: Item, count: nat, ghost S: set<Item>)
      requires this in S && thing in S && Valid(HeapOf(S))
      modifies this`ammoCount, this`itemlist, thing`count, thing`parent, S`totalWeight
      ensures HeapOf(S) == Removed(old(HeapOf(S)), this, thing, count)
      ensures Valid(HeapOf(S))
    {
      var index := GetThingIndex(thing);
      if index == -1 {
        return;
      }
      hide *;
      RemovedCases(S, this, thing, count, index);
      if thing.kind.stackable && count != thing.count {
        TakeFromStack(thing, count, S);
      } else {
        TakeOut(thing, index, S);
      }
    }

    method TakeFromStack(thing: Item, count: nat, ghost S: set<Item>)
      requires this in S && thing in S && Valid(HeapOf(S)) && thing in itemlist
      requires thing.kind.stackable && count != thing.count
      modifies this`ammoCount, thing`count, S`totalWeight
      ensures HeapOf(S) == Removed(old(HeapOf(S)), this, thing, count)
      ensures Valid(HeapOf(S))
    {
      hide *;
      var newCount := CountLeft(thing.count, count);
      ghost var h := HeapOf(S);
      HeapAt(S, this);
      HeapAt(S, thing);
      TakeReady(h, this, thing, count);
      var oldWeight := thing.GetWeight();
      CountAmmo(newCount - thing.count, S);
      thing.SetItemCount(newCount, S);
      HeapAt(S, thing);
      Propagate(-oldWeight + thing.GetWeight(), S);
    }

    method TakeOut(thing: Item, index: nat, ghost S: set<Item>)
      requires this in S && thing in S && Valid(HeapOf(S))
      requires index < |itemlist| && itemlist[index] == thing && thing !in itemlist[..index]
      modifies this`ammoCount, this`itemlist, thing`parent, S`totalWeight
      ensures thing in old(HeapOf(S)) && this != thing
      ensures HeapOf(S) == Unlink(old(HeapOf(S)), this, index)
      ensures Valid(HeapOf(S))
    {
      hide *;
      ghost var h := HeapOf(S);
      HeapAt(S, this);
      HeapAt(S, thing);
      UnlinkReady(h, this, index);
      Propagate(-thing.GetWeight(), S);
      CountAmmo(0 - thing.count, S);
      thing.SetParent(null, S);
      SetItemList(itemlist[..index] + itemlist[index + 1..], S);
    }

    // ----- Queries

    /** Walks up the parents in search of `thing`. */
    method IsEnclosedBy(thing: Item, ghost S: set<Item>) returns (found: bool)
      requires this in S && thing in S && this != thing && Valid(HeapOf(S))
      ensures found <==> Inside(Parents(HeapOf(S)), this, thing)
    {
      hide *;
      ChainBound(S, this);
      ghost var p := Parents(HeapOf(S));
      ghost var n := NestingBound(HeapOf(S));
      var cylinder := parent;
      ChainStep(S, this, thing);
      while cylinder != null
        invariant cylinder != null ==> cylinder in S && var c: Item := cylinder; Up(p, Some(c), n) == None
        invariant p == Parents(HeapOf(S))
        invariant Inside(p, this, thing) <==> cylinder != null && var c: Item := cylinder; Inside(p, c, thing)
        decreases if cylinder == null then 0 else 1, n
      {
        if cylinder == thing {
          InsideRefl(p, thing);
          return true;
        }
        ChainStep(S, cylinder, thing);
        UpStep(S, cylinder, n);
        cylinder := cylinder.parent;
        n := n - 1;
      }
      found := false;
    }

    method QueryAdd(index: int, thing: Item, flags: Flags, ghost S: set<Item>) returns (ret: ReturnValue)
      requires this in S && thing in S && Valid(HeapOf(S))
      ensures ret == CanAdd(HeapOf(S), this, thing, index, flags)
      ensures AddVerdict(HeapOf(S), this, thing, index, flags, ret)
    {
      hide AddVerdict;
      CanAddMeans(HeapOf(S), this, thing, index, flags);
      if flags.childIsOwner {
        return NoError;
      }
      if !unlocked {
        return NotPossible;
      }
      if !(thing.kind.pickupable || flags.ignoreNotPickupable) {
        return CannotPickup;
      }
      if thing == this {
        return ThisIsImpossible;
      }
      if thing.kind.storeItem {
        return ItemCannotBeMovedThere;
      }
      if kind.quiver && !thing.kind.ammo {
        return QuiverAmmoOnly;
      }
      var enclosed := IsEnclosedBy(thing, S);
      if enclosed {
        return ThisIsImpossible;
      }
      if !flags.noLimit && index == INDEX_WHEREEVER && |itemlist| >= capacity && !pagination {
        return ContainerNotEnoughRoom;
      }
      return NoError;
    }

    method QueryMaxCount(index: int, item: Item, count: nat, flags: Flags, ghost S: set<Item>)
      returns (ret: ReturnValue, maxQueryCount: int)
      requires this in S && item in S && Valid(HeapOf(S))
      ensures ContentsKnown(HeapOf(S))
      ensures maxQueryCount == MaxCount(HeapOf(S), this, item, index, count, flags)
      ensures ret == MaxCountVerdict(HeapOf(S), this, item, index, count, flags)
      ensures CountLaw(HeapOf(S), this, item, index, count, flags, maxQueryCount)
    {
      hide CountLaw;
      KnownContents(HeapOf(S));
      MaxCountMeans(HeapOf(S), this, item, index, count, flags);
      if flags.noLimit || pagination {
        return NoError, if count < 1 then 1 else count;
      }
      var freeSlots := if capacity > |itemlist| then capacity - |itemlist| else 0;
      if !item.kind.stackable {
        return if freeSlots == 0 then ContainerNotEnoughRoom else NoError, freeSlots;
      }
      var n := QueryStackRoom(index, item, flags, S);
      maxQueryCount := freeSlots * STACK_SIZE + n;
      ret := if maxQueryCount < count then ContainerNotEnoughRoom else NoError;
    }

    /** The room on the stacks already here: on all of them, or on the one in the slot asked for. */
    method QueryStackRoom(index: int, item: Item, flags: Flags, ghost S: set<Item>) returns (n: int)
      requires this in S && item in S && Valid(HeapOf(S)) && ContentsKnown(HeapOf(S))
      ensures n == StackRoom(HeapOf(S), this, item, index, flags)
    {
      hide Valid, CanAdd, Rooms;
      ghost var h := HeapOf(S);
      assert h[this].contents == itemlist;
      n := 0;
      if index == INDEX_WHEREEVER {
        var slotIndex := 0;
        var k := 0;
        while k < |itemlist|
          invariant 0 <= k <= |itemlist| && 0 <= slotIndex
          invariant n == if CanAdd(h, this, item, 0, flags) == NoError then Sum(Rooms(h, item), itemlist[..k]) else 0
        {
          var other := itemlist[k];
          RoomStep(h, this, item, k);
          if other != item && other.Equals(item) && other.count < STACK_SIZE {
            var ret := QueryAdd(slotIndex, item, flags, S);
            SlotsAlike(h, this, item, slotIndex, 0, flags);
            slotIndex := slotIndex + 1;
            if ret == NoError {
              n := n + (STACK_SIZE - other.count);
            }
          }
          k := k + 1;
        }
        assert itemlist[..k] == itemlist;
      } else {
        var destItem := GetItemByIndex(index);
        if item.Equals(destItem) && destItem.count < STACK_SIZE {
          var ret := QueryAdd(index, item, flags, S);
          SlotsAlike(h, this, item, index, 0, flags);
          if ret == NoError {
            n := STACK_SIZE - destItem.count;
          }
        }
      }
    }

    method QueryRemove(thing: Item, count: nat, flags: Flags, ghost S: set<Item>) returns (ret: ReturnValue)
      requires this in S && thing in S
      ensures ret == CanRemove(HeapOf(S), this, thing, count, flags)
      ensures ret == NoError <==>
                && thing in itemlist && 0 < count && (thing.kind.stackable ==> count <= thing.count)
                && (thing.kind.moveable || flags.ignoreNotMoveable)
      ensures ret == NotMoveable <==>
                && thing in itemlist && 0 < count && (thing.kind.stackable ==> count <= thing.count)
                && !(thing.kind.moveable || flags.ignoreNotMoveable)
    {
      var index := GetThingIndex(thing);
      if index == -1 {
        return NotPossible;
      }
      if count == 0 || (thing.kind.stackable && count > thing.count) {
        return NotPossible;
      }
      if !thing.kind.moveable && !flags.ignoreNotMoveable {
        return NotMoveable;
      }
      return NoError;
    }

    /** Decides the container, the index and the stack to merge with; `destItem` comes in and goes out. */
    method QueryDestination(index: int, thing: Item, flags: Flags, destItem: Item?, ghost S: set<Item>)
      returns (dest: Item, index': int, destItem': Item?)
      requires this in S && thing in S && Valid(HeapOf(S)) && destItem == null
      ensures ContentsKnown(HeapOf(S)) && dest in S && (destItem' != null ==> destItem' in S)
      ensures Answer(dest, index', Optional(destItem')) == Ask(HeapOf(S), this, index, thing, flags)
      ensures AskLaw(HeapOf(S), this, index, thing, flags, Answer(dest, index', Optional(destItem')))
    {
      hide Valid, AskLaw;
      KnownContents(HeapOf(S));
      AskIsLawful(HeapOf(S), this, index, thing, flags);
      if !unlocked {
        return this, index, null;
      }
      if index == MOVE_UP {
        ParentInHeap(S, this);
        return if parent != null then parent else this, INDEX_WHEREEVER, null;
      }
      dest, index', destItem' := this, index, destItem;
      if index' == ADD_WHEREVER {
        index' := INDEX_WHEREEVER;
        destItem' := null;
      } else if index' >= capacity {
        index' := INDEX_WHEREEVER;
        destItem' := null;
      }
      if index' != INDEX_WHEREEVER {
        var itemFromIndex := GetItemByIndex(index');
        if itemFromIndex != null {
          destItem' := itemFromIndex;
        }
        if destItem' != null && destItem'.isContainer {
          return destItem', INDEX_WHEREEVER, null;
        }
      }
      var autoStack := !flags.ignoreAutoStack;
      if autoStack && thing.kind.stackable && thing.parent != this {
        if destItem' != null && destItem'.Equals(thing) && destItem'.count < STACK_SIZE {
          return;
        }
        var n := 0;
        while n < |itemlist|
          invariant 0 <= n <= |itemlist|
          invariant forall k :: 0 <= k < n ==> itemlist[k] == thing || !Mergeable(HeapOf(S), itemlist[k], thing)
        {
          var listItem := itemlist[n];
          if listItem != thing && listItem.Equals(thing) && listItem.count < STACK_SIZE {
            index' := n;
            destItem' := listItem;
            return;
          }
          n := n + 1;
        }
      }
    }
  }

  ghost function Optional(x: Item?): (o: Option<Item>)
    ensures x == null ==> o == None
    ensures x != null ==> o.Some? && o.value == x
  {
    if x == null then None else var some: Item := x; Some(some)
  }

  /** The contents of every container are items of the heap. */
  ghost predicate ContentsKnown<T>(h: Heap<T>) {
    forall c | c in h :: forall x | x in h[c].contents :: x in h
  }

  lemma KnownContents<T>(h: Heap<T>)
    requires Valid(h)
    ensures ContentsKnown(h)
  {
    hide Forest, Balanced, ParentsLinked;
  }

  lemma ParentInHeap(S: set<Item>, x: Item)
    requires x in S && Valid(HeapOf(S))
    ensures var p := Parents(HeapOf(S));
            x in p && p[x] == x.Above() && (x.parent != null ==> x.parent in S)
  {
    hide Forest, Balanced, Inside, ContentsLinked;
    assert HeapOf(S)[x] == x.Record();
  }

  lemma ChainStep(S: set<Item>, x: Item, a: Item)
    requires x in S && Valid(HeapOf(S)) && x != a
    ensures var p := Parents(HeapOf(S));
            && (Inside(p, x, a) <==> x.parent != null && var up: Item := x.parent; Inside(p, up, a))
            && (x.parent != null ==> x.parent in S)
  {
    hide Valid, HeapOf, Parents, Inside;
    ParentInHeap(S, x);
    InsideCases(Parents(HeapOf(S)), x, a);
  }

  lemma ChainBound(S: set<Item>, x: Item)
    requires x in S && Valid(HeapOf(S))
    ensures Forest(Parents(HeapOf(S)))
    ensures x.parent != null ==>
              && x.parent in S
              && var up: Item := x.parent;
                 Up(Parents(HeapOf(S)), Some(up), NestingBound(HeapOf(S))) == None
  {
    hide Forest, Up, Balanced, ContentsLinked;
    ParentInHeap(S, x);
  }

  lemma UpStep(S: set<Item>, x: Item, n: nat)
    requires x in S && Valid(HeapOf(S)) && Up(Parents(HeapOf(S)), Some(x), n) == None
    ensures n > 0 && (x.parent != null ==> var up: Item := x.parent; Up(Parents(HeapOf(S)), Some(up), n - 1) == None)
  {
    hide Valid, HeapOf, Parents;
    ParentInHeap(S, x);
  }

  lemma RoomStep<T>(h: Heap<T>, c: T, item: T, k: nat)
    requires c in h && item in h && k < |h[c].contents| && ContentsKnown(h)
    ensures var x := h[c].contents[k];
            Sum(Rooms(h, item), h[c].contents[..k + 1])
            == Sum(Rooms(h, item), h[c].contents[..k])
               + (if x != item && Mergeable(h, x, item) then STACK_SIZE - h[x].count else 0)
  {
    var xs := h[c].contents;
    assert xs[..k + 1] == xs[..k] + [xs[k]];
    SumConcat(Rooms(h, item), xs[..k], [xs[k]]);
    assert Sum(Rooms(h, item), [xs[k]]) == Value(Rooms(h, item), xs[k]);
  }

  /** Pieces left of a stack: an unsigned difference read as signed, cut at zero and stored in a byte. */
  function CountLeft(have: nat, take: nat): nat {
    var left := Signed(have - take);
    Byte(if left < 0 then 0 else left)
  }

  /** The heap after `UpdateThing`. */
  ghost function Updated<T>(h: Heap<T>, c: T, item: T, kind: ItemType, n: nat): Heap<T>
    requires c in h && item in h
  {
    if item in h[c].contents && item != c then
      Retype(h, c, item, kind, CountAfter(kind, h[item].count, n), SubTypeAfter(kind, h[item].subType, n),
             n - h[item].count)
    else h
  }

  /** The heap after `RemoveThing`. */
  ghost function Removed<T>(h: Heap<T>, c: T, item: T, count: nat): Heap<T>
    requires c in h && item in h
  {
    if item !in h[c].contents || item == c then h
    else if h[item].kind.stackable && count != h[item].count then
      var left := CountLeft(h[item].count, count);
      Retype(h, c, item, h[item].kind, left, h[item].subType, left - h[item].count)
    else Unlink(h, c, IndexOf(h[c].contents, item))
  }

  /**
   What an item is after it was given a type and a count: fluids and charges go to the subtype, all else to a byte.
   */
  lemma UpdatedTo<T>(h: Heap<T>, c: T, item: T, kind: ItemType, n: nat)
    requires Valid(h) && c in h && item in h && item in h[c].contents
    ensures var h1 := Updated(h, c, item, kind, n);
            && item in h1 && h1[item].kind == kind
            && if kind.fluid || (!kind.stackable && kind.charges > 0)
               then h1[item].subType == n % 0x1_0000 && h1[item].count == h[item].count
               else h1[item].count == n % 256 && h1[item].subType == h[item].subType
  {
    hide Valid, ShiftWeights, StackWeight;
    HeldOutside(h, c, item);
    var count, subType := CountAfter(kind, h[item].count, n), SubTypeAfter(kind, h[item].subType, n);
    var h1 := Typed(h, c, item, kind, count, subType, n - h[item].count);
    ShiftKeepsContents(h1, c, h1[item].Weight() - h[item].Weight(), item);
  }

  function IndexOf<T(==)>(xs: seq<T>, x: T): (i: nat)
    requires x in xs
    ensures i < |xs| && xs[i] == x && x !in xs[..i]
  {
    if xs[0] == x then 0 else 1 + IndexOf(xs[1..], x)
  }

  lemma {:induction false} IndexIsFirst<T>(xs: seq<T>, x: T, i: nat)
    requires i < |xs| && xs[i] == x && x !in xs[..i]
    ensures IndexOf(xs, x) == i
  {
    if i > 0 {
      assert xs[..i][0] == xs[0];
      assert xs[..i][1..] == xs[1..][..i - 1];
      IndexIsFirst(xs[1..], x, i - 1);
    }
  }

  lemma RemovedCases(S: set<Item>, c: Item, item: Item, n: nat, i: nat)
    requires c in S && item in S && Valid(HeapOf(S))
    requires i < |c.itemlist| && c.itemlist[i] == item && item !in c.itemlist[..i]
    ensures c != item && item in c.itemlist
    ensures !(item.kind.stackable && n != item.count) ==> Removed(HeapOf(S), c, item, n) == Unlink(HeapOf(S), c, i)
  {
    hide Valid, Unlink, Retype, CountLeft;
    HeapAt(S, c);
    HeapAt(S, item);
    HeldOutside(HeapOf(S), c, item);
    IndexIsFirst(c.itemlist, item, i);
  }

  /** The record of an object in the heap holds the object's fields. */
  lemma HeapAt(S: set<Item>, x: Item)
    requires x in S
    ensures var r := HeapOf(S)[x];
            && r.Weight() == x.GetWeight() && r.kind == x.kind && r.count == x.count && r.subType == x.subType
            && r.contents == x.itemlist && r.isContainer == x.isContainer
            && (r.parent == None <==> x.parent == null)
  {
  }

  /** What makes the steps of an addition compose to `Add`. */
  lemma AddReady<T>(h: Heap<T>, c: T, item: T, front: bool)
    requires c in h && item in h && h[c].isContainer && Valid(h)
    requires h[item].parent == None && !Inside(Parents(h), c, item)
    ensures c != item
    ensures Valid(Add(h, c, item, front))
    ensures var h1 := Hung(h, c, item, front);
            && Walkable(h1, c)
            && var h2 := ShiftWeights(h1, c, h[item].Weight());
               c in h2 && h2[c := h2[c].Ammo(h[item].count)] == Add(h, c, item, front)
  {
    hide Valid, Inside, ShiftWeights, StackWeight, Listed, Forest, ParentsKnown, Up;
    OtherThan(h, c, item);
    AddKeepsValid(h, c, item, front);
    ListedReady(h, c, item, front);
    ForestWalkable(Hung(h, c, item, front), c);
  }

  /** Chains of a heap with the parents of a valid heap end where its own do. */
  ghost predicate Walkable<T>(h: Heap<T>, c: T) {
    && Forest(Parents(h)) && ParentsKnown(h)
    && forall n: nat | ChainsWithin(Parents(h), n) :: Up(Parents(h), Some(c), n) == None
  }

  lemma ForestWalkable<T>(h: Heap<T>, c: T)
    requires Forest(Parents(h)) && ParentsKnown(h) && c in h
    ensures Walkable(h, c)
  {
    hide Forest;
  }

  lemma SameParentsWalkable<T>(h: Heap<T>, h1: Heap<T>, c: T)
    requires Valid(h) && c in h && Parents(h1) == Parents(h)
    ensures Walkable(h1, c)
  {
    hide Forest, Balanced, ContentsLinked;
    forall x | x in h1 && h1[x].parent.Some?
      ensures h1[x].parent.value in h1
    {
      assert Parents(h1)[x] == Parents(h)[x];
      assert x in h && h[x].parent == h1[x].parent;
      assert h1[x].parent.value in Parents(h1).Keys;
    }
    assert c in Parents(h1).Keys;
    ForestWalkable(h1, c);
  }

  /** What makes the steps of an update compose to `Retype`. */
  lemma RetypeReady<T>(h: Heap<T>, c: T, item: T, kind: ItemType, count: nat, subType: nat, ammo: int)
    requires c in h && item in h && Valid(h) && item in h[c].contents
    ensures c != item && Valid(Retype(h, c, item, kind, count, subType, ammo))
    ensures var h1 := h[c := h[c].Ammo(ammo)];
            var h2 := h1[item := h1[item].(kind := kind, count := count, subType := subType)];
            Walkable(h2, c)
            && ShiftWeights(h2, c, -h[item].Weight() + h2[item].Weight())
               == Retype(h, c, item, kind, count, subType, ammo)
  {
    hide Valid, ContentsLinked, Forest, ShiftWeights, StackWeight, Walkable;
    HeldOutside(h, c, item);
    RetypeKeepsValid(h, c, item, kind, count, subType, ammo);
    var h1 := h[c := h[c].Ammo(ammo)];
    var h2 := h1[item := h1[item].(kind := kind, count := count, subType := subType)];
    assert h2 == Typed(h, c, item, kind, count, subType, ammo);
    assert Parents(h2) == Parents(h);
    SameParentsWalkable(h, h2, c);
  }

  lemma HeldOutside<T>(h: Heap<T>, c: T, item: T)
    requires Valid(h) && c in h && item in h[c].contents
    ensures item != c && item in h && h[item].parent == Some(c) && h[c].isContainer
  {
    hide Forest, Balanced, ParentsLinked;
    HeldIsOther(h, c, item);
  }

  lemma UpdateReady<T>(h: Heap<T>, c: T, item: T, kind: ItemType, n: nat)
    requires c in h && item in h && Valid(h) && item in h[c].contents
    ensures c != item && Valid(Updated(h, c, item, kind, n))
    ensures var count := CountAfter(kind, h[item].count, n);
            var subType := SubTypeAfter(kind, h[item].subType, n);
            var h1 := h[c := h[c].Ammo(n - h[item].count)];
            var h2 := h1[item := h1[item].(kind := kind, count := count, subType := subType)];
            Walkable(h2, c)
            && ShiftWeights(h2, c, -h[item].Weight() + h2[item].Weight()) == Updated(h, c, item, kind, n)
  {
    hide Valid, Walkable, ShiftWeights, Retype, StackWeight, CountAfter, SubTypeAfter;
    RetypeReady(h, c, item, kind, CountAfter(kind, h[item].count, n), SubTypeAfter(kind, h[item].subType, n),
                n - h[item].count);
  }

  lemma TakeReady<T>(h: Heap<T>, c: T, item: T, n: nat)
    requires c in h && item in h && Valid(h) && item in h[c].contents
    requires h[item].kind.stackable && n != h[item].count
    ensures c != item && Valid(Removed(h, c, item, n))
    ensures var left := CountLeft(h[item].count, n);
            var h1 := h[c := h[c].Ammo(left - h[item].count)];
            var h2 := h1[item := h1[item].(count := left)];
            Walkable(h2, c) && Byte(left) == left
            && ShiftWeights(h2, c, -h[item].Weight() + h2[item].Weight()) == Removed(h, c, item, n)
  {
    hide Valid, Walkable, ShiftWeights, Retype, StackWeight, CountLeft;
    var left := CountLeft(h[item].count, n);
    LeftFits(h[item].count, n);
    RetypeReady(h, c, item, h[item].kind, left, h[item].subType, left - h[item].count);
  }

  lemma LeftFits(have: nat, take: nat)
    ensures Byte(CountLeft(have, take)) == CountLeft(have, take)
  {
  }

  lemma UnlinkReady<T>(h: Heap<T>, c: T, i: nat)
    requires c in h && Valid(h) && i < |h[c].contents|
    ensures h[c].contents[i] in h && h[c].contents[i] != c && Walkable(h, c)
    ensures Valid(Unlink(h, c, i))
    ensures var item := h[c].contents[i];
            var h1 := ShiftWeights(h, c, -h[item].Weight());
            var h2 := h1[c := h1[c].Ammo(0 - h[item].count)];
            var h3 := h2[item := h2[item].(parent := None)];
            h3[c := h3[c].(contents := h[c].contents[..i] + h[c].contents[i + 1..])] == Unlink(h, c, i)
  {
    hide Valid, Walkable, ContentsLinked, Forest, StackWeight, Inside;
    var item := h[c].contents[i];
    assert item in h[c].contents;
    HeldOutside(h, c, item);
    UnlinkKeepsValid(h, c, i);
    SameParentsWalkable(h, h, c);
    ShiftKeepsContents(h, c, -h[item].Weight(), c);
    ShiftKeepsContents(h, c, -h[item].Weight(), item);
  }

  lemma ReplaceReady<T>(h: Heap<T>, c: T, i: nat, item: T)
    requires c in h && item in h && h[c].isContainer && Valid(h) && i < |h[c].contents|
    requires h[item].parent == None && !Inside(Parents(h), c, item)
    ensures var out := h[c].contents[i];
            c != item && out in h && c != out && item != out
    ensures Valid(Replace(h, c, i, item))
  {
    hide Valid, ContentsLinked, ParentsLinked, Forest, Inside, Replace;
    var out := h[c].contents[i];
    assert out in h[c].contents;
    HeldOutside(h, c, out);
    OtherThan(h, c, item);
    ReplaceKeepsValid(h, c, i, item);
  }

  /** The heap of `ReplaceThing` when the weights are propagated. */
  ghost function Exchanged<T>(h: Heap<T>, c: T, i: nat, item: T): Heap<T>
    requires c in h && item in h && i < |h[c].contents| && h[c].contents[i] in h && c != item
  {
    var h1 := h[c := h[c].Ammo(0 - h[h[c].contents[i]].count)];
    var h2 := h1[c := h1[c].(contents := h[c].contents[i := item])];
    h2[item := h2[item].(parent := Some(c))]
  }

  lemma ExchangedParents<T>(h: Heap<T>, c: T, i: nat, item: T)
    requires c in h && item in h && i < |h[c].contents| && h[c].contents[i] in h && c != item
    ensures Exchanged(h, c, i, item).Keys == h.Keys
    ensures Parents(Exchanged(h, c, i, item)) == Parents(h)[item := Some(c)]
  {
  }

  lemma ExchangedSteps<T>(h: Heap<T>, c: T, i: nat, item: T)
    requires c in h && item in h && i < |h[c].contents| && h[c].contents[i] in h && c != item
    ensures var h1 := h[c := h[c].Ammo(0 - h[h[c].contents[i]].count)];
            var h2 := h1[c := h1[c].(contents := h[c].contents[i := item])];
            h2[item := h2[item].(parent := Some(c))] == Exchanged(h, c, i, item)
  {
  }

  lemma ExchangedWalkable<T>(h: Heap<T>, c: T, i: nat, item: T)
    requires Valid(h) && c in h && item in h && i < |h[c].contents| && h[c].contents[i] in h
    requires h[item].parent == None && !Inside(Parents(h), c, item) && c != item
    ensures Walkable(Exchanged(h, c, i, item), c)
  {
    hide Walkable, Forest, Inside, Balanced, Exchanged, ContentsLinked, ParentsLinked;
    ExchangedParents(h, c, i, item);
    LinkKeepsForest(Parents(h), item, c);
    LinkedKnown(h, Exchanged(h, c, i, item), item, c);
    ForestWalkable(Exchanged(h, c, i, item), c);
  }

  lemma ReplaceSteps<T>(h: Heap<T>, c: T, i: nat, item: T)
    requires c in h && item in h && i < |h[c].contents| && h[c].contents[i] in h
    requires c != item && h[c].contents[i] != c && h[c].contents[i] != item
    ensures var out := h[c].contents[i];
            var h4 := ShiftWeights(Exchanged(h, c, i, item), c, -h[out].Weight() + h[item].Weight());
            var h5 := h4[c := h4[c].Ammo(h[item].count)];
            h5[out := h5[out].(parent := None)] == Replace(h, c, i, item)
  {
    hide StackWeight, ShiftWeights;
    var out := h[c].contents[i];
    var h3 := Exchanged(h, c, i, item);
    AmmoCommutes(h3, c, -h[out].Weight() + h[item].Weight(), h[item].count);
    AmmoTwice(h[c], 0 - h[out].count, h[item].count);
    assert h3[c := h3[c].Ammo(h[item].count)] == Swapped(h, c, i, item);
  }

  lemma LinkedKnown<T>(h: Heap<T>, h3: Heap<T>, item: T, c: T)
    requires ParentsLinked(h, {}) && c in h && item in h
    requires h3.Keys == h.Keys && Parents(h3) == Parents(h)[item := Some(c)]
    ensures ParentsKnown(h3)
  {
    forall x | x in h3 && h3[x].parent.Some?
      ensures h3[x].parent.value in h3
    {
      assert Parents(h3)[x] == h3[x].parent;
      if x != item {
        assert Parents(h)[x] == h[x].parent;
      }
    }
  }

  lemma AmmoTwice<T>(r: Rec<T>, a: int, b: int)
    ensures r.Ammo(a).Ammo(b) == r.Ammo(a + b)
  {
  }

  ghost function NestingBound<T>(h: Heap<T>): (n: nat)
    requires Forest(Parents(h))
    ensures ChainsWithin(Parents(h), n)
  {
    var n: nat :| ChainsWithin(Parents(h), n);
    n
  }

  lemma OtherThan<T>(h: Heap<T>, c: T, item: T)
    requires !Inside(Parents(h), c, item)
    ensures c != item
  {
    InsideRefl(Parents(h), c);
  }

  ghost function Hung<T>(h: Heap<T>, c: T, item: T, front: bool): Heap<T>
    requires c in h && item in h
  {
    var contents := if front then [item] + h[c].contents else h[c].contents + [item];
    h[item := h[item].(parent := Some(c))][c := h[c].(contents := contents)]
  }

  /** The order of the source: link, list, propagate the weight, and count the items last. */
  lemma ListedReady<T>(h: Heap<T>, c: T, item: T, front: bool)
    requires Valid(h) && c in h && item in h && h[c].isContainer
    requires h[item].parent == None && !Inside(Parents(h), c, item) && c != item
    ensures var h1 := Hung(h, c, item, front);
            && Forest(Parents(h1)) && ParentsKnown(h1)
            && var h2 := ShiftWeights(h1, c, h[item].Weight());
               c in h2 && h2[c := h2[c].Ammo(h[item].count)] == Add(h, c, item, front)
  {
    hide Forest, Inside, Balanced, ContentsLinked, ParentsLinked, ParentsKnown, Hung, Listed, StackWeight, ShiftWeights;
    var h1 := Hung(h, c, item, front);
    ListedForest(h, c, item, front);
    HungIsListed(h, c, item, front);
    HungKnown(h, c, item, front);
    AmmoCommutes(h1, c, h[item].Weight(), h[item].count);
  }

  lemma HungIsListed<T>(h: Heap<T>, c: T, item: T, front: bool)
    requires c in h && item in h && c != item
    ensures var h1 := Hung(h, c, item, front);
            && c in h1 && h1[c := h1[c].Ammo(h[item].count)] == Listed(h, c, item, front)
            && Parents(h1) == Parents(Listed(h, c, item, front))
  {
  }

  lemma HungKnown<T>(h: Heap<T>, c: T, item: T, front: bool)
    requires ParentsLinked(h, {}) && c in h && item in h && c != item
    ensures ParentsKnown(Hung(h, c, item, front))
  {
  }

  /** Counting items and propagating weights do not disturb each other. */
  lemma AmmoCommutes<T>(h: Heap<T>, c: T, diff: int, ammo: int)
    requires c in h
    ensures var h2 := ShiftWeights(h, c, diff);
            h2[c := h2[c].Ammo(ammo)] == ShiftWeights(h[c := h[c].Ammo(ammo)], c, diff)
  {
    hide Inside;
    assert Parents(h[c := h[c].Ammo(ammo)]) == Parents(h);
    InsideRefl(Parents(h), c);
  }

  /** A heap in which one object differs from a snapshot is the snapshot with that one record replaced. */
  lemma PatchedHeap(S: set<Item>, h: Heap<Item>, x: Item)
    requires x in S && h.Keys == S
    requires forall y | y in S && y != x :: y.Record() == h[y]
    ensures HeapOf(S) == h[x := x.Record()]
  {
  }

  /** What makes one step of the propagation and the propagation from the parent compose. */
  lemma ShiftReady(S: set<Item>, x: Item, diff: int, n: nat)
    requires x in S && ParentsKnown(HeapOf(S)) && Forest(Parents(HeapOf(S)))
    requires Up(Parents(HeapOf(S)), Some(x), n) == None
    ensures var h := HeapOf(S);
            var h1 := h[x := h[x].Shifted(diff)];
            && ParentsKnown(h1) && Forest(Parents(h1))
            && (x.parent == null ==> h1 == ShiftWeights(h, x, diff))
            && (x.parent != null ==>
                  && x.parent in S && n > 0
                  && var up: Item := x.parent;
                     Up(Parents(h1), Some(up), n - 1) == None && ShiftWeights(h1, up, diff) == ShiftWeights(h, x, diff))
  {
    hide Forest, Inside, ShiftWeights;
    var h := HeapOf(S);
    assert h[x] == x.Record() && Parents(h)[x] == x.Above();
    ShiftedParents(h, x, diff);
    if x.parent != null {
      ShiftStep(h, x, x.parent, diff);
    } else {
      ShiftRoot(h, x, diff);
    }
  }

  lemma ShiftedParents<T>(h: Heap<T>, at: T, diff: int)
    requires at in h
    ensures Parents(h[at := h[at].Shifted(diff)]) == Parents(h)
    ensures ParentsKnown(h) ==> ParentsKnown(h[at := h[at].Shifted(diff)])
  {
    assert Parents(h[at := h[at].Shifted(diff)]) == Parents(h);
  }

  function CountAfter(kind: ItemType, count: nat, n: nat): nat {
    if kind.fluid || (!kind.stackable && kind.charges != 0) then count else Byte(n)
  }

  function SubTypeAfter(kind: ItemType, subType: nat, n: nat): nat {
    if kind.fluid || (!kind.stackable && kind.charges != 0) then n % 0x1_0000 else subType
  }

  ghost function HeapOf(S: set<Item>): (h: Heap<Item>)
    reads S
    ensures h.Keys == S
  {
    map x | x in S :: x.Record()
  }

  ghost predicate ParentsKnown<T>(h: Heap<T>) {
    forall x | x in h && h[x].parent.Some? :: h[x].parent.value in h
  }

  /** Shifting one container and then everything around its parent is shifting everything around the container. */
  lemma ShiftStep<T>(h: Heap<T>, at: T, up: T, diff: int)
    requires at in h && h[at].parent == Some(up) && Forest(Parents(h))
    ensures ShiftWeights(h[at := h[at].Shifted(diff)], up, diff) == ShiftWeights(h, at, diff)
  {
    hide Inside, Forest;
    var h1 := h[at := h[at].Shifted(diff)];
    assert Parents(h1) == Parents(h);
    StrictlyAbove(Parents(h), at, up);
    InsideRefl(Parents(h), at);
    forall x | x in h
      ensures ShiftWeights(h1, up, diff)[x] == ShiftWeights(h, at, diff)[x]
    {
      InsideCases(Parents(h), at, x);
    }
  }

  lemma ShiftRoot<T>(h: Heap<T>, at: T, diff: int)
    requires at in h && h[at].parent == None
    ensures ShiftWeights(h, at, diff) == h[at := h[at].Shifted(diff)]
  {
    hide Inside;
    InsideRefl(Parents(h), at);
    forall x | x in h
      ensures ShiftWeights(h, at, diff)[x] == h[at := h[at].Shifted(diff)][x]
    {
      InsideCases(Parents(h), at, x);
    }
  }

  lemma StrictlyAbove<T>(p: map<T, Option<T>>, at: T, up: T)
    requires Forest(p) && at in p && p[at] == Some(up)
    ensures !Inside(p, up, at)
  {
    if Inside(p, up, at) {
      var k: nat :| Up(p, Some(up), k) == Some(at);
      assert Up(p, Some(at), k + 1) == Some(at);
      NoCycle(p, at, k + 1);
    }
  }
}
