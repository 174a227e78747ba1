/** Where a moved item ends up, told from the lists and counts of items alone. */
module MoveLaws {
  import opened Options
  import opened ItemHeap
  import opened Ancestry
  import opened CylinderQueries
  import opened Items
  import opened MoveSteps

  /**
   `m` pieces of an item have gone from one container to another. What fits on the stack `into` of the same kind, up to
   100, has joined it. The rest lies in front: the item itself, or a new stack; it is gone only if it does not `fit`
   the index. The source keeps the list, or loses the item if nothing of it is left. Nothing else changes but caches.
   */
  ghost predicate Landed<T>(h: Heap<T>, h': Heap<T>, from: T, dest: T, item: T, m: nat, into: Option<T>, fit: bool)
    requires from in h && dest in h && item in h && (into.Some? ==> into.value in h)
  {
    var r := h[item];
    var merged :=
      if into.Some? && r.kind.stackable && h[into.value].kind == r.kind && h[into.value].attrs == r.attrs
         && h[into.value].count <= 100
      then (if 100 - h[into.value].count < m then 100 - h[into.value].count else m) else 0;
    var placed := fit && (r.kind.stackable ==> m > merged);
    var left := if r.kind.stackable && m < r.count then h[from].contents else Minus(h[from].contents, item);
    var base := if from == dest then left else h[dest].contents;
    && h.Keys <= h'.Keys
    && (forall x | x in h && x != from && x != dest :: h'[x].contents == h[x].contents)
    && (from != dest ==> h'[from].contents == left)
    && (!placed ==> h'[dest].contents == base)
    && (placed ==>
          && |h'[dest].contents| == |base| + 1 && h'[dest].contents[1..] == base
          && var q := h'[dest].contents[0];
             && q in h' && h'[q].kind == r.kind && h'[q].attrs == r.attrs && h'[q].parent == Some(dest)
             && (if r.kind.stackable then q !in h && h'[q].count == m - merged
                 else (q == item && h'[q].count == r.count)))
    && (forall x | x in h ::
          && h'[x].kind == h[x].kind && h'[x].attrs == h[x].attrs
          && (x != item ==> h'[x].parent == h[x].parent)
          && (x != item && Some(x) != into ==> h'[x].count == h[x].count))
    && (into.Some? ==> h'[into.value].count == h[into.value].count + merged)
    && (r.kind.stackable ==>
          if m < r.count then h'[item].count == r.count - m && h'[item].parent == r.parent else h'[item].parent == None)
  }

  /**
   Where a request leads: 254 to the container around, a slot with a container in it into that, both asked for any place
   there; everything else stays in the container asked.
   */
  ghost predicate LeadsTo<T>(h: Heap<T>, to: T, index: int, item: T, flags: Flags, a: Answer<T>)
    requires to in h && item in h && ContentsKnown(h)
  {
    var slot := Slot(h[to], index);
    if h[to].unlocked && index == 254 && h[to].parent.Some? then
      h[to].parent.value in h && AskLaw(h, h[to].parent.value, -1, item, flags, a)
    else if h[to].unlocked && index != 254 && slot.Some? && h[slot.value].isContainer then
      AskLaw(h, slot.value, -1, item, flags, a)
    else AskLaw(h, to, index, item, flags, a)
  }

  /** Everybody asked agrees to a move of `m` pieces, and the item traded does not hold the place they go to. */
  ghost predicate Agreed<T>(h: Heap<T>, from: T, a: Answer<T>, item: T, m: int, flags: Flags, trade: Option<T>)
    requires from in h && a.dest in h && item in h
  {
    && a.into != Some(item) && Welcomes(h, a.dest, item, flags)
    && (flags.noLimit || a.index != -1 || |h[a.dest].contents| < h[a.dest].capacity || h[a.dest].pagination)
    && item in h[from].contents && 0 < m && (h[item].kind.stackable ==> m <= h[item].count)
    && (h[item].kind.moveable || flags.ignoreNotMoveable)
    && (trade.Some? ==> !Inside(Parents(h), a.dest, trade.value))
  }

  /**
   With `a` the place a request leads to and `max` the pieces that fit there: a move goes through exactly when
   everybody agrees to the pieces asked for that fit. Then exactly those land there, and less than asked for is
   reported; otherwise nothing changes and there is an error, except for an item dropped on itself.
   */
  ghost predicate MovesTo<T>(h: Heap<T>, h': Heap<T>, from: T, a: Answer<T>, max: int, item: T, count: nat,
                             flags: Flags,
                             trade: Option<T>, ret: ReturnValue, m: nat)
    requires from in h && item in h && ContentsKnown(h)
  {
    var stackable := h[item].kind.stackable;
    && a.dest in h && (a.into.Some? ==> a.into.value in h) && CountLaw(h, a.dest, item, a.index, count, flags, max)
    && var amount := if stackable && count < max then count else max;
    && (m > 0 <==> Agreed(h, from, a, item, amount, flags, trade))
    && (m > 0 ==> m == amount && Landed(h, h', from, a.dest, item, m, a.into, a.index < h[a.dest].capacity))
    && (m == 0 ==> h' == h)
    && (m > 0 ==> ret == if stackable && max < count then ContainerNotEnoughRoom else NoError)
    && (m == 0 ==> (ret == NoError <==> a.into == Some(item)))
  }

  // ----- What that means for the slots

  /** The pieces have joined what is in an unlocked container: its first stack with room, else its front. */
  ghost predicate Joined<T>(h: Heap<T>, h': Heap<T>, from: T, c: T, item: T, m: nat, flags: Flags)
    requires from in h && item in h
  {
    && c in h && h[c].unlocked && (forall x | x in h[c].contents :: x in h)
    && if LooksForStacks(h, c, item, flags) && exists j :: FirstStack(h, h[c].contents, item, j)
       then exists j :: FirstStack(h, h[c].contents, item, j)
                        && Landed(h, h', from, c, item, m, Some(h[c].contents[j]), j < h[c].capacity)
       else Landed(h, h', from, c, item, m, None, true)
  }

  lemma AnywhereJoins<T>(h: Heap<T>, h': Heap<T>, from: T, c: T, a: Answer<T>, item: T, m: nat, flags: Flags)
    requires from in h && c in h && item in h && ContentsKnown(h) && h[c].unlocked && AskLaw(h, c, -1, item, flags, a)
    requires a.dest in h && (a.into.Some? ==> a.into.value in h)
    requires Landed(h, h', from, a.dest, item, m, a.into, a.index < h[a.dest].capacity)
    ensures Joined(h, h', from, c, item, m, flags)
  {
    hide Landed, FirstStack;
  }

  /** The same container, unlocked: nobody is sent on from a locked one. */
  lemma AnywhereStays<T>(h: Heap<T>, c: T, item: T, flags: Flags, a: Answer<T>)
    requires c in h && item in h && (forall x | x in h[c].contents :: x in h) && AskLaw(h, c, -1, item, flags, a)
    ensures a.dest == c
  {
    hide FirstStack;
  }

  /** Pieces dropped on a container in a slot join what is in it; the list around it gains nothing. */
  lemma DroppedOnContainer<T>(h: Heap<T>, h': Heap<T>, from: T, to: T, index: int, item: T, count: nat, flags: Flags,
                              trade: Option<T>, ret: ReturnValue, m: nat, a: Answer<T>, max: int)
    requires from in h && to in h && item in h && ContentsKnown(h) && h[to].unlocked && m > 0
    requires LeadsTo(h, to, index, item, flags, a) && MovesTo(h, h', from, a, max, item, count, flags, trade, ret, m)
    requires 0 <= index < |h[to].contents| && index < h[to].capacity && index != 254 && index != 255
    requires h[to].contents[index] in h && h[h[to].contents[index]].isContainer && h[to].contents[index] != to
    ensures Joined(h, h', from, h[to].contents[index], item, m, flags)
    ensures to in h' && (h'[to].contents == h[to].contents || h'[to].contents == Minus(h[to].contents, item))
  {
    hide Landed, AskLaw, CountLaw, Welcomes, Inside, Joined;
    var b := h[to].contents[index];
    ListIn(h, b);
    AnywhereStays(h, b, item, flags, a);
    WelcomedIsUnlocked(h, b, item, flags);
    AnywhereJoins(h, h', from, b, a, item, m, flags);
    OthersKeepLists(h, h', from, b, item, m, a.into, a.index < h[b].capacity, to);
  }

  lemma ListIn<T>(h: Heap<T>, c: T)
    requires c in h && ContentsKnown(h)
    ensures forall x | x in h[c].contents :: x in h
  {
  }

  lemma WelcomedIsUnlocked<T>(h: Heap<T>, c: T, item: T, flags: Flags)
    requires c in h && item in h && Welcomes(h, c, item, flags)
    ensures h[c].unlocked
  {
  }

  lemma OthersKeepLists<T>(h: Heap<T>, h': Heap<T>, from: T, dest: T, item: T, m: nat, into: Option<T>, fit: bool, x: T)
    requires from in h && dest in h && item in h && (into.Some? ==> into.value in h) && x in h && x != dest
    requires Landed(h, h', from, dest, item, m, into, fit)
    ensures x in h' && (h'[x].contents == h[x].contents || h'[x].contents == Minus(h[x].contents, item))
  {
  }

  /** Pieces moved up join what is in the container around. */
  lemma MovedUp<T>(h: Heap<T>, h': Heap<T>, from: T, to: T, item: T, count: nat, flags: Flags, trade: Option<T>,
                   ret: ReturnValue, m: nat, a: Answer<T>, max: int)
    requires from in h && to in h && item in h && ContentsKnown(h) && h[to].unlocked && h[to].parent.Some? && m > 0
    requires LeadsTo(h, to, 254, item, flags, a) && MovesTo(h, h', from, a, max, item, count, flags, trade, ret, m)
    ensures Joined(h, h', from, h[to].parent.value, item, m, flags)
  {
    hide Landed, AskLaw, CountLaw, Welcomes, Inside, Joined;
    ListIn(h, h[to].parent.value);
    AnywhereStays(h, h[to].parent.value, item, flags, a);
    WelcomedIsUnlocked(h, h[to].parent.value, item, flags);
    AnywhereJoins(h, h', from, h[to].parent.value, a, item, m, flags);
  }

  /** An index that is no slot of an unlocked container asks for any place in it. */
  lemma BeyondIsAnywhere<T>(h: Heap<T>, to: T, index: int, item: T, flags: Flags, a: Answer<T>)
    requires to in h && item in h && ContentsKnown(h) && h[to].unlocked
    requires index == 255 || (index >= h[to].capacity && index != 254)
    ensures LeadsTo(h, to, index, item, flags, a) <==> LeadsTo(h, to, -1, item, flags, a)
  {
    hide FirstStack;
    ListIn(h, to);
  }

  /** A stack with room in the slot asked for comes before all others. */
  lemma SlotComesFirst<T>(h: Heap<T>, h': Heap<T>, from: T, to: T, index: int, item: T, count: nat, flags: Flags,
                          trade: Option<T>, ret: ReturnValue, m: nat, a: Answer<T>, max: int)
    requires from in h && to in h && item in h && ContentsKnown(h) && h[to].unlocked && m > 0
    requires LeadsTo(h, to, index, item, flags, a) && MovesTo(h, h', from, a, max, item, count, flags, trade, ret, m)
    requires 0 <= index < |h[to].contents| && index < h[to].capacity && index != 254 && index != 255
    requires HasRoom(h, item, h[to].contents[index]) && !h[h[to].contents[index]].isContainer
    ensures Landed(h, h', from, to, item, m, Some(h[to].contents[index]), true)
  {
    hide Landed, CountLaw, Welcomes, Inside, FirstStack;
    ListIn(h, to);
  }
}
