/** How an added item spreads over the stacks of a container, told from their counts alone. */
module AddLaws {
  import opened Sums
  import opened Options
  import opened ItemHeap
  import opened CylinderQueries

  /** The part of `count` pieces that the stack at position `j` gets when the stacks before it are filled first. */
  ghost function Share<T>(h: Heap<T>, item: T, xs: seq<T>, j: nat, count: nat): nat
    requires item in h && j < |xs|
  {
    var before := RoomIn(h, item, xs[..j]);
    if count <= before then 0
    else if count - before <= RoomOn(h, item, xs[j]) then count - before
    else RoomOn(h, item, xs[j])
  }

  /**
   The pieces fill the stacks of a list from its front, each before the next; what is left over lies in front as a
   stack of its own, or the item itself does when it does not stack.
   */
  ghost predicate Filled<T>(h: Heap<T>, h': Heap<T>, c: T, item: T, count: nat, stacks: bool)
    requires c in h && item in h
  {
    var xs := h[c].contents;
    var room := if stacks then RoomIn(h, item, xs) else 0;
    && h.Keys <= h'.Keys && (forall x | x in xs :: x in h)
    && (forall j | 0 <= j < |xs| ::
          h'[xs[j]].count == h[xs[j]].count + if stacks then Share(h, item, xs, j, count) else 0)
    && (0 < room && count <= room ==> h'[c].contents == xs)
    && (room == 0 || count > room ==>
          && |h'[c].contents| == |xs| + 1 && h'[c].contents[1..] == xs
          && var q := h'[c].contents[0];
             q in h' && h'[q].kind == h[item].kind && h'[q].attrs == h[item].attrs && h'[q].parent == Some(c)
             && h'[q].count == count - room)
  }

  // ----- One stack after the other

  lemma {:induction false} RoomBefore<T>(h: Heap<T>, item: T, xs: seq<T>, k: nat)
    requires item in h && k <= |xs| && forall i | 0 <= i < k :: RoomOn(h, item, xs[i]) == 0
    ensures forall j | 0 <= j <= k :: RoomIn(h, item, xs[..j]) == 0
    decreases k
  {
    if k > 0 {
      assert forall i | 0 <= i < k - 1 :: xs[1..][i] == xs[i + 1];
      RoomBefore(h, item, xs[1..], k - 1);
      forall j | 0 <= j <= k ensures RoomIn(h, item, xs[..j]) == 0 {
        if j > 0 {
          assert xs[..j][0] == xs[0] && xs[..j][1..] == xs[1..][..j - 1];
        }
      }
    }
  }

  /** The room on a list when one stack of it has taken `n` pieces. */
  lemma {:induction false} RoomTaken<T>(h: Heap<T>, item: T, h2: Heap<T>, item2: T, xs: seq<T>, k: nat, n: nat)
    requires item in h && item2 in h2 && k < |xs|
    requires forall i | 0 <= i < |xs| && i != k :: RoomOn(h2, item2, xs[i]) == RoomOn(h, item, xs[i])
    requires RoomOn(h2, item2, xs[k]) == RoomOn(h, item, xs[k]) - n
    ensures RoomIn(h2, item2, xs) == RoomIn(h, item, xs) - n
    decreases |xs|
  {
    hide RoomOn;
    if k > 0 {
      assert forall i | 0 <= i < |xs| - 1 :: xs[1..][i] == xs[i + 1];
      RoomTaken(h, item, h2, item2, xs[1..], k - 1, n);
    } else {
      SameRoom(h, item, h2, item2, xs[1..]);
    }
  }

  lemma {:induction false} SameRoom<T>(h: Heap<T>, item: T, h2: Heap<T>, item2: T, xs: seq<T>)
    requires item in h && item2 in h2 && forall x | x in xs :: RoomOn(h2, item2, x) == RoomOn(h, item, x)
    ensures RoomIn(h2, item2, xs) == RoomIn(h, item, xs)
  {
    hide RoomOn;
    if xs != [] {
      SameRoom(h, item, h2, item2, xs[1..]);
    }
  }

  lemma {:induction false} RoomSplit<T>(h: Heap<T>, item: T, xs: seq<T>, j: nat)
    requires item in h && j < |xs|
    ensures RoomIn(h, item, xs[..j]) + RoomOn(h, item, xs[j]) == RoomIn(h, item, xs[..j + 1]) <= RoomIn(h, item, xs)
    decreases j
  {
    hide RoomOn;
    if j > 0 {
      RoomSplit(h, item, xs[1..], j - 1);
      assert xs[..j][0] == xs[0] && xs[..j][1..] == xs[1..][..j - 1];
      assert xs[..j + 1][0] == xs[0] && xs[..j + 1][1..] == xs[1..][..j];
    } else {
      assert xs[..1] == [xs[0]] && xs[..0] == [] && [xs[0]][1..] == [];
    }
  }

  /** All that stays of the heap when a stack has taken pieces, and a copy was made for the rest. */
  ghost predicate SameBut<T>(h: Heap<T>, h2: Heap<T>, c: T, into: T, n: nat)
    requires c in h && into in h
  {
    && h.Keys <= h2.Keys && h2[c].contents == h[c].contents && h2[into].count == h[into].count + n
    && (forall x | x in h ::
          h2[x].kind == h[x].kind && h2[x].attrs == h[x].attrs && (x != into ==> h2[x].count == h[x].count))
  }

  /** Filling the first stack and then the others is filling all of them in turn. */
  lemma FilledOn<T>(h: Heap<T>, h2: Heap<T>, h3: Heap<T>, c: T, item: T, copy: T, k: nat, count: nat)
    requires c in h && item in h && Distinct(h[c].contents) && item !in h[c].contents && copy in h2 && copy !in h
    requires FirstStack(h, h[c].contents, item, k)
    requires var into := h[c].contents[k]; var n := 100 - h[into].count;
             && n < count && SameBut(h, h2, c, into, n) && Filled(h2, h3, c, copy, count - n, true)
    requires h2[copy].kind == h[item].kind && h2[copy].attrs == h[item].attrs && forall x | x in h[c].contents :: x in h
    ensures Filled(h, h3, c, item, count, true)
  {
    var xs := h[c].contents;
    var n := 100 - h[xs[k]].count;
    RoomsAfter(h, h2, c, item, copy, k);
    hide SameBut, RoomOn, FirstStack, HasRoom;
    RoomTaken(h, item, h2, copy, xs, k, n);
    SharesAfter(h, h2, item, copy, xs, k, n, count);
    RoomSplit(h, item, xs, k);
    CountsAfter(h, h2, h3, c, item, copy, k, count);
    hide Share;
  }

  lemma RoomsAfter<T>(h: Heap<T>, h2: Heap<T>, c: T, item: T, copy: T, k: nat)
    requires c in h && item in h && Distinct(h[c].contents) && item !in h[c].contents && copy in h2 && copy !in h
    requires FirstStack(h, h[c].contents, item, k) && forall x | x in h[c].contents :: x in h
    requires var into := h[c].contents[k]; SameBut(h, h2, c, into, 100 - h[into].count)
    requires h2[copy].kind == h[item].kind && h2[copy].attrs == h[item].attrs
    ensures var xs := h[c].contents;
            && (forall i | 0 <= i < |xs| && i != k :: RoomOn(h2, copy, xs[i]) == RoomOn(h, item, xs[i]))
            && RoomOn(h2, copy, xs[k]) == 0 && RoomOn(h, item, xs[k]) == 100 - h[xs[k]].count
            && (forall i | 0 <= i < k :: RoomOn(h, item, xs[i]) == 0) && h2[c].contents == xs
  {
    var xs := h[c].contents;
    forall i | 0 <= i < |xs| && i != k ensures RoomOn(h2, copy, xs[i]) == RoomOn(h, item, xs[i]) {
      assert xs[i] in xs && xs[i] != xs[k];
    }
    assert xs[k] in xs;
  }

  lemma SharesAfter<T>(h: Heap<T>, h2: Heap<T>, item: T, copy: T, xs: seq<T>, k: nat, n: nat, count: nat)
    requires item in h && copy in h2 && k < |xs| && n < count
    requires forall i | 0 <= i < |xs| && i != k :: RoomOn(h2, copy, xs[i]) == RoomOn(h, item, xs[i])
    requires RoomOn(h2, copy, xs[k]) == 0 && RoomOn(h, item, xs[k]) == n
    requires forall i | 0 <= i < k :: RoomOn(h, item, xs[i]) == 0
    ensures forall j | 0 <= j < |xs| ::
              Share(h, item, xs, j, count) == Share(h2, copy, xs, j, count - n) + if j == k then n else 0
  {
    hide RoomOn;
    RoomBefore(h, item, xs, k);
    RoomBefore(h2, copy, xs, k);
    forall j | 0 <= j < |xs|
      ensures Share(h, item, xs, j, count) == Share(h2, copy, xs, j, count - n) + if j == k then n else 0
    {
      if j > k {
        assert forall i | 0 <= i < j :: xs[..j][i] == xs[i];
        RoomTaken(h, item, h2, copy, xs[..j], k, n);
      }
    }
  }

  lemma CountsAfter<T>(h: Heap<T>, h2: Heap<T>, h3: Heap<T>, c: T, item: T, copy: T, k: nat, count: nat)
    requires c in h && item in h && copy in h2 && Distinct(h[c].contents) && 0 <= k < |h[c].contents|
    requires forall x | x in h[c].contents :: x in h
    requires var xs, into := h[c].contents, h[c].contents[k]; var n := 100 - h[into].count;
             && 0 <= n < count && SameBut(h, h2, c, into, n) && Filled(h2, h3, c, copy, count - n, true)
             && forall j | 0 <= j < |xs| ::
                  Share(h, item, xs, j, count) == Share(h2, copy, xs, j, count - n) + if j == k then n else 0
    ensures h.Keys <= h3.Keys
    ensures forall j | 0 <= j < |h[c].contents| ::
              h3[h[c].contents[j]].count == h[h[c].contents[j]].count + Share(h, item, h[c].contents, j, count)
  {
    hide Share, RoomIn;
    var xs := h[c].contents;
    forall j | 0 <= j < |xs| ensures h3[xs[j]].count == h[xs[j]].count + Share(h, item, xs, j, count) {
      assert xs[j] in xs && (j != k ==> xs[j] != xs[k]);
    }
  }

  /** A stack with room for all of it takes it all. */
  lemma FilledAtOnce<T>(h: Heap<T>, h2: Heap<T>, c: T, item: T, k: nat, count: nat)
    requires c in h && item in h && Distinct(h[c].contents) && item !in h[c].contents
    requires FirstStack(h, h[c].contents, item, k) && forall x | x in h[c].contents :: x in h
    requires var into := h[c].contents[k]; count <= 100 - h[into].count && SameBut(h, h2, c, into, count)
    ensures Filled(h, h2, c, item, count, true)
  {
    var xs := h[c].contents;
    FirstFacts(h, c, item, k);
    hide FirstStack, HasRoom, RoomOn;
    RoomBefore(h, item, xs, k);
    RoomSplit(h, item, xs, k);
    forall j | 0 <= j < |xs| ensures h2[xs[j]].count == h[xs[j]].count + Share(h, item, xs, j, count) {
      assert xs[j] in xs;
      if j > k {
        RoomGrows(h, item, xs, k + 1, j);
      }
    }
  }

  lemma FirstFacts<T>(h: Heap<T>, c: T, item: T, k: nat)
    requires c in h && item in h && item !in h[c].contents && FirstStack(h, h[c].contents, item, k)
    ensures var xs := h[c].contents;
            && k < |xs| && xs[k] in xs && xs[k] in h && h[xs[k]].count < 100
            && RoomOn(h, item, xs[k]) == 100 - h[xs[k]].count && forall i | 0 <= i < k :: RoomOn(h, item, xs[i]) == 0
  {
  }

  lemma {:induction false} RoomGrows<T>(h: Heap<T>, item: T, xs: seq<T>, i: nat, j: nat)
    requires item in h && i <= j <= |xs|
    ensures RoomIn(h, item, xs[..i]) <= RoomIn(h, item, xs[..j])
    decreases j
  {
    if i < j {
      RoomGrows(h, item, xs, i, j - 1);
      RoomSplit(h, item, xs, j - 1);
    }
  }

  /** Without a stack with room the item lies in front. */
  lemma FilledInFront<T>(h: Heap<T>, h2: Heap<T>, c: T, item: T, stacks: bool)
    requires c in h && item in h && h.Keys <= h2.Keys && (forall x | x in h[c].contents :: x in h)
    requires stacks ==> forall j :: !FirstStack(h, h[c].contents, item, j)
    requires h2[c].contents == [item] + h[c].contents && h2[item].parent == Some(c)
    requires forall x | x in h :: h2[x].kind == h[x].kind && h2[x].attrs == h[x].attrs && h2[x].count == h[x].count
    ensures Filled(h, h2, c, item, h[item].count, stacks)
  {
    var xs := h[c].contents;
    assert h2[c].contents[1..] == xs;
    if stacks {
      NoFirst(h, xs, item, |xs|);
      RoomBefore(h, item, xs, |xs|);
      assert xs[..|xs|] == xs;
      hide HasRoom, FirstStack;
    }
  }

  lemma {:induction false} NoFirst<T>(h: Heap<T>, xs: seq<T>, item: T, k: nat)
    requires item in h && k <= |xs| && forall j :: !FirstStack(h, xs, item, j)
    ensures forall i | 0 <= i < k :: RoomOn(h, item, xs[i]) == 0
    decreases k
  {
    if k > 0 {
      NoFirst(h, xs, item, k - 1);
      assert !FirstStack(h, xs, item, k - 1);
    }
  }
}
