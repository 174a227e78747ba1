/** The heaps a move of an item runs through, and what each step does to the numbers of pieces. */
module MoveSteps {
  import opened Sums
  import opened Options
  import opened Ancestry
  import opened ItemHeap
  import opened CylinderQueries
  import opened Conservation
  import opened Items

  /** What a step leaves alone: nothing but the lists of `c`, the parent of `item`, counts and caches may change. */
  ghost predicate Kept<T>(h: Heap<T>, h': Heap<T>, c: T, item: T) {
    && h.Keys <= h'.Keys
    && forall x | x in h ::
         && h'[x].kind == h[x].kind && h'[x].attrs == h[x].attrs
         && h'[x].isContainer == h[x].isContainer && h'[x].capacity == h[x].capacity
         && h'[x].unlocked == h[x].unlocked && h'[x].pagination == h[x].pagination
         && (x != c ==> h'[x].contents == h[x].contents)
         && (x != item ==> h'[x].parent == h[x].parent)
  }

  lemma ShiftKept<T>(h: Heap<T>, at: T, diff: int, c: T, item: T)
    ensures Kept(h, ShiftWeights(h, at, diff), c, item)
    ensures forall x | x in h :: ShiftWeights(h, at, diff)[x].count == h[x].count
    ensures forall x | x in h :: ShiftWeights(h, at, diff)[x].contents == h[x].contents
    ensures forall x | x in h :: ShiftWeights(h, at, diff)[x].parent == h[x].parent
  {
    hide Inside;
  }

  // ----- Taking the pieces away

  ghost function TakenFrom<T>(h: Heap<T>, item: T, m: nat): nat
    requires item in h
  {
    if h[item].kind.stackable then m else h[item].count
  }

  lemma TakeCounts<T>(h: Heap<T>, from: T, item: T, m: nat)
    requires Valid(h) && StacksBounded(h) && from in h && item in h && item in h[from].contents
    requires h[item].kind.stackable ==> m <= h[item].count
    ensures CountsMove(h, Removed(h, from, item, m), from, h[item].GetKey(), 0 - TakenFrom(h, item, m))
  {
    hide Forest, Balanced, ParentsLinked, ContentsLinked, CountsMove, CountLeft, Retype, Unlink;
    HeldOutside(h, from, item);
    if h[item].kind.stackable && m != h[item].count {
      var left := CountLeft(h[item].count, m);
      StackLeft(h[item].count, m);
      RetypeCounts(h, from, item, left, h[item].subType, left - h[item].count);
    } else {
      UnlinkCounts(h, from, IndexOf(h[from].contents, item));
    }
  }

  lemma StackLeft(have: nat, take: nat)
    requires take <= have <= STACK_SIZE
    ensures CountLeft(have, take) == have - take
  {
  }

  lemma TakeKeeps<T>(h: Heap<T>, from: T, item: T, m: nat)
    requires Valid(h) && from in h && item in h && item in h[from].contents
    ensures var h1 := Removed(h, from, item, m);
            && h1.Keys == h.Keys && Kept(h, h1, from, item)
            && (forall x | x in h && x != item :: h1[x].count == h[x].count)
            && (forall x | x in h[from].contents && x != item :: x in h1[from].contents)
            && |h1[from].contents| <= |h[from].contents|
            && h1[from].contents == (if h[item].kind.stackable && m != h[item].count then h[from].contents
                                     else Minus(h[from].contents, item))
            && (h[item].kind.stackable && m != h[item].count ==>
                  h1[item].count == CountLeft(h[item].count, m) && h1[item].parent == h[item].parent)
            && (!(h[item].kind.stackable && m != h[item].count) ==>
                  h1[item].count == h[item].count && h1[item].parent == None)
  {
    hide Valid, Retype, Unlink, CountLeft, Kept;
    HeldOutside(h, from, item);
    if h[item].kind.stackable && m != h[item].count {
      var left := CountLeft(h[item].count, m);
      RetypeKeeps(h, from, item, left, h[item].subType, left - h[item].count);
    } else {
      UnlinkKeeps(h, from, item, IndexOf(h[from].contents, item));
      MinusAt(h[from].contents, item);
    }
  }

  /** A list without the first occurrence of an item. */
  function Minus<T(==)>(xs: seq<T>, x: T): seq<T> {
    if xs == [] then [] else if xs[0] == x then xs[1..] else [xs[0]] + Minus(xs[1..], x)
  }

  lemma {:induction false} MinusAt<T>(xs: seq<T>, x: T)
    requires x in xs
    ensures var i := IndexOf(xs, x);
            Minus(xs, x) == xs[..i] + xs[i + 1..]
  {
    if xs[0] != x {
      MinusAt(xs[1..], x);
    }
  }

  lemma RetypeKeeps<T>(h: Heap<T>, c: T, item: T, count: nat, subType: nat, ammo: int)
    requires c in h && item in h && c != item
    ensures var h1 := Retype(h, c, item, h[item].kind, count, subType, ammo);
            && Kept(h, h1, c, item) && Parents(h1) == Parents(h)
            && (forall x | x in h && x != item :: h1[x].count == h[x].count)
            && h1[c].contents == h[c].contents && h1[item].count == count && h1[item].parent == h[item].parent
  {
    hide ShiftWeights, StackWeight, Typed;
    TypedKeeps(h, c, item, count, subType, ammo);
    var h1 := Typed(h, c, item, h[item].kind, count, subType, ammo);
    ShiftKept(h1, c, h1[item].Weight() - h[item].Weight(), c, item);
    assert Parents(Retype(h, c, item, h[item].kind, count, subType, ammo)) == Parents(h);
  }

  lemma TypedKeeps<T>(h: Heap<T>, c: T, item: T, count: nat, subType: nat, ammo: int)
    requires c in h && item in h && c != item
    ensures var h1 := Typed(h, c, item, h[item].kind, count, subType, ammo);
            && Kept(h, h1, c, item)
            && (forall x | x in h && x != item :: h1[x].count == h[x].count)
            && (forall x | x in h :: h1[x].parent == h[x].parent)
            && h1[c].contents == h[c].contents && h1[item].count == count
  {
  }

  lemma UnlinkKeeps<T>(h: Heap<T>, c: T, item: T, i: nat)
    requires c in h && item in h && c != item && i < |h[c].contents| && h[c].contents[i] == item
    ensures var h1 := Unlink(h, c, i);
            && Kept(h, h1, c, item)
            && (forall x | x in h :: h1[x].count == h[x].count)
            && (forall x | x in h[c].contents && x != item :: x in h1[c].contents)
            && |h1[c].contents| <= |h[c].contents| && h1[item].parent == None
            && h1[c].contents == h[c].contents[..i] + h[c].contents[i + 1..]
  {
    hide ShiftWeights, StackWeight, Struck, Kept;
    var h' := ShiftWeights(h, c, -h[item].Weight());
    ShiftKept(h, c, -h[item].Weight(), c, item);
    StruckKeeps(h', c, item, i);
    KeptTwice(h, h', Unlink(h, c, i), c, item);
  }

  lemma KeptTwice<T>(h: Heap<T>, h1: Heap<T>, h2: Heap<T>, c: T, item: T)
    requires Kept(h, h1, c, item) && Kept(h1, h2, c, item)
    ensures Kept(h, h2, c, item)
  {
  }

  lemma StruckKeeps<T>(h: Heap<T>, c: T, item: T, i: nat)
    requires c in h && item in h && c != item && i < |h[c].contents| && h[c].contents[i] == item
    ensures var h1 := Struck(h, c, i);
            && Kept(h, h1, c, item)
            && (forall x | x in h :: h1[x].count == h[x].count)
            && (forall x | x in h[c].contents && x != item :: x in h1[c].contents)
            && |h1[c].contents| <= |h[c].contents| && h1[item].parent == None
            && h1[c].contents == h[c].contents[..i] + h[c].contents[i + 1..]
  {
  }

  /** Where the pieces go is not inside what is moved, before and after it is taken out. */
  lemma TakeKeepsOutside<T>(h: Heap<T>, h1: Heap<T>, from: T, item: T, dest: T)
    requires h1.Keys == h.Keys && Kept(h, h1, from, item) && item in h && dest in h
    requires h1[item].parent == None || h1[item].parent == h[item].parent
    requires !Inside(Parents(h), dest, item)
    ensures !Inside(Parents(h1), dest, item)
  {
    hide Inside;
    if h1[item].parent == None {
      assert Parents(h1) == Parents(h)[item := None];
      InsideUntouched(Parents(h), item, None, dest, item);
    } else {
      assert Parents(h1) == Parents(h);
    }
  }

  lemma TakeKeepsStacks<T>(h: Heap<T>, from: T, item: T, m: nat)
    requires Valid(h) && StacksBounded(h) && from in h && item in h && item in h[from].contents
    requires h[item].kind.stackable ==> m <= h[item].count
    ensures StacksBounded(Removed(h, from, item, m))
  {
    hide Valid, Removed, Kept, CountLeft;
    TakeKeeps(h, from, item, m);
    HeldOutside(h, from, item);
    BoundedAfterTake(h, Removed(h, from, item, m), from, item, m);
  }

  lemma BoundedAfterTake<T>(h: Heap<T>, h1: Heap<T>, from: T, item: T, m: nat)
    requires StacksBounded(h) && item in h && h[item].parent.Some?
    requires h1.Keys == h.Keys && Kept(h, h1, from, item)
    requires forall x | x in h && x != item :: h1[x].count == h[x].count
    requires h[item].kind.stackable ==> m <= h[item].count
    requires h[item].kind.stackable && m != h[item].count ==> h1[item].count == CountLeft(h[item].count, m)
    requires !(h[item].kind.stackable && m != h[item].count) ==> h1[item].count == h[item].count
    ensures StacksBounded(h1)
  {
    hide CountLeft;
    if h[item].kind.stackable {
      StackLeft(h[item].count, m);
    }
  }

  // ----- Merging into a stack of the destination

  lemma MergeStep<T>(h: Heap<T>, dest: T, into: T, n: nat)
    requires Valid(h) && StacksBounded(h) && dest in h && into in h && into in h[dest].contents
    requires h[into].kind.stackable && h[into].count + n <= STACK_SIZE
    ensures var h1 := Updated(h, dest, into, h[into].kind, h[into].count + n);
            && h1.Keys == h.Keys && Kept(h, h1, dest, into) && StacksBounded(h1)
            && CountsMove(h, h1, dest, h[into].GetKey(), n)
            && h1[dest].contents == h[dest].contents && Parents(h1) == Parents(h)
            && h1[into].count == h[into].count + n
            && (forall x | x in h && x != into :: h1[x].count == h[x].count)
  {
    hide Valid, Retype, CountsMove, Kept, ContentsLinked, SubTypeAfter;
    HeldOutside(h, dest, into);
    LinkedIsPart(h);
    var count := h[into].count + n;
    var subType := SubTypeAfter(h[into].kind, h[into].subType, count);
    assert CountAfter(h[into].kind, h[into].count, count) == count;
    RetypeCounts(h, dest, into, count, subType, n);
    RetypeKeeps(h, dest, into, count, subType, n);
    BoundedAfterMerge(h, Updated(h, dest, into, h[into].kind, count), dest, into);
  }

  lemma BoundedAfterMerge<T>(h: Heap<T>, h1: Heap<T>, dest: T, into: T)
    requires StacksBounded(h) && into in h && h1.Keys == h.Keys && Kept(h, h1, dest, into)
    requires h1[into].parent == h[into].parent && h1[into].count <= STACK_SIZE
    requires forall x | x in h && x != into :: h1[x].count == h[x].count
    ensures StacksBounded(h1)
  {
  }

  // ----- The copy that carries the rest

  lemma CopyStep<T>(h: Heap<T>, copy: T, r: Rec<T>, dest: T, k: Key)
    requires Valid(h) && StacksBounded(h) && copy !in h && IsLoose(r) && dest in h
    requires !r.isContainer && (r.kind.stackable ==> !r.kind.fluid)
    ensures var h1 := h[copy := r];
            && Valid(h1) && StacksBounded(h1) && !Inside(Parents(h1), dest, copy)
            && CountsMove(h, h1, dest, k, 0)
            && (forall x | x in h :: h1[x] == h[x])
  {
    hide Valid, Inside, CountsMove;
    NewItemKeepsValid(h, copy, r);
    NewItemEnclosesNothing(h, copy, r, dest);
    LinkedIsPart(h);
    NewItemCounts(h, copy, r, dest, k);
  }

  lemma LinkedIsPart<T>(h: Heap<T>)
    requires Valid(h)
    ensures ContentsLinked(h) && ParentsLinked(h, {}) && Forest(Parents(h))
  {
    hide ContentsLinked, Forest, ParentsLinked;
  }

  lemma NewItemEnclosesNothing<T>(h: Heap<T>, copy: T, r: Rec<T>, dest: T)
    requires Valid(h) && copy !in h && dest in h
    ensures !Inside(Parents(h[copy := r]), dest, copy)
  {
    hide Balanced, Forest, ContentsLinked;
    if Inside(Parents(h[copy := r]), dest, copy) {
      var k: nat :| Up(Parents(h[copy := r]), Some(dest), k) == Some(copy);
      ChainInside(h, copy, r, dest, k);
    }
  }

  lemma {:induction false} ChainInside<T>(h: Heap<T>, copy: T, r: Rec<T>, x: T, k: nat)
    requires ParentsLinked(h, {}) && copy !in h && x in h
    ensures Up(Parents(h[copy := r]), Some(x), k) != Some(copy)
    decreases k
  {
    var p := Parents(h[copy := r]);
    if k > 0 {
      assert p[x] == h[x].parent;
      if h[x].parent.Some? {
        ChainInside(h, copy, r, h[x].parent.value, k - 1);
      } else {
        UpOfNone(p, k - 1);
      }
    }
  }

  // ----- Putting it down

  lemma PutStep<T>(h: Heap<T>, dest: T, x: T)
    requires Valid(h) && StacksBounded(h) && dest in h && x in h && h[dest].isContainer
    requires h[x].parent == None && !Inside(Parents(h), dest, x)
    requires h[x].kind.stackable ==> h[x].count <= STACK_SIZE
    ensures dest != x
    ensures var h1 := Add(h, dest, x, true);
            && h1.Keys == h.Keys && Kept(h, h1, dest, x) && StacksBounded(h1)
            && CountsMove(h, h1, dest, h[x].GetKey(), h[x].count)
            && h1[dest].contents == [x] + h[dest].contents && h1[x].parent == Some(dest)
            && forall y | y in h :: h1[y].count == h[y].count
  {
    hide Valid, Inside, Add, CountsMove, Kept;
    OtherThan(h, dest, x);
    AddCounts(h, dest, x, true);
    AddKeeps(h, dest, x);
    BoundedAfterPut(h, Add(h, dest, x, true), dest, x);
  }

  lemma AddKeeps<T>(h: Heap<T>, dest: T, x: T)
    requires dest in h && x in h && dest != x
    ensures var h1 := Add(h, dest, x, true);
            && h1.Keys == h.Keys && Kept(h, h1, dest, x)
            && h1[dest].contents == [x] + h[dest].contents && h1[x].parent == Some(dest)
            && forall y | y in h :: h1[y].count == h[y].count
  {
    hide ShiftWeights, StackWeight;
    ShiftKept(Listed(h, dest, x, true), dest, h[x].Weight(), dest, x);
  }

  lemma BoundedAfterPut<T>(h: Heap<T>, h1: Heap<T>, dest: T, x: T)
    requires StacksBounded(h) && x in h && h1.Keys == h.Keys && Kept(h, h1, dest, x)
    requires h[x].kind.stackable ==> h[x].count <= STACK_SIZE
    requires forall y | y in h :: h1[y].count == h[y].count
    ensures StacksBounded(h1)
  {
  }
}
