/**
 The heap of items as a value: a record per item, and what every operation of a container does to the
 records. The class `Items.Item` is proved to do exactly this; the invariants are proved here.
 */
module ItemHeap {
  import opened Sums
  import opened Options
  import opened Ancestry

  type Word = w: int | 0 <= w < WORD

  const STACK_SIZE: nat := 100

  /** One entry of the item table; the item id stands for the whole entry. */
  datatype ItemType = ItemType(
    id: nat, weight: Word, stackable: bool, fluid: bool, charges: nat,
    pickupable: bool, moveable: bool, storeItem: bool, quiver: bool, ammo: bool)

  /** What decides whether two items stack: the type and the attribute list. */
  datatype Key = Key(kind: ItemType, attrs: nat)

  function StackWeight(kind: ItemType, count: nat): (w: int)
    ensures 0 <= w < WORD
  {
    if kind.stackable then (kind.weight * (if count < 1 then 1 else count)) % WORD else kind.weight
  }

  /** Two stacks weigh what they weigh together, in 32 bits; one piece, and no piece, weighs what the table says. */
  lemma StacksAddUp(kind: ItemType, a: nat, b: nat)
    requires kind.stackable
    ensures StackWeight(kind, 0) == StackWeight(kind, 1) == kind.weight
    ensures a > 0 && b > 0 ==> Cong(StackWeight(kind, a + b), StackWeight(kind, a) + StackWeight(kind, b))
  {
    if a > 0 && b > 0 {
      assert kind.weight * (a + b) == kind.weight * a + kind.weight * b;
      CongWrap(kind.weight * (a + b));
      CongWrap(kind.weight * a);
      CongWrap(kind.weight * b);
      var i :| OffByWords(StackWeight(kind, a + b), kind.weight * (a + b), i);
      var j :| OffByWords(StackWeight(kind, a), kind.weight * a, j);
      var k :| OffByWords(StackWeight(kind, b), kind.weight * b, k);
      assert OffByWords(StackWeight(kind, a + b), StackWeight(kind, a) + StackWeight(kind, b), i - j - k);
    }
  }

  datatype Rec<T> = Rec(
    kind: ItemType, attrs: nat, count: nat, subType: nat, parent: Option<T>,
    isContainer: bool, capacity: nat, unlocked: bool, pagination: bool,
    contents: seq<T>, totalWeight: Word, ammoCount: Word)
  {
    function GetKey(): Key {
      Key(kind, attrs)
    }

    /** The weight of the item itself, in 32 bits. */
    function OwnWeight(): (w: int)
      ensures 0 <= w < WORD
    {
      StackWeight(kind, count)
    }

    function Weight(): (w: int)
      ensures 0 <= w < WORD
    {
      if isContainer then (OwnWeight() + totalWeight) % WORD else OwnWeight()
    }

    function Shifted(diff: int): Rec<T> {
      this.(totalWeight := (totalWeight + diff) % WORD)
    }

    function Ammo(diff: int): Rec<T> {
      this.(ammoCount := (ammoCount + diff) % WORD)
    }
  }

  type Heap<T> = map<T, Rec<T>>

  ghost function Parents<T>(h: Heap<T>): map<T, Option<T>> {
    map x | x in h :: h[x].parent
  }

  ghost function Weights<T>(h: Heap<T>): map<T, int> {
    map x | x in h :: h[x].Weight()
  }

  ghost function Counts<T>(h: Heap<T>): map<T, int> {
    map x | x in h :: h[x].count
  }

  // ----- Invariant

  /** Every content is a known item that names the container as its parent, and is listed once. */
  ghost predicate ContentsLinked<T>(h: Heap<T>) {
    forall x | x in h ::
      && Distinct(h[x].contents)
      && (h[x].contents != [] ==> h[x].isContainer)
      && (forall y | y in h[x].contents :: y in h && h[y].parent == Some(x))
  }

  /** Every item that names a parent is listed there; `loose` items are excused. */
  ghost predicate ParentsLinked<T>(h: Heap<T>, loose: set<T>) {
    forall x | x in h && x !in loose && h[x].parent.Some? ::
      h[x].parent.value in h && x in h[h[x].parent.value].contents
  }

  /** How far the cached weight of the contents is from the weights of the contents. */
  ghost function Defect<T>(h: Heap<T>, x: T): int
    requires x in h
  {
    h[x].totalWeight - Sum(Weights(h), h[x].contents)
  }

  ghost function AmmoDefect<T>(h: Heap<T>, x: T): int
    requires x in h
  {
    h[x].ammoCount - Sum(Counts(h), h[x].contents)
  }

  ghost predicate Balanced<T>(h: Heap<T>) {
    forall x | x in h :: Cong(Defect(h, x), 0)
  }

  ghost predicate AmmoBalanced<T>(h: Heap<T>) {
    forall x | x in h :: Cong(AmmoDefect(h, x), 0)
  }

  ghost predicate Valid<T>(h: Heap<T>) {
    ContentsLinked(h) && ParentsLinked(h, {}) && Forest(Parents(h)) && Balanced(h)
  }

  // ----- Propagation of a weight change

  /** The cached weight of `at` and of every container around it moves by `diff`. */
  ghost function ShiftWeights<T>(h: Heap<T>, at: T, diff: int): (h': Heap<T>)
    ensures h'.Keys == h.Keys
  {
    map x | x in h :: if Inside(Parents(h), at, x) then h[x].Shifted(diff) else h[x]
  }

  lemma SumChangedAt<T>(m: map<T, int>, m': map<T, int>, xs: seq<T>, y: T)
    requires Distinct(xs)
    requires forall x | x in xs && x != y :: Value(m, x) == Value(m', x)
    ensures Sum(m', xs) == Sum(m, xs) + (if y in xs then Value(m', y) - Value(m, y) else 0)
  {
    SumUpdate(m, xs, y, Value(m', y));
    SumAgree(m[y := Value(m', y)], m', xs);
  }

  /** Of the contents of one container at most one encloses a given item. */
  lemma OneContentOnChain<T>(h: Heap<T>, at: T, x: T, y: T, z: T)
    requires ContentsLinked(h) && Forest(Parents(h)) && x in h
    requires y in h[x].contents && z in h[x].contents
    requires Inside(Parents(h), at, y) && Inside(Parents(h), at, z)
    ensures y == z
  {
    var p := Parents(h);
    var j: nat :| Up(p, Some(at), j) == Some(y);
    var k: nat :| Up(p, Some(at), k) == Some(z);
    if j < k {
      UpCompose(p, Some(at), j, k - j);
      assert Up(p, Some(x), k - j - 1) == Some(z);
      UpCompose(p, Some(x), k - j - 1, 1);
      assert Up(p, Some(z), 1) == Some(x);
      NoCycle(p, x, k - j);
    } else if k < j {
      UpCompose(p, Some(at), k, j - k);
      assert Up(p, Some(x), j - k - 1) == Some(y);
      UpCompose(p, Some(x), j - k - 1, 1);
      assert Up(p, Some(y), 1) == Some(x);
      NoCycle(p, x, j - k);
    }
  }

  /** The step of a chain that leads into a container around `at`. */
  lemma ContentOnChain<T>(h: Heap<T>, at: T, x: T) returns (y: T)
    requires ContentsLinked(h) && at in h && x in h
    requires forall z | Inside(Parents(h), at, z) && z in h && h[z].parent.Some? ::
               h[z].parent.value in h && z in h[h[z].parent.value].contents
    requires Inside(Parents(h), at, x) && at != x
    ensures y in h[x].contents && Inside(Parents(h), at, y)
  {
    var p := Parents(h);
    var k: nat :| Up(p, Some(at), k) == Some(x);
    assert k > 0;
    UpCompose(p, Some(at), k - 1, 1);
    var prev := Up(p, Some(at), k - 1);
    assert prev.Some?;
    y := prev.value;
    assert Up(p, Some(y), 1) == Some(x);
    assert Inside(p, at, y);
  }

  /** Nothing a container holds is on the chain that starts at it or avoids it. */
  lemma ContentsOffChain<T>(h: Heap<T>, at: T, x: T, z: T)
    requires ContentsLinked(h) && Forest(Parents(h))
    requires at in h && x in h && z in h[x].contents
    requires x == at || !Inside(Parents(h), at, x)
    ensures !Inside(Parents(h), at, z)
  {
    var p := Parents(h);
    if Inside(p, at, z) {
      assert p[z] == Some(x);
      InsideRefl(p, x);
      InsideStep(p, z, x, x);
      InsideTransitive(p, at, z, x);
      assert x == at;
      var k: nat :| Up(p, Some(at), k) == Some(z);
      UpCompose(p, Some(at), k, 1);
      assert Up(p, Some(z), 1) == Some(at);
      NoCycle(p, at, k + 1);
    }
  }

  lemma ShiftedContentsOffChain<T>(h: Heap<T>, at: T, diff: int, x: T)
    requires ContentsLinked(h) && Forest(Parents(h))
    requires at in h && x in h
    requires x == at || !Inside(Parents(h), at, x)
    ensures Sum(Weights(ShiftWeights(h, at, diff)), h[x].contents) == Sum(Weights(h), h[x].contents)
  {
    var h' := ShiftWeights(h, at, diff);
    forall z | z in h[x].contents
      ensures Value(Weights(h), z) == Value(Weights(h'), z)
    {
      ContentsOffChain(h, at, x, z);
      assert h'[z] == h[z];
    }
    SumAgree(Weights(h), Weights(h'), h[x].contents);
  }

  /** Around the start, exactly one content of every enclosing container weighs `diff` more. */
  lemma ShiftedContentsOnChain<T>(h: Heap<T>, at: T, diff: int, loose: set<T>, x: T) returns (y: T)
    requires ContentsLinked(h) && ParentsLinked(h, loose) && Forest(Parents(h))
    requires forall z | z in loose :: !Inside(Parents(h), at, z)
    requires at in h && h[at].isContainer && x in h
    requires x != at && Inside(Parents(h), at, x)
    ensures y in h && h[y].isContainer
    ensures Sum(Weights(ShiftWeights(h, at, diff)), h[x].contents)
         == Sum(Weights(h), h[x].contents) + h[y].Shifted(diff).Weight() - h[y].Weight()
  {
    y := ContentOnChain(h, at, x);
    InsideIsContainer(h, at, y, loose);
    ShiftedSumAt(h, at, diff, x, y);
  }

  lemma ShiftedSumAt<T>(h: Heap<T>, at: T, diff: int, x: T, y: T)
    requires ContentsLinked(h) && Forest(Parents(h)) && x in h
    requires y in h[x].contents && Inside(Parents(h), at, y)
    ensures Sum(Weights(ShiftWeights(h, at, diff)), h[x].contents)
         == Sum(Weights(h), h[x].contents) + h[y].Shifted(diff).Weight() - h[y].Weight()
  {
    var h' := ShiftWeights(h, at, diff);
    forall z | z in h[x].contents && z != y
      ensures Value(Weights(h), z) == Value(Weights(h'), z)
    {
      if Inside(Parents(h), at, z) {
        OneContentOnChain(h, at, x, y, z);
      }
    }
    SumChangedAt(Weights(h), Weights(h'), h[x].contents, y);
  }

  lemma ShiftedWeight<T>(r: Rec<T>, diff: int)
    requires r.isContainer
    ensures Cong(r.Shifted(diff).Weight(), r.Weight() + diff)
  {
    var own := r.OwnWeight();
    var total := (r.totalWeight + diff) % WORD;
    assert r.Shifted(diff).Weight() == (own + total) % WORD;
    CongWrap(own + r.totalWeight);
    CongWrap(r.totalWeight + diff);
    CongWrap(own + total);
    var j :| OffByWords(r.Weight(), own + r.totalWeight, j);
    var k :| OffByWords(total, r.totalWeight + diff, k);
    var l :| OffByWords(r.Shifted(diff).Weight(), own + total, l);
    assert OffByWords(r.Shifted(diff).Weight(), r.Weight() + diff, l + k - j);
  }

  lemma ShiftedSum<T>(sum: int, r: Rec<T>, diff: int)
    requires r.isContainer
    ensures Cong(sum + r.Shifted(diff).Weight() - r.Weight(), sum + diff)
  {
    ShiftedWeight(r, diff);
    var k :| OffByWords(r.Shifted(diff).Weight(), r.Weight() + diff, k);
    assert OffByWords(sum + r.Shifted(diff).Weight() - r.Weight(), sum + diff, k);
  }

  lemma ShiftedDefect(total: int, total': int, sum: int, sum': int, diff: int, e: int)
    requires Cong(sum', sum + e)
    requires total' == (total + diff) % WORD
    ensures Cong(total' - sum', total - sum + (diff - e))
  {
    CongWrap(total + diff);
    var j :| OffByWords(total', total + diff, j);
    var k :| OffByWords(sum', sum + e, k);
    assert OffByWords(total' - sum', total - sum + (diff - e), j - k);
  }

  /** Propagation repairs nothing and breaks nothing, except at the container where it starts. */
  lemma ShiftMovesDefect<T>(h: Heap<T>, at: T, diff: int, loose: set<T>, x: T)
    requires ContentsLinked(h) && ParentsLinked(h, loose) && Forest(Parents(h))
    requires forall z | z in loose :: !Inside(Parents(h), at, z)
    requires at in h && h[at].isContainer && x in h
    ensures x in ShiftWeights(h, at, diff)
    ensures Cong(Defect(ShiftWeights(h, at, diff), x), Defect(h, x) + (if x == at then diff else 0))
  {
    if x == at || !Inside(Parents(h), at, x) {
      ShiftedContentsOffChain(h, at, diff, x);
      ShiftOffChain(h, at, diff, x);
    } else {
      var y := ShiftedContentsOnChain(h, at, diff, loose, x);
      ShiftOnChain(h, at, diff, x, y);
    }
  }

  lemma ShiftOffChain<T>(h: Heap<T>, at: T, diff: int, x: T)
    requires at in h && x in h
    requires x == at || !Inside(Parents(h), at, x)
    requires Sum(Weights(ShiftWeights(h, at, diff)), h[x].contents) == Sum(Weights(h), h[x].contents)
    ensures Cong(Defect(ShiftWeights(h, at, diff), x), Defect(h, x) + (if x == at then diff else 0))
  {
    var h' := ShiftWeights(h, at, diff);
    var sum := Sum(Weights(h), h[x].contents);
    CongRefl(sum);
    CongRefl(Defect(h, x));
    if x == at {
      InsideRefl(Parents(h), at);
      ShiftedDefect(h[x].totalWeight, h'[x].totalWeight, sum, sum, diff, 0);
    }
  }

  lemma ShiftOnChain<T>(h: Heap<T>, at: T, diff: int, x: T, y: T)
    requires at in h && x in h && x != at && Inside(Parents(h), at, x)
    requires y in h && h[y].isContainer
    requires Sum(Weights(ShiftWeights(h, at, diff)), h[x].contents)
          == Sum(Weights(h), h[x].contents) + h[y].Shifted(diff).Weight() - h[y].Weight()
    ensures Cong(Defect(ShiftWeights(h, at, diff), x), Defect(h, x))
  {
    hide Inside, Cong, Sum, StackWeight;
    var h' := ShiftWeights(h, at, diff);
    ShiftedSum(Sum(Weights(h), h[x].contents), h[y], diff);
    ShiftedDefect(h[x].totalWeight, h'[x].totalWeight, Sum(Weights(h), h[x].contents),
                  Sum(Weights(h'), h[x].contents), diff, diff);
  }

  /** Whatever encloses a container is a container. */
  lemma InsideIsContainer<T>(h: Heap<T>, at: T, y: T, loose: set<T>)
    requires ContentsLinked(h) && ParentsLinked(h, loose)
    requires forall z | z in loose :: !Inside(Parents(h), at, z)
    requires at in h && h[at].isContainer
    requires Inside(Parents(h), at, y)
    ensures y in h && h[y].isContainer
  {
    if y != at {
      var p := Parents(h);
      var k: nat :| Up(p, Some(at), k) == Some(y);
      UpCompose(p, Some(at), k - 1, 1);
      var prev := Up(p, Some(at), k - 1);
      assert prev.Some?;
      assert Inside(p, at, prev.value);
      assert Up(p, prev, 1) == Some(y);
    }
  }

  // ----- The operations

  /** `c` lists `item` first or last, but no weight has been propagated yet. */
  ghost function Listed<T>(h: Heap<T>, c: T, item: T, front: bool): (h': Heap<T>)
    requires c in h && item in h
    ensures h'.Keys == h.Keys
  {
    var contents := if front then [item] + h[c].contents else h[c].contents + [item];
    h[item := h[item].(parent := Some(c))][c := h[c].(contents := contents).Ammo(h[item].count)]
  }

  /** `item`, so far without parent, becomes the first or the last content of `c`. */
  ghost function Add<T>(h: Heap<T>, c: T, item: T, front: bool): (h': Heap<T>)
    requires c in h && item in h
    ensures h'.Keys == h.Keys
  {
    ShiftWeights(Listed(h, c, item, front), c, h[item].Weight())
  }

  /** A content of `c` is another, but no weight has been propagated yet. */
  ghost function Typed<T>(h: Heap<T>, c: T, item: T, kind: ItemType, count: nat, subType: nat, ammo: int): (h': Heap<T>)
    requires c in h && item in h && c != item
    ensures h'.Keys == h.Keys
  {
    h[item := h[item].(kind := kind, count := count, subType := subType)][c := h[c].Ammo(ammo)]
  }

  /**
   The content `item` of `c` gets another type, count and subtype; `ammo` is added to the number of items cached in `c`.
   */
  ghost function Retype<T>(h: Heap<T>, c: T, item: T, kind: ItemType, count: nat, subType: nat,
                           ammo: int): (h': Heap<T>)
    requires c in h && item in h && c != item
    ensures h'.Keys == h.Keys
  {
    var typed := Typed(h, c, item, kind, count, subType, ammo);
    ShiftWeights(typed, c, typed[item].Weight() - h[item].Weight())
  }

  /** The content of `c` at position `i` is struck off the list, but no weight has been propagated. */
  ghost function Struck<T>(h: Heap<T>, c: T, i: nat): (h': Heap<T>)
    requires c in h && i < |h[c].contents| && h[c].contents[i] in h && h[c].contents[i] != c
    ensures h'.Keys == h.Keys
  {
    var item := h[c].contents[i];
    h[item := h[item].(parent := None)]
     [c := h[c].(contents := h[c].contents[..i] + h[c].contents[i + 1..]).Ammo(0 - h[item].count)]
  }

  /** The content of `c` at position `i` leaves. */
  ghost function Unlink<T>(h: Heap<T>, c: T, i: nat): (h': Heap<T>)
    requires c in h && i < |h[c].contents| && h[c].contents[i] in h && h[c].contents[i] != c
    ensures h'.Keys == h.Keys
  {
    Struck(ShiftWeights(h, c, -h[h[c].contents[i]].Weight()), c, i)
  }

  /** `item` stands in the list of `c` where another item stood, but no weight has been propagated. */
  ghost function Swapped<T>(h: Heap<T>, c: T, i: nat, item: T): (h': Heap<T>)
    requires c in h && item in h && i < |h[c].contents| && h[c].contents[i] in h && c != item
    ensures h'.Keys == h.Keys
  {
    h[item := h[item].(parent := Some(c))]
     [c := h[c].(contents := h[c].contents[i := item]).Ammo(h[item].count - h[h[c].contents[i]].count)]
  }

  /** `item` takes the place of the content of `c` at position `i`, which is left without parent. */
  ghost function Replace<T>(h: Heap<T>, c: T, i: nat, item: T): (h': Heap<T>)
    requires c in h && item in h && i < |h[c].contents| && h[c].contents[i] in h && c != item
    ensures h'.Keys == h.Keys
  {
    var out := h[c].contents[i];
    var weighed := ShiftWeights(Swapped(h, c, i, item), c, h[item].Weight() - h[out].Weight());
    weighed[out := weighed[out].(parent := None)]
  }

  // ----- What every operation keeps

  lemma ShiftKeepsLinks<T>(h: Heap<T>, at: T, diff: int, loose: set<T>)
    requires ContentsLinked(h) && ParentsLinked(h, loose) && Forest(Parents(h))
    ensures Parents(ShiftWeights(h, at, diff)) == Parents(h)
    ensures ContentsLinked(ShiftWeights(h, at, diff)) && ParentsLinked(ShiftWeights(h, at, diff), loose)
  {
    hide ContentsLinked, ParentsLinked, Forest, Inside;
    SameLinks(h, ShiftWeights(h, at, diff), loose);
  }

  /** A heap that is off by `diff` at one container is balanced by propagating `diff` from there. */
  lemma ShiftBalances<T>(h: Heap<T>, at: T, diff: int, loose: set<T>)
    requires ContentsLinked(h) && ParentsLinked(h, loose) && Forest(Parents(h))
    requires forall z | z in loose :: !Inside(Parents(h), at, z)
    requires at in h && h[at].isContainer
    requires forall x | x in h :: Cong(Defect(h, x), if x == at then -diff else 0)
    ensures Balanced(ShiftWeights(h, at, diff))
  {
    forall x | x in h
      ensures Cong(Defect(ShiftWeights(h, at, diff), x), 0)
    {
      var d := Defect(h, x);
      assert Cong(d, if x == at then -diff else 0);
      ShiftBalancesAt(h, at, diff, loose, x, d);
    }
  }

  lemma ShiftBalancesAt<T>(h: Heap<T>, at: T, diff: int, loose: set<T>, x: T, d: int)
    requires ContentsLinked(h) && ParentsLinked(h, loose) && Forest(Parents(h))
    requires forall z | z in loose :: !Inside(Parents(h), at, z)
    requires at in h && h[at].isContainer && x in h
    requires d == Defect(h, x) && Cong(d, if x == at then -diff else 0)
    ensures Cong(Defect(ShiftWeights(h, at, diff), x), 0)
  {
    hide *;
    ShiftMovesDefect(h, at, diff, loose, x);
    OffsetCancels(Defect(ShiftWeights(h, at, diff), x), d, if x == at then diff else 0);
  }

  lemma OffsetCancels(d': int, d: int, diff: int)
    requires Cong(d', d + diff) && Cong(d, -diff)
    ensures Cong(d', 0)
  {
    var j :| OffByWords(d', d + diff, j);
    var k :| OffByWords(d, -diff, k);
    assert OffByWords(d', 0, j + k);
  }

  lemma NotListedAnywhere<T>(h: Heap<T>, item: T, x: T)
    requires ContentsLinked(h) && item in h && x in h
    requires h[item].parent == None
    ensures item !in h[x].contents
  {
  }

  /** Hanging an item without parent into a container keeps both directions of the links. */
  lemma ListedLinks<T>(h: Heap<T>, c: T, item: T, front: bool)
    requires ContentsLinked(h) && ParentsLinked(h, {}) && c in h && item in h && h[c].isContainer
    requires item != c && h[item].parent == None
    ensures ContentsLinked(Listed(h, c, item, front)) && ParentsLinked(Listed(h, c, item, front), {})
  {
    hide ContentsLinked, ParentsLinked, Listed;
    ListedContents(h, c, item, front);
    ListedParents(h, c, item, front);
  }

  lemma ListedContents<T>(h: Heap<T>, c: T, item: T, front: bool)
    requires ContentsLinked(h) && c in h && item in h && h[c].isContainer
    requires item != c && h[item].parent == None
    ensures ContentsLinked(Listed(h, c, item, front))
  {
    var h1 := Listed(h, c, item, front);
    forall x | x in h1
      ensures Distinct(h1[x].contents) && (h1[x].contents != [] ==> h1[x].isContainer)
      ensures forall y | y in h1[x].contents :: y in h1 && h1[y].parent == Some(x)
    {
      NotListedAnywhere(h, item, x);
      ContentsOf(h, x);
      hide ContentsLinked;
      if x != c {
        assert h1[x].contents == h[x].contents;
      }
    }
  }

  lemma ContentsOf<T>(h: Heap<T>, x: T)
    requires ContentsLinked(h) && x in h
    ensures Distinct(h[x].contents) && (h[x].contents != [] ==> h[x].isContainer)
    ensures forall y | y in h[x].contents :: y in h && h[y].parent == Some(x)
  {
  }

  lemma ListedParents<T>(h: Heap<T>, c: T, item: T, front: bool)
    requires ParentsLinked(h, {}) && c in h && item in h
    requires item != c && h[item].parent == None
    ensures ParentsLinked(Listed(h, c, item, front), {})
  {
    var h1 := Listed(h, c, item, front);
    forall x | x in h1 && h1[x].parent.Some?
      ensures h1[x].parent.value in h1 && x in h1[h1[x].parent.value].contents
    {
      if x != item {
        assert h1[x].parent == h[x].parent;
      }
    }
  }

  lemma ListedForest<T>(h: Heap<T>, c: T, item: T, front: bool)
    requires Forest(Parents(h)) && c in h && item in h
    requires item != c && !Inside(Parents(h), c, item)
    ensures Parents(Listed(h, c, item, front)) == Parents(h)[item := Some(c)]
    ensures Forest(Parents(Listed(h, c, item, front)))
  {
    assert Parents(Listed(h, c, item, front)) == Parents(h)[item := Some(c)];
    LinkKeepsForest(Parents(h), item, c);
  }

  lemma SumOfListed<T>(m: map<T, int>, xs: seq<T>, item: T, front: bool)
    ensures Sum(m, if front then [item] + xs else xs + [item]) == Sum(m, xs) + Value(m, item)
  {
    SumConcat(m, [item], xs);
    SumConcat(m, xs, [item]);
    assert Sum(m, [item]) == Value(m, item);
  }

  lemma ListedDefect<T>(h: Heap<T>, c: T, item: T, front: bool, x: T)
    requires c in h && item in h && c != item && x in h
    ensures Defect(Listed(h, c, item, front), x) == Defect(h, x) - (if x == c then h[item].Weight() else 0)
  {
    hide StackWeight;
    assert Weights(Listed(h, c, item, front)) == Weights(h);
    if x == c {
      SumOfListed(Weights(h), h[c].contents, item, front);
    }
  }

  lemma ListedAmmo<T>(h: Heap<T>, c: T, item: T, front: bool, x: T)
    requires c in h && item in h && c != item && x in h
    ensures Cong(AmmoDefect(Listed(h, c, item, front), x), AmmoDefect(h, x))
  {
    hide Cong;
    assert Counts(Listed(h, c, item, front)) == Counts(h);
    CongRefl(AmmoDefect(h, x));
    if x == c {
      SumOfListed(Counts(h), h[c].contents, item, front);
      WrappedAmmo(h[c].ammoCount, h[item].count, Sum(Counts(h), h[c].contents));
    }
  }

  lemma WrappedAmmo(ammo: int, diff: int, sum: int)
    ensures Cong((ammo + diff) % WORD - (sum + diff), ammo - sum)
  {
    CongWrap(ammo + diff);
    var k :| OffByWords((ammo + diff) % WORD, ammo + diff, k);
    assert OffByWords((ammo + diff) % WORD - (sum + diff), ammo - sum, k);
  }

  lemma CongShift(a: int, b: int)
    requires Cong(a, 0)
    ensures Cong(a + b, b) && Cong(a - b, -b)
  {
    var k :| OffByWords(a, 0, k);
    assert OffByWords(a + b, b, k);
    assert OffByWords(a - b, -b, k);
  }

  lemma ListedOffBy<T>(h: Heap<T>, c: T, item: T, front: bool, x: T)
    requires c in h && item in h && c != item && x in h
    requires Cong(Defect(h, x), 0)
    ensures Cong(Defect(Listed(h, c, item, front), x), if x == c then -h[item].Weight() else 0)
  {
    hide Cong;
    ListedDefect(h, c, item, front, x);
    CongShift(Defect(h, x), h[item].Weight());
  }

  /** Adding an item keeps the invariant: the tree stays a tree and every cached weight stays exact. */
  lemma AddKeepsValid<T>(h: Heap<T>, c: T, item: T, front: bool)
    requires Valid(h) && c in h && item in h && h[c].isContainer
    requires h[item].parent == None && !Inside(Parents(h), c, item)
    ensures Valid(Add(h, c, item, front))
  {
    hide ContentsLinked, ParentsLinked, Forest, Inside, Defect, Cong, ShiftWeights;
    InsideRefl(Parents(h), c);
    var h1 := Listed(h, c, item, front);
    ListedLinks(h, c, item, front);
    ListedForest(h, c, item, front);
    forall x | x in h
      ensures Cong(Defect(h1, x), if x == c then -h[item].Weight() else 0)
    {
      ListedOffBy(h, c, item, front, x);
    }
    ShiftBalances(h1, c, h[item].Weight(), {});
    ShiftKeepsLinks(h1, c, h[item].Weight(), {});
  }

  lemma ShiftKeepsAmmo<T>(h: Heap<T>, at: T, diff: int, x: T)
    requires x in h
    ensures AmmoDefect(ShiftWeights(h, at, diff), x) == AmmoDefect(h, x)
  {
    assert Counts(ShiftWeights(h, at, diff)) == Counts(h);
  }

  lemma AddKeepsAmmo<T>(h: Heap<T>, c: T, item: T, front: bool)
    requires AmmoBalanced(h) && c in h && item in h && c != item
    ensures AmmoBalanced(Add(h, c, item, front))
  {
    hide Cong, Listed, ShiftWeights;
    var h1 := Listed(h, c, item, front);
    forall x | x in h
      ensures Cong(AmmoDefect(Add(h, c, item, front), x), 0)
    {
      ListedAmmo(h, c, item, front, x);
      ShiftKeepsAmmo(h1, c, h[item].Weight(), x);
      CongTransitive(AmmoDefect(h1, x), AmmoDefect(h, x), 0);
    }
  }

  // ----- Changing a content in place

  lemma TypedLinks<T>(h: Heap<T>, c: T, item: T, kind: ItemType, count: nat, subType: nat, ammo: int)
    requires ContentsLinked(h) && ParentsLinked(h, {}) && c in h && item in h && c != item
    ensures Parents(Typed(h, c, item, kind, count, subType, ammo)) == Parents(h)
    ensures ContentsLinked(Typed(h, c, item, kind, count, subType, ammo))
    ensures ParentsLinked(Typed(h, c, item, kind, count, subType, ammo), {})
  {
    SameLinks(h, Typed(h, c, item, kind, count, subType, ammo), {});
  }

  /** The links depend on nothing but parents, contents and what is a container. */
  lemma SameLinks<T>(h: Heap<T>, h1: Heap<T>, loose: set<T>)
    requires ContentsLinked(h) && ParentsLinked(h, loose) && h1.Keys == h.Keys
    requires forall x | x in h :: h1[x].parent == h[x].parent && h1[x].contents == h[x].contents
                                  && h1[x].isContainer == h[x].isContainer
    ensures Parents(h1) == Parents(h) && ContentsLinked(h1) && ParentsLinked(h1, loose)
  {
    assert Parents(h1) == Parents(h);
    forall x | x in h1 && x !in loose && h1[x].parent.Some?
      ensures h1[x].parent.value in h1 && x in h1[h1[x].parent.value].contents
    {
      assert h[x].parent.value in h && x in h[h[x].parent.value].contents;
    }
  }

  lemma HeldOnce<T>(h: Heap<T>, c: T, item: T, x: T)
    requires ContentsLinked(h) && c in h && item in h[c].contents && x in h
    ensures Distinct(h[x].contents) && (x != c ==> item !in h[x].contents)
  {
  }

  lemma TypedWeights<T>(h: Heap<T>, c: T, item: T, kind: ItemType, count: nat, subType: nat, ammo: int)
    requires c in h && item in h && c != item
    ensures var h1 := Typed(h, c, item, kind, count, subType, ammo);
            Weights(h1) == Weights(h)[item := h1[item].Weight()]
  {
    hide StackWeight;
    var h1 := Typed(h, c, item, kind, count, subType, ammo);
    assert Weights(h1) == Weights(h)[item := h1[item].Weight()];
  }

  /** Only the container that holds the changed item is off, by the change of its weight. */
  lemma TypedOffBy<T>(h: Heap<T>, c: T, item: T, kind: ItemType, count: nat, subType: nat, ammo: int, x: T)
    requires ContentsLinked(h) && c in h && item in h[c].contents && c != item && x in h
    requires item in h && Cong(Defect(h, x), 0)
    ensures var h1 := Typed(h, c, item, kind, count, subType, ammo);
            Cong(Defect(h1, x), if x == c then -(h1[item].Weight() - h[item].Weight()) else 0)
  {
    hide Cong, StackWeight, Sum;
    var h1 := Typed(h, c, item, kind, count, subType, ammo);
    HeldOnce(h, c, item, x);
    TypedWeights(h, c, item, kind, count, subType, ammo);
    SumUpdate(Weights(h), h[x].contents, item, h1[item].Weight());
    CongShift(Defect(h, x), h1[item].Weight() - h[item].Weight());
  }

  /** The cached number of items stays exact precisely when the container is told the change of the count. */
  lemma TypedAmmo<T>(h: Heap<T>, c: T, item: T, kind: ItemType, count: nat, subType: nat, ammo: int, x: T)
    requires ContentsLinked(h) && c in h && item in h[c].contents && c != item && x in h
    requires item in h && Cong(AmmoDefect(h, x), 0)
    ensures Cong(AmmoDefect(Typed(h, c, item, kind, count, subType, ammo), x), 0)
       <==> x != c || Cong(ammo, count - h[item].count)
  {
    hide Cong, Sum;
    var h1 := Typed(h, c, item, kind, count, subType, ammo);
    assert Counts(h1) == Counts(h)[item := count];
    HeldOnce(h, c, item, x);
    SumUpdate(Counts(h), h[x].contents, item, count);
    if x == c {
      AmmoIff(h[c].ammoCount, Sum(Counts(h), h[c].contents), ammo, count - h[item].count);
    }
  }

  lemma AmmoIff(cached: int, sum: int, ammo: int, change: int)
    requires Cong(cached - sum, 0)
    ensures Cong((cached + ammo) % WORD - (sum + change), 0) <==> Cong(ammo, change)
  {
    CongWrap(cached + ammo);
    var j :| OffByWords((cached + ammo) % WORD, cached + ammo, j);
    var k :| OffByWords(cached - sum, 0, k);
    if Cong(ammo, change) {
      var l :| OffByWords(ammo, change, l);
      assert OffByWords((cached + ammo) % WORD - (sum + change), 0, j + k + l);
    }
    if Cong((cached + ammo) % WORD - (sum + change), 0) {
      var l :| OffByWords((cached + ammo) % WORD - (sum + change), 0, l);
      assert OffByWords(ammo, change, l - j - k);
    }
  }

  lemma RetypeKeepsValid<T>(h: Heap<T>, c: T, item: T, kind: ItemType, count: nat, subType: nat, ammo: int)
    requires Valid(h) && c in h && item in h && item in h[c].contents && item != c
    ensures Valid(Retype(h, c, item, kind, count, subType, ammo))
  {
    hide ContentsLinked, ParentsLinked, Forest, Inside, Defect, Cong, ShiftWeights;
    var h1 := Typed(h, c, item, kind, count, subType, ammo);
    var diff := h1[item].Weight() - h[item].Weight();
    TypedLinks(h, c, item, kind, count, subType, ammo);
    HolderIsContainer(h, c, item);
    forall x | x in h
      ensures Cong(Defect(h1, x), if x == c then -diff else 0)
    {
      TypedOffBy(h, c, item, kind, count, subType, ammo, x);
    }
    ShiftBalances(h1, c, diff, {});
    ShiftKeepsLinks(h1, c, diff, {});
  }

  lemma HolderIsContainer<T>(h: Heap<T>, c: T, item: T)
    requires ContentsLinked(h) && c in h && item in h[c].contents
    ensures h[c].isContainer && item in h && h[item].parent == Some(c)
  {
  }

  lemma HeldIsOther<T>(h: Heap<T>, c: T, item: T)
    requires ContentsLinked(h) && Forest(Parents(h)) && c in h && item in h[c].contents
    ensures item != c && !Inside(Parents(h), c, item)
  {
    InsideRefl(Parents(h), c);
    ContentsOffChain(h, c, c, item);
  }

  // ----- Taking a content out

  lemma StruckContents<T>(h: Heap<T>, c: T, i: nat)
    requires ContentsLinked(h) && c in h && i < |h[c].contents| && h[c].contents[i] in h && h[c].contents[i] != c
    ensures ContentsLinked(Struck(h, c, i))
  {
    var h1 := Struck(h, c, i);
    var item := h[c].contents[i];
    forall x | x in h1
      ensures Distinct(h1[x].contents) && (h1[x].contents != [] ==> h1[x].isContainer)
      ensures forall y | y in h1[x].contents :: y in h1 && h1[y].parent == Some(x)
    {
      HeldOnce(h, c, item, x);
    }
  }

  lemma StruckParents<T>(h: Heap<T>, c: T, i: nat)
    requires ParentsLinked(h, {}) && c in h && i < |h[c].contents| && h[c].contents[i] in h && h[c].contents[i] != c
    ensures ParentsLinked(Struck(h, c, i), {})
  {
    var h1 := Struck(h, c, i);
    forall x | x in h1 && h1[x].parent.Some?
      ensures h1[x].parent.value in h1 && x in h1[h1[x].parent.value].contents
    {
      assert x != h[c].contents[i] && h1[x].parent == h[x].parent;
      assert h[x].parent.value in h && x in h[h[x].parent.value].contents;
    }
  }

  lemma StruckForest<T>(h: Heap<T>, c: T, i: nat)
    requires Forest(Parents(h)) && c in h && i < |h[c].contents| && h[c].contents[i] in h && h[c].contents[i] != c
    ensures Forest(Parents(Struck(h, c, i)))
  {
    assert Parents(Struck(h, c, i)) == Parents(h)[h[c].contents[i] := None];
    CutKeepsForest(Parents(h), h[c].contents[i]);
  }

  lemma StruckDefect<T>(h: Heap<T>, c: T, i: nat, x: T)
    requires c in h && i < |h[c].contents| && h[c].contents[i] in h && h[c].contents[i] != c && x in h
    ensures Defect(Struck(h, c, i), x)
         == Defect(h, x) + (if x == c then h[h[c].contents[i]].Weight() else 0)
  {
    hide StackWeight;
    assert Weights(Struck(h, c, i)) == Weights(h);
    if x == c {
      SumRemoveAt(Weights(h), h[c].contents, i);
    }
  }

  lemma StruckAmmo<T>(h: Heap<T>, c: T, i: nat, x: T)
    requires c in h && i < |h[c].contents| && h[c].contents[i] in h && h[c].contents[i] != c && x in h
    ensures Cong(AmmoDefect(Struck(h, c, i), x), AmmoDefect(h, x))
  {
    hide Cong;
    assert Counts(Struck(h, c, i)) == Counts(h);
    CongRefl(AmmoDefect(h, x));
    if x == c {
      SumRemoveAt(Counts(h), h[c].contents, i);
      WrappedAmmo(h[c].ammoCount, 0 - h[h[c].contents[i]].count, Sum(Counts(h), h[c].contents));
    }
  }

  /** Removing a content keeps the invariant and leaves the removed item without parent. */
  lemma UnlinkKeepsValid<T>(h: Heap<T>, c: T, i: nat)
    requires Valid(h) && c in h && i < |h[c].contents| && h[c].contents[i] in h && h[c].contents[i] != c
    ensures Valid(Unlink(h, c, i))
    ensures Unlink(h, c, i)[h[c].contents[i]].parent == None
  {
    hide ContentsLinked, ParentsLinked, Forest, Inside, Defect, Cong, ShiftWeights, Struck;
    var w := h[h[c].contents[i]].Weight();
    HeldIsOther(h, c, h[c].contents[i]);
    HolderIsContainer(h, c, h[c].contents[i]);
    UnlinkLinks(h, c, i);
    forall x | x in h
      ensures Cong(Defect(Unlink(h, c, i), x), 0)
    {
      ShiftMovesDefect(h, c, -w, {}, x);
      UnlinkedDefect(h, c, i, x);
    }
  }

  lemma UnlinkLinks<T>(h: Heap<T>, c: T, i: nat)
    requires ContentsLinked(h) && ParentsLinked(h, {}) && Forest(Parents(h))
    requires c in h && i < |h[c].contents| && h[c].contents[i] in h && h[c].contents[i] != c
    ensures ContentsLinked(Unlink(h, c, i)) && ParentsLinked(Unlink(h, c, i), {}) && Forest(Parents(Unlink(h, c, i)))
    ensures Unlink(h, c, i)[h[c].contents[i]].parent == None
  {
    hide ContentsLinked, ParentsLinked, Forest, Inside, ShiftWeights, Struck;
    var w := h[h[c].contents[i]].Weight();
    var h1 := ShiftWeights(h, c, -w);
    ShiftKeepsLinks(h, c, -w, {});
    ShiftKeepsContents(h, c, -w, c);
    StruckLinks(h1, c, i);
  }

  lemma StruckLinks<T>(h: Heap<T>, c: T, i: nat)
    requires ContentsLinked(h) && ParentsLinked(h, {}) && Forest(Parents(h))
    requires c in h && i < |h[c].contents| && h[c].contents[i] in h && h[c].contents[i] != c
    ensures var h1 := Struck(h, c, i);
            && ContentsLinked(h1) && ParentsLinked(h1, {}) && Forest(Parents(h1))
            && h1[h[c].contents[i]].parent == None
  {
    hide ContentsLinked, ParentsLinked, Forest;
    StruckContents(h, c, i);
    StruckParents(h, c, i);
    StruckForest(h, c, i);
  }

  lemma UnlinkedDefect<T>(h: Heap<T>, c: T, i: nat, x: T)
    requires c in h && i < |h[c].contents| && h[c].contents[i] in h && h[c].contents[i] != c && x in h
    requires !Inside(Parents(h), c, h[c].contents[i])
    requires var w := h[h[c].contents[i]].Weight();
             Cong(Defect(ShiftWeights(h, c, -w), x), Defect(h, x) + (if x == c then -w else 0))
    requires Cong(Defect(h, x), 0)
    ensures Cong(Defect(Unlink(h, c, i), x), 0)
  {
    hide Defect, Cong, ShiftWeights, Inside;
    var w := h[h[c].contents[i]].Weight();
    var h1 := ShiftWeights(h, c, -w);
    ShiftKeepsContents(h, c, -w, c);
    ShiftKeepsContents(h, c, -w, h[c].contents[i]);
    StruckDefect(h1, c, i, x);
    BackToZero(Defect(h1, x), Defect(h, x), if x == c then w else 0);
  }

  lemma BackToZero(d': int, d: int, w: int)
    requires Cong(d', d - w) && Cong(d, 0)
    ensures Cong(d' + w, 0)
  {
    var j :| OffByWords(d', d - w, j);
    var k :| OffByWords(d, 0, k);
    assert OffByWords(d' + w, 0, j + k);
  }

  lemma ShiftKeepsContents<T>(h: Heap<T>, at: T, diff: int, x: T)
    requires x in h
    ensures var r := ShiftWeights(h, at, diff)[x];
            r == h[x].(totalWeight := r.totalWeight)
    ensures !Inside(Parents(h), at, x) ==> ShiftWeights(h, at, diff)[x] == h[x]
  {
  }

  lemma UnlinkKeepsAmmo<T>(h: Heap<T>, c: T, i: nat)
    requires AmmoBalanced(h) && c in h && i < |h[c].contents| && h[c].contents[i] in h && h[c].contents[i] != c
    ensures AmmoBalanced(Unlink(h, c, i))
  {
    hide Cong, Struck, ShiftWeights, AmmoDefect, StackWeight;
    var w := h[h[c].contents[i]].Weight();
    var h1 := ShiftWeights(h, c, -w);
    ShiftKeepsContents(h, c, -w, c);
    forall x | x in h
      ensures Cong(AmmoDefect(Unlink(h, c, i), x), 0)
    {
      ShiftKeepsAmmo(h, c, -w, x);
      StruckAmmo(h1, c, i, x);
      CongTransitive(AmmoDefect(Struck(h1, c, i), x), AmmoDefect(h, x), 0);
    }
  }

  // ----- Replacing a content

  lemma SwappedContents<T>(h: Heap<T>, c: T, i: nat, item: T)
    requires ContentsLinked(h) && c in h && item in h && i < |h[c].contents| && h[c].contents[i] in h
    requires item != c && h[item].parent == None
    ensures ContentsLinked(Swapped(h, c, i, item))
  {
    var h1 := Swapped(h, c, i, item);
    forall x | x in h1
      ensures Distinct(h1[x].contents) && (h1[x].contents != [] ==> h1[x].isContainer)
      ensures forall y | y in h1[x].contents :: y in h1 && h1[y].parent == Some(x)
    {
      NotListedAnywhere(h, item, x);
      ContentsOf(h, x);
      hide ContentsLinked;
      if x != c {
        assert h1[x].contents == h[x].contents;
      }
    }
  }

  lemma SwappedParents<T>(h: Heap<T>, c: T, i: nat, item: T)
    requires ParentsLinked(h, {}) && c in h && item in h && i < |h[c].contents| && h[c].contents[i] in h
    requires item != c && h[item].parent == None
    ensures ParentsLinked(Swapped(h, c, i, item), {h[c].contents[i]})
  {
    var h1 := Swapped(h, c, i, item);
    assert h1[c].contents[i] == item;
    forall x | x in h1 && x != h[c].contents[i] && h1[x].parent.Some?
      ensures h1[x].parent.value in h1 && x in h1[h1[x].parent.value].contents
    {
      if x != item {
        assert h1[x].parent == h[x].parent;
        assert h[x].parent.value in h && x in h[h[x].parent.value].contents;
        if h[x].parent.value == c {
          var j :| 0 <= j < |h[c].contents| && h[c].contents[j] == x;
          assert h1[c].contents[j] == x;
        }
      }
    }
  }

  lemma SwappedOffBy<T>(h: Heap<T>, c: T, i: nat, item: T, x: T)
    requires c in h && item in h && i < |h[c].contents| && h[c].contents[i] in h && c != item && x in h
    requires Cong(Defect(h, x), 0)
    ensures Cong(Defect(Swapped(h, c, i, item), x),
                 if x == c then -(h[item].Weight() - h[h[c].contents[i]].Weight()) else 0)
  {
    hide StackWeight, Cong;
    assert Weights(Swapped(h, c, i, item)) == Weights(h);
    if x == c {
      SumReplaceAt(Weights(h), h[c].contents, i, item);
      CongShift(Defect(h, x), h[item].Weight() - h[h[c].contents[i]].Weight());
    }
  }

  lemma OrphanKeepsValid<T>(h: Heap<T>, out: T)
    requires ContentsLinked(h) && ParentsLinked(h, {out}) && Forest(Parents(h)) && Balanced(h) && out in h
    requires forall x | x in h :: out !in h[x].contents
    ensures Valid(h[out := h[out].(parent := None)])
  {
    hide Cong, StackWeight, Sum, Forest, ContentsLinked, ParentsLinked;
    var h1 := h[out := h[out].(parent := None)];
    assert Parents(h1) == Parents(h)[out := None];
    CutKeepsForest(Parents(h), out);
    assert Weights(h1) == Weights(h);
    forall x | x in h1
      ensures Cong(Defect(h1, x), 0)
    {
      assert Defect(h1, x) == Defect(h, x);
    }
    OrphanLinks(h, out);
  }

  lemma OrphanLinks<T>(h: Heap<T>, out: T)
    requires ContentsLinked(h) && ParentsLinked(h, {out}) && out in h
    requires forall x | x in h :: out !in h[x].contents
    ensures ContentsLinked(h[out := h[out].(parent := None)])
    ensures ParentsLinked(h[out := h[out].(parent := None)], {})
  {
    var h1 := h[out := h[out].(parent := None)];
    forall x | x in h1 && h1[x].parent.Some?
      ensures h1[x].parent.value in h1 && x in h1[h1[x].parent.value].contents
    {
      assert x != out && h1[x].parent == h[x].parent;
      assert h[x].parent.value in h && x in h[h[x].parent.value].contents;
    }
  }

  /** Exchanging a content and propagating the difference leaves nothing off but the parent of the old content. */
  lemma SwappedIsSettled<T>(h: Heap<T>, c: T, i: nat, item: T)
    requires Valid(h) && c in h && item in h && i < |h[c].contents| && h[c].contents[i] in h
    requires h[item].parent == None && !Inside(Parents(h), c, item) && c != item
    ensures var out := h[c].contents[i];
            var h2 := ShiftWeights(Swapped(h, c, i, item), c, h[item].Weight() - h[out].Weight());
            ContentsLinked(h2) && ParentsLinked(h2, {out}) && Forest(Parents(h2)) && Balanced(h2)
  {
    hide ContentsLinked, ParentsLinked, Forest, Inside, Defect, Cong, ShiftWeights, Swapped;
    var out := h[c].contents[i];
    var h1 := Swapped(h, c, i, item);
    var diff := h[item].Weight() - h[out].Weight();
    HolderIsContainer(h, c, out);
    SwappedContents(h, c, i, item);
    SwappedParents(h, c, i, item);
    SwappedForest(h, c, i, item);
    forall x | x in h
      ensures Cong(Defect(h1, x), if x == c then -diff else 0)
    {
      SwappedOffBy(h, c, i, item, x);
    }
    ShiftBalances(h1, c, diff, {out});
    ShiftKeepsLinks(h1, c, diff, {out});
  }

  lemma SwappedForest<T>(h: Heap<T>, c: T, i: nat, item: T)
    requires ContentsLinked(h) && Forest(Parents(h))
    requires c in h && item in h && i < |h[c].contents| && h[c].contents[i] in h
    requires h[item].parent == None && !Inside(Parents(h), c, item) && c != item
    ensures var h1 := Swapped(h, c, i, item);
            && Forest(Parents(h1)) && !Inside(Parents(h1), c, h[c].contents[i])
            && h1[c].isContainer == h[c].isContainer
  {
    hide ContentsLinked, Forest, Inside;
    assert Parents(Swapped(h, c, i, item)) == Parents(h)[item := Some(c)];
    LinkKeepsForest(Parents(h), item, c);
    HeldIsOther(h, c, h[c].contents[i]);
    InsideUntouched(Parents(h), item, Some(c), c, h[c].contents[i]);
  }

  /** Replacing a content keeps the invariant and leaves the replaced item without parent. */
  lemma ReplaceKeepsValid<T>(h: Heap<T>, c: T, i: nat, item: T)
    requires Valid(h) && c in h && item in h && i < |h[c].contents| && h[c].contents[i] in h
    requires h[item].parent == None && !Inside(Parents(h), c, item) && c != item
    ensures Valid(Replace(h, c, i, item)) && Replace(h, c, i, item)[h[c].contents[i]].parent == None
  {
    hide ContentsLinked, ParentsLinked, Forest, Inside, Balanced, ShiftWeights, Swapped;
    var out := h[c].contents[i];
    var h1 := Swapped(h, c, i, item);
    var diff := h[item].Weight() - h[out].Weight();
    SwappedIsSettled(h, c, i, item);
    forall x | x in h
      ensures out !in ShiftWeights(h1, c, diff)[x].contents
    {
      ShiftKeepsContents(h1, c, diff, x);
      SwappedOut(h, c, i, item, x);
    }
    OrphanKeepsValid(ShiftWeights(h1, c, diff), out);
  }

  /** The lists and parents after a replacement: the new item stands where the old one stood. */
  lemma ReplaceKeeps<T>(h: Heap<T>, c: T, i: nat, item: T)
    requires c in h && item in h && i < |h[c].contents| && h[c].contents[i] in h && c != item
    requires h[c].contents[i] != c && h[c].contents[i] != item
    ensures var out, h1 := h[c].contents[i], Replace(h, c, i, item);
            && h1[c].contents == h[c].contents[i := item] && h1[item].parent == Some(c) && h1[out].parent == None
            && (forall x | x in h && x != c :: h1[x].contents == h[x].contents)
            && (forall x | x in h && x != item && x != out :: h1[x].parent == h[x].parent)
            && forall x | x in h :: h1[x].kind == h[x].kind && h1[x].count == h[x].count && h1[x].attrs == h[x].attrs
  {
    hide ShiftWeights, StackWeight;
    var h1 := Swapped(h, c, i, item);
    var diff := h[item].Weight() - h[h[c].contents[i]].Weight();
    forall x | x in h
      ensures var r := ShiftWeights(h1, c, diff)[x]; r == h1[x].(totalWeight := r.totalWeight)
    {
      ShiftKeepsContents(h1, c, diff, x);
    }
  }

  lemma SwappedOut<T>(h: Heap<T>, c: T, i: nat, item: T, x: T)
    requires ContentsLinked(h) && c in h && item in h && i < |h[c].contents| && h[c].contents[i] in h
    requires c != item && h[item].parent == None && x in h
    ensures h[c].contents[i] !in Swapped(h, c, i, item)[x].contents
  {
    HeldOnce(h, c, h[c].contents[i], x);
    NotListedAnywhere(h, item, c);
  }
}
