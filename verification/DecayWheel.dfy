/** The decay wheel: four buckets visited in turn, one every quarter of a second. */
module DecayWheel {

  const BUCKETS := 4
  const INTERVAL := 250
  const ROUND := 1000

  /**
   What the wheel knows of an item: the time left, whether it can decay, the decay flag, the references the wheel
   holds, the durations of what it will decay into, and how often it has decayed.
   */
  datatype Rec = Rec(duration: nat, live: bool, decaying: bool, held: int, stages: seq<nat>, fires: nat)

  datatype Wheel<T> = Wheel(items: map<T, Rec>, buckets: seq<seq<T>>, pending: seq<T>, last: nat)

  predicate Formed<T>(w: Wheel<T>) {
    |w.buckets| == BUCKETS && w.last < BUCKETS
  }

  // ----- Enlisting and decaying

  /** Enlists an item that can decay, or lets it decay at once when it has no time. */
  function Start<T>(w: Wheel<T>, x: T): Wheel<T>
    requires x in w.items
    decreases |w.items[x].stages|, 1
  {
    var r := w.items[x];
    if !r.live || r.decaying then w
    else if r.duration > 0
    then w.(items := w.items[x := r.(held := r.held + 1, decaying := true)], pending := [x] + w.pending)
    else Decay(w, x)
  }

  /** Turns an item into what it decays into, or removes it. */
  function Decay<T>(w: Wheel<T>, x: T): Wheel<T>
    requires x in w.items
    decreases |w.items[x].stages|, 0
  {
    var r := w.items[x].(fires := w.items[x].fires + 1);
    if r.stages == [] then w.(items := w.items[x := r.(live := false)])
    else
      Start(w.(items := w.items[x := r.(duration := r.stages[0], stages := r.stages[1..], decaying := false)]), x)
  }

  function Released<T>(w: Wheel<T>, x: T): Wheel<T>
    requires x in w.items
  {
    w.(items := w.items[x := w.items[x].(held := w.items[x].held - 1)])
  }

  function Pushed<T>(w: Wheel<T>, b: nat, x: T): Wheel<T>
    requires b < |w.buckets|
  {
    w.(buckets := w.buckets[b := w.buckets[b] + [x]])
  }

  function NextBucket(b: nat, duration: nat): nat {
    (b + (duration + INTERVAL / 2) / ROUND) % BUCKETS
  }

  /** The visit of an item that has been taken out of bucket `b`. */
  function Visit<T>(w: Wheel<T>, b: nat, x: T): (v: Wheel<T>)
    requires x in w.items && |w.buckets| == BUCKETS && b < BUCKETS
  {
    var r := w.items[x];
    if !r.live then Released(w.(items := w.items[x := r.(decaying := false)]), x)
    else
      var left := if r.duration < ROUND then 0 else r.duration - ROUND;
      var v := w.(items := w.items[x := r.(duration := left)]);
      if left == 0 || (left < ROUND && NextBucket(b, left) == b) then
        DecayKeeps(v, x);
        Released(Decay(v, x), x)
      else if left < ROUND then Pushed(v, NextBucket(b, left), x)
      else Pushed(v, b, x)
  }

  function Visits<T>(w: Wheel<T>, b: nat, xs: seq<T>): Wheel<T>
    requires (forall x | x in xs :: x in w.items) && |w.buckets| == BUCKETS && b < BUCKETS
    decreases |xs|
  {
    if xs == [] then w
    else
      VisitKeeps(w, b, xs[0]);
      Visits(Visit(w, b, xs[0]), b, xs[1..])
  }

  /** Where a newly enlisted item goes. */
  function FirstBucket(last: nat, duration: nat): nat {
    if duration >= ROUND then last % BUCKETS else (last + 1 + duration / ROUND) % BUCKETS
  }

  function Placed<T>(w: Wheel<T>, xs: seq<T>): Wheel<T>
    requires |w.buckets| == BUCKETS && forall x | x in xs :: x in w.items
    decreases |xs|
  {
    if xs == [] then w else Placed(Pushed(w, FirstBucket(w.last, w.items[xs[0]].duration), xs[0]), xs[1..])
  }

  function Cleanup<T>(w: Wheel<T>): Wheel<T>
    requires |w.buckets| == BUCKETS && forall x | x in w.pending :: x in w.items
  {
    Placed(w.(pending := []), w.pending)
  }

  // ----- What decaying leaves alone

  lemma {:induction false} StartKeeps<T>(w: Wheel<T>, x: T)
    requires x in w.items
    ensures var v := Start(w, x);
            && v.items.Keys == w.items.Keys && v.buckets == w.buckets && v.last == w.last
            && (forall y | y in w.items && y != x :: v.items[y] == w.items[y])
            && v.items[x].fires >= w.items[x].fires
            && (v.pending == w.pending || v.pending == [x] + w.pending)
            && v.items[x].held == w.items[x].held + (if v.pending == w.pending then 0 else 1)
            && (v.pending != w.pending ==> v.items[x].decaying && v.items[x].duration > 0)
            && (v.pending == w.pending && !w.items[x].decaying && v.items[x].live ==> !v.items[x].decaying)
    decreases |w.items[x].stages|, 1
  {
    var r := w.items[x];
    NotTwice(w.pending, x);
    if r.live && !r.decaying && r.duration == 0 {
      DecayKeeps(w, x);
    }
  }

  lemma NotTwice<T>(xs: seq<T>, x: T)
    ensures [x] + xs != xs
  {
    assert |[x] + xs| == |xs| + 1;
  }

  lemma {:induction false} DecayKeeps<T>(w: Wheel<T>, x: T)
    requires x in w.items
    ensures var v := Decay(w, x);
            && v.items.Keys == w.items.Keys && v.buckets == w.buckets && v.last == w.last
            && (forall y | y in w.items && y != x :: v.items[y] == w.items[y])
            && v.items[x].fires > w.items[x].fires
            && (v.pending == w.pending || v.pending == [x] + w.pending)
            && v.items[x].held == w.items[x].held + (if v.pending == w.pending then 0 else 1)
            && (v.pending != w.pending ==> v.items[x].decaying && v.items[x].duration > 0)
            && (v.pending == w.pending && v.items[x].live ==> !v.items[x].decaying)
    decreases |w.items[x].stages|, 0
  {
    var r := w.items[x].(fires := w.items[x].fires + 1);
    if r.stages != [] {
      StartKeeps(w.(items := w.items[x := r.(duration := r.stages[0], stages := r.stages[1..], decaying := false)]), x);
    }
  }

  /**
   What an item has become by decaying: its next stage that has any time, waiting to be enlisted; or, when none has, an
   item that decays no more. Stages without time are passed at once.
   */
  ghost predicate Turned(r: Rec, q: Rec) {
    exists j :: 0 <= j <= |r.stages| && TurnedTo(r, q, j)
  }

  predicate TurnedTo(r: Rec, q: Rec, j: nat)
    requires j <= |r.stages|
  {
    && (forall i | 0 <= i < j :: r.stages[i] == 0) && q.fires == r.fires + j + 1
    && (q.live <==> j < |r.stages|)
    && (j < |r.stages| ==>
          r.stages[j] > 0 && q.duration == r.stages[j] && q.stages == r.stages[j + 1..] && q.decaying)
  }

  /** Decaying turns the item, enlists it once more if there is a stage left, and touches nothing else. */
  lemma {:induction false} DecayTurns<T>(w: Wheel<T>, x: T)
    requires x in w.items && w.items[x].live
    ensures var v := Decay(w, x);
            && v.items.Keys == w.items.Keys && Turned(w.items[x], v.items[x])
            && v.pending == (if v.items[x].live then [x] + w.pending else w.pending)
    decreases |w.items[x].stages|
  {
    var r := w.items[x];
    DecayKeeps(w, x);
    if r.stages == [] {
      assert TurnedTo(r, Decay(w, x).items[x], 0);
    } else if r.stages[0] > 0 {
      assert TurnedTo(r, Decay(w, x).items[x], 0);
    } else {
      var s := r.(fires := r.fires + 1, duration := 0, stages := r.stages[1..], decaying := false);
      var u := w.(items := w.items[x := s]);
      DecayTurns(u, x);
      var j :| 0 <= j <= |s.stages| && TurnedTo(s, Decay(u, x).items[x], j);
      assert s.stages[..j] == r.stages[1..j + 1];
      assert TurnedTo(r, Decay(w, x).items[x], j + 1);
    }
  }

  lemma VisitKeeps<T>(w: Wheel<T>, b: nat, x: T)
    requires x in w.items && |w.buckets| == BUCKETS && b < BUCKETS
    ensures var v := Visit(w, b, x);
            && v.items.Keys == w.items.Keys && |v.buckets| == BUCKETS && v.last == w.last
            && forall y | y in w.items && y != x :: v.items[y] == w.items[y]
  {
    var r := w.items[x];
    var left := if r.duration < ROUND then 0 else r.duration - ROUND;
    DecayKeeps(w.(items := w.items[x := r.(duration := left)]), x);
  }

  // ----- Every item is on the wheel once for each reference

  ghost function Listed<T>(w: Wheel<T>): multiset<T>
    requires |w.buckets| == BUCKETS
  {
    multiset(w.buckets[0]) + multiset(w.buckets[1]) + multiset(w.buckets[2]) + multiset(w.buckets[3])
        + multiset(w.pending)
  }

  /**
   Items listed or in hand are held by exactly one reference, no others are; the flag says so for items that can decay.
   */
  ghost predicate Sound<T>(w: Wheel<T>, hand: multiset<T>) {
    && Formed(w)
    && (forall x | x in Listed(w) + hand :: x in w.items)
    && (forall x | x in w.items ::
          && w.items[x].held == (Listed(w) + hand)[x] <= 1
          && (w.items[x].held == 1 ==> w.items[x].decaying)
          && (w.items[x].held == 0 && w.items[x].live ==> !w.items[x].decaying))
  }

  lemma PushedLists<T>(w: Wheel<T>, b: nat, x: T)
    requires |w.buckets| == BUCKETS && b < BUCKETS
    ensures Listed(Pushed(w, b, x)) == Listed(w) + multiset{x}
  {
    var v := Pushed(w, b, x);
    assert multiset(v.buckets[b]) == multiset(w.buckets[b]) + multiset{x};
    assert forall k | 0 <= k < BUCKETS && k != b :: v.buckets[k] == w.buckets[k];
  }

  lemma FrontLists<T>(w: Wheel<T>, v: Wheel<T>, x: T)
    requires |w.buckets| == BUCKETS && v.buckets == w.buckets
    ensures v.pending == w.pending ==> Listed(v) == Listed(w)
    ensures v.pending == [x] + w.pending ==> Listed(v) == Listed(w) + multiset{x}
  {
    if v.pending == [x] + w.pending {
      assert multiset([x] + w.pending) == multiset{x} + multiset(w.pending);
    }
  }

  lemma StartSound<T>(w: Wheel<T>, x: T)
    requires Sound(w, multiset{}) && x in w.items
    ensures Sound(Start(w, x), multiset{})
  {
    hide Start, Listed;
    StartKeeps(w, x);
    StartIdles(w, x);
    FrontLists(w, Start(w, x), x);
  }

  lemma StartIdles<T>(w: Wheel<T>, x: T)
    requires x in w.items
    ensures !w.items[x].live || w.items[x].decaying ==> Start(w, x) == w
  {
  }

  lemma DecaySound<T>(w: Wheel<T>, x: T, hand: multiset<T>)
    requires Sound(w, multiset{x} + hand) && x in w.items && w.items[x].live
    ensures x in Decay(w, x).items && Sound(Released(Decay(w, x), x), hand)
  {
    hide Decay, Listed;
    DecayKeeps(w, x);
    var v := Decay(w, x);
    FrontLists(w, v, x);
    assert (Listed(w) + (multiset{x} + hand))[x] == Listed(w)[x] + 1 + hand[x];
    var r := Released(v, x);
    assert r.buckets == v.buckets && r.pending == v.pending;
    SameLists(v, r);
    assert forall y | y in r.items && y != x :: (Listed(r) + hand)[y] == (Listed(w) + (multiset{x} + hand))[y];
  }

  lemma SameLists<T>(v: Wheel<T>, w: Wheel<T>)
    requires |v.buckets| == BUCKETS && v.buckets == w.buckets && v.pending == w.pending
    ensures Listed(v) == Listed(w)
  {
  }

  lemma VisitSound<T>(w: Wheel<T>, b: nat, x: T, hand: multiset<T>)
    requires Sound(w, multiset{x} + hand) && b < BUCKETS
    ensures x in w.items && Sound(Visit(w, b, x), hand)
  {
    hide Decay, Listed;
    assert x in Listed(w) + (multiset{x} + hand);
    assert (Listed(w) + (multiset{x} + hand))[x] == Listed(w)[x] + 1 + hand[x];
    var r := w.items[x];
    if !r.live {
      var v := Visit(w, b, x);
      SameLists(w, v);
      assert forall y | y in v.items && y != x :: (Listed(v) + hand)[y] == (Listed(w) + (multiset{x} + hand))[y];
    } else {
      var left := if r.duration < ROUND then 0 else r.duration - ROUND;
      var v := w.(items := w.items[x := r.(duration := left)]);
      SameLists(w, v);
      if left == 0 || (left < ROUND && NextBucket(b, left) == b) {
        DecaySound(v, x, hand);
      } else {
        var nb := if left < ROUND then NextBucket(b, left) else b;
        PushedLists(v, nb, x);
        assert Listed(v) + multiset{x} + hand == Listed(w) + (multiset{x} + hand);
      }
    }
  }

  lemma {:induction false} VisitsSound<T>(w: Wheel<T>, b: nat, xs: seq<T>)
    requires Sound(w, multiset(xs)) && b < BUCKETS
    ensures (forall x | x in xs :: x in w.items) && Sound(Visits(w, b, xs), multiset{})
    decreases |xs|
  {
    hide Visit, Listed;
    forall x | x in xs ensures x in w.items {
      assert x in Listed(w) + multiset(xs);
    }
    if xs != [] {
      assert xs == [xs[0]] + xs[1..];
      assert multiset(xs) == multiset{xs[0]} + multiset(xs[1..]);
      VisitSound(w, b, xs[0], multiset(xs[1..]));
      VisitsSound(Visit(w, b, xs[0]), b, xs[1..]);
    } else {
      assert multiset(xs) == multiset{};
    }
  }

  lemma {:induction false} PlacedSound<T>(w: Wheel<T>, xs: seq<T>)
    requires Sound(w, multiset(xs))
    ensures (forall x | x in xs :: x in w.items) && Sound(Placed(w, xs), multiset{})
    decreases |xs|
  {
    hide Listed;
    forall x | x in xs ensures x in w.items {
      assert x in Listed(w) + multiset(xs);
    }
    if xs != [] {
      assert xs == [xs[0]] + xs[1..];
      assert multiset(xs) == multiset{xs[0]} + multiset(xs[1..]);
      var v := Pushed(w, FirstBucket(w.last, w.items[xs[0]].duration), xs[0]);
      PushedLists(w, FirstBucket(w.last, w.items[xs[0]].duration), xs[0]);
      assert Listed(v) + multiset(xs[1..]) == Listed(w) + multiset(xs);
      PlacedSound(v, xs[1..]);
    } else {
      assert multiset(xs) == multiset{};
    }
  }

  lemma CleanupSound<T>(w: Wheel<T>)
    requires Sound(w, multiset{})
    ensures (forall x | x in w.pending :: x in w.items) && Sound(Cleanup(w), multiset{})
  {
    var v := w.(pending := []);
    assert Listed(v) + multiset(w.pending) == Listed(w) + multiset{};
    PlacedSound(v, w.pending);
  }

  // ----- One tick

  function Tick<T>(w: Wheel<T>): Wheel<T> {
    var b := (w.last + 1) % BUCKETS;
    if !(|w.buckets| == BUCKETS && forall x | x in w.buckets[b] :: x in w.items) then w
    else
      var v := Visits(w.(buckets := w.buckets[b := []]), b, w.buckets[b]).(last := b);
      if |v.buckets| == BUCKETS && forall x | x in v.pending :: x in v.items then Cleanup(v) else w
  }

  lemma TickSound<T>(w: Wheel<T>)
    requires Sound(w, multiset{})
    ensures var b := (w.last + 1) % BUCKETS;
            && (forall x | x in w.buckets[b] :: x in w.items)
            && var v := Visits(w.(buckets := w.buckets[b := []]), b, w.buckets[b]).(last := b);
            && Sound(v, multiset{}) && (forall x | x in v.pending :: x in v.items) && Tick(w) == Cleanup(v)
    ensures Sound(Tick(w), multiset{})
  {
    hide Visits, Cleanup, Sound, Listed;
    var b := (w.last + 1) % BUCKETS;
    TakenOut(w, b);
    var u := w.(buckets := w.buckets[b := []]);
    VisitsSound(u, b, w.buckets[b]);
    var v := Visits(u, b, w.buckets[b]);
    LastMoves(v, b);
    CleanupSound(v.(last := b));
    SoundIsFormed(v.(last := b));
  }

  lemma SoundIsFormed<T>(w: Wheel<T>)
    requires Sound(w, multiset{})
    ensures Formed(w)
  {
  }

  lemma TakenOut<T>(w: Wheel<T>, b: nat)
    requires Sound(w, multiset{}) && b < BUCKETS
    ensures Formed(w) && Sound(w.(buckets := w.buckets[b := []]), multiset(w.buckets[b]))
  {
    var u := w.(buckets := w.buckets[b := []]);
    EmptiedLists(w, b);
    hide Listed;
    assert Listed(u) + multiset(w.buckets[b]) == Listed(w) + multiset{};
  }

  lemma EmptiedLists<T>(w: Wheel<T>, b: nat)
    requires |w.buckets| == BUCKETS && b < BUCKETS
    ensures Listed(w.(buckets := w.buckets[b := []])) + multiset(w.buckets[b]) == Listed(w)
  {
  }

  lemma LastMoves<T>(v: Wheel<T>, b: nat)
    requires Sound(v, multiset{}) && b < BUCKETS
    ensures Sound(v.(last := b), multiset{})
  {
    SameLists(v, v.(last := b));
    hide Listed;
  }

  // ----- When an item decays

  /** Ticks that pass after the next visit until an item with this much time decays. */
  function After(duration: nat): nat {
    if duration <= ROUND then 0
    else if duration - ROUND < ROUND then (duration - ROUND + INTERVAL / 2) / ROUND
    else BUCKETS + After(duration - ROUND)
  }

  /** The tick, counted from now, at which an item in bucket `k` decays. */
  function Left(k: nat, last: nat, duration: nat): nat
    requires k < BUCKETS && last < BUCKETS
  {
    (k + BUCKETS - 1 - last) % BUCKETS + 1 + After(duration)
  }

  lemma {:induction false} AfterIs(duration: nat)
    requires duration >= ROUND
    ensures After(duration) + BUCKETS == BUCKETS * (duration / ROUND) + (if duration % ROUND >= 875 then 1 else 0)
  {
    if duration - ROUND >= ROUND {
      AfterIs(duration - ROUND);
    }
  }

  /** Ticks from the placement of an item to its decay. */
  function Steps(duration: nat): nat {
    if duration < ROUND then 1 else BUCKETS * (duration / ROUND) + (if duration % ROUND >= 875 then 1 else 0)
  }

  lemma PlacedDecaysIn(last: nat, duration: nat)
    requires last < BUCKETS
    ensures FirstBucket(last, duration) < BUCKETS
            && Left(FirstBucket(last, duration), last, duration) == Steps(duration)
  {
    if duration >= ROUND {
      AfterIs(duration);
    }
  }

  /** From one second on an item is never late and less than 875 ms early; a shorter time counts as one tick. */
  lemma DecaysOnTime(duration: nat)
    ensures duration >= ROUND ==> 0 <= duration - INTERVAL * Steps(duration) < 875
    ensures duration < ROUND ==> INTERVAL * Steps(duration) == INTERVAL
  {
  }

  /** An item that can decay is listed in bucket `k`. */
  ghost predicate Waits<T>(w: Wheel<T>, x: T, k: nat) {
    && Formed(w) && k < BUCKETS && x in w.buckets[k] && x in w.items && w.items[x].live
  }

  /** The tick, counted from now, at which it decays. */
  ghost function WaitsFor<T>(w: Wheel<T>, x: T, k: nat): nat
    requires Waits(w, x, k)
  {
    Left(k, w.last, w.items[x].duration)
  }

  lemma {:induction false} VisitsOthers<T>(w: Wheel<T>, b: nat, xs: seq<T>, y: T)
    requires (forall x | x in xs :: x in w.items) && |w.buckets| == BUCKETS && b < BUCKETS && y in w.items && y !in xs
    ensures var v := Visits(w, b, xs);
            && y in v.items && v.items[y] == w.items[y] && |v.buckets| == BUCKETS && v.last == w.last
            && (y in w.pending ==> y in v.pending)
            && forall k | 0 <= k < BUCKETS :: y in w.buckets[k] ==> y in v.buckets[k]
    decreases |xs|
  {
    hide Visit;
    if xs != [] {
      VisitKeeps(w, b, xs[0]);
      VisitOther(w, b, xs[0], y);
      VisitsOthers(Visit(w, b, xs[0]), b, xs[1..], y);
    }
  }

  lemma VisitOther<T>(w: Wheel<T>, b: nat, x: T, y: T)
    requires x in w.items && |w.buckets| == BUCKETS && b < BUCKETS
    ensures |Visit(w, b, x).buckets| == BUCKETS && (y in w.pending ==> y in Visit(w, b, x).pending)
    ensures forall k | 0 <= k < BUCKETS :: y in w.buckets[k] ==> y in Visit(w, b, x).buckets[k]
  {
    hide Decay;
    var r := w.items[x];
    var left := if r.duration < ROUND then 0 else r.duration - ROUND;
    DecayKeeps(w.(items := w.items[x := r.(duration := left)]), x);
  }

  /** What the visit does to the item itself. */
  lemma VisitOwn<T>(w: Wheel<T>, b: nat, x: T)
    requires x in w.items && w.items[x].live && |w.buckets| == BUCKETS && b < BUCKETS && w.last < BUCKETS
    ensures var v := Visit(w, b, x);
            && x in v.items && |v.buckets| == BUCKETS
            && (After(w.items[x].duration) == 0 ==>
                  Turned(w.items[x], v.items[x]) && (v.items[x].live ==> x in v.pending))
            && (After(w.items[x].duration) > 0 ==>
                  && v.items[x].live && v.items[x].fires == w.items[x].fires && v.items[x].stages == w.items[x].stages
                  && exists k :: 0 <= k < BUCKETS && x in v.buckets[k]
                                 && Left(k, b, v.items[x].duration) == After(w.items[x].duration))
  {
    hide Decay, Turned;
    var r := w.items[x];
    var left := if r.duration < ROUND then 0 else r.duration - ROUND;
    var u := w.(items := w.items[x := r.(duration := left)]);
    DecayKeeps(u, x);
    DecayTurns(u, x);
    if After(r.duration) == 0 {
      SameTurn(u.items[x], r, Decay(u, x).items[x], Visit(w, b, x).items[x]);
    } else {
      assert r.duration > ROUND;
      var nb := if left < ROUND then NextBucket(b, left) else b;
      assert x in Visit(w, b, x).buckets[nb];
      assert Left(nb, b, left) == After(r.duration);
    }
  }

  /** Turning does not look at the time that was left nor at the references. */
  lemma SameTurn(r: Rec, r': Rec, q: Rec, q': Rec)
    requires Turned(r, q) && r'.stages == r.stages && r'.fires == r.fires
    requires q' == q.(held := q'.held)
    ensures Turned(r', q')
  {
    var j :| 0 <= j <= |r.stages| && TurnedTo(r, q, j);
    assert TurnedTo(r', q', j);
  }

  lemma {:induction false} VisitsOwn<T>(w: Wheel<T>, b: nat, xs: seq<T>, x: T)
    requires (forall y | y in xs :: y in w.items) && |w.buckets| == BUCKETS && b < BUCKETS && w.last < BUCKETS
    requires x in xs && multiset(xs)[x] == 1 && w.items[x].live
    ensures var v := Visits(w, b, xs);
            && x in v.items && |v.buckets| == BUCKETS
            && (After(w.items[x].duration) == 0 ==>
                  Turned(w.items[x], v.items[x]) && (v.items[x].live ==> x in v.pending))
            && (After(w.items[x].duration) > 0 ==>
                  && v.items[x].live && v.items[x].fires == w.items[x].fires && v.items[x].stages == w.items[x].stages
                  && exists k :: 0 <= k < BUCKETS && x in v.buckets[k]
                                 && Left(k, b, v.items[x].duration) == After(w.items[x].duration))
    decreases |xs|
  {
    hide Visit, After, Left, Turned;
    assert xs == [xs[0]] + xs[1..];
    assert multiset(xs) == multiset{xs[0]} + multiset(xs[1..]);
    VisitKeeps(w, b, xs[0]);
    var v := Visit(w, b, xs[0]);
    if xs[0] == x {
      VisitOwn(w, b, x);
      VisitsOthers(v, b, xs[1..], x);
    } else {
      VisitsOwn(v, b, xs[1..], x);
    }
  }

  lemma {:induction false} PlacedOthers<T>(w: Wheel<T>, xs: seq<T>, y: T)
    requires |w.buckets| == BUCKETS && forall x | x in xs :: x in w.items
    ensures var v := Placed(w, xs);
            && v.items == w.items && v.last == w.last && |v.buckets| == BUCKETS
            && forall k | 0 <= k < BUCKETS :: y in w.buckets[k] ==> y in v.buckets[k]
    decreases |xs|
  {
    if xs != [] {
      PlacedOthers(Pushed(w, FirstBucket(w.last, w.items[xs[0]].duration), xs[0]), xs[1..], y);
    }
  }

  /** Every enlisted item is placed where its time says. */
  lemma {:induction false} PlacedOwn<T>(w: Wheel<T>, xs: seq<T>, x: T)
    requires Formed(w) && (forall y | y in xs :: y in w.items) && x in xs
    ensures var v := Placed(w, xs);
            && v.items == w.items && v.last == w.last && Formed(v)
            && x in v.buckets[FirstBucket(w.last, w.items[x].duration)]
    decreases |xs|
  {
    var v := Pushed(w, FirstBucket(w.last, w.items[xs[0]].duration), xs[0]);
    if xs[0] == x {
      PlacedOthers(v, xs[1..], x);
    } else {
      PlacedOwn(v, xs[1..], x);
    }
  }

  /** An enlisted item that can decay will do so exactly `Steps` ticks after the next cleanup. */
  lemma EnlistedWaits<T>(w: Wheel<T>, x: T)
    requires Sound(w, multiset{}) && x in w.pending && x in w.items && w.items[x].live
    ensures (forall y | y in w.pending :: y in w.items)
    ensures var v := Cleanup(w);
            exists k :: Waits(v, x, k) && v.items[x] == w.items[x] && WaitsFor(v, x, k) == Steps(w.items[x].duration)
  {
    hide Listed, Left, Steps, FirstBucket;
    CleanupSound(w);
    PlacedOwn(w.(pending := []), w.pending, x);
    PlacedDecaysIn(w.last, w.items[x].duration);
    assert Waits(Cleanup(w), x, FirstBucket(w.last, w.items[x].duration));
  }

  /**
   One tick brings a waiting item one tick closer to its decay,
   or it decays: exactly when no tick was left but this one.
   */
  lemma TickCountsDown<T>(w: Wheel<T>, x: T, k: nat)
    requires Sound(w, multiset{}) && Waits(w, x, k)
    ensures var left, v := WaitsFor(w, x, k), Tick(w);
            && x in v.items
            && (left == 1 ==>
                  && Turned(w.items[x], v.items[x])
                  && (v.items[x].live ==>
                        exists k' :: Waits(v, x, k') && WaitsFor(v, x, k') == Steps(v.items[x].duration)))
            && (left > 1 ==>
                  && v.items[x].fires == w.items[x].fires && v.items[x].stages == w.items[x].stages
                  && exists k' :: Waits(v, x, k') && WaitsFor(v, x, k') == left - 1)
  {
    hide Visits, Sound, After, Placed, Turned, Steps, FirstBucket;
    TickSound(w);
    var b := (w.last + 1) % BUCKETS;
    var u := w.(buckets := w.buckets[b := []]);
    var v := Visits(u, b, w.buckets[b]);
    if k == b {
      OnceInBucket(w, x, b);
      VisitsOwn(u, b, w.buckets[b], x);
    } else {
      OneBucket(w, x, k, b);
      VisitsOthers(u, b, w.buckets[b], x);
      assert x in v.buckets[k];
      assert Left(k, b, w.items[x].duration) == Left(k, w.last, w.items[x].duration) - 1;
    }
    PlacedOthers(v.(last := b, pending := []), v.pending, x);
    if Left(k, w.last, w.items[x].duration) > 1 {
      var k' :| 0 <= k' < BUCKETS && x in v.buckets[k']
          && Left(k', b, v.items[x].duration) == Left(k, w.last, w.items[x].duration) - 1;
      assert Waits(Tick(w), x, k') && WaitsFor(Tick(w), x, k') == WaitsFor(w, x, k) - 1;
    } else if v.items[x].live {
      PlacedOwn(v.(last := b, pending := []), v.pending, x);
      PlacedDecaysIn(b, v.items[x].duration);
      var k' := FirstBucket(b, v.items[x].duration);
      assert Waits(Tick(w), x, k') && WaitsFor(Tick(w), x, k') == Steps(v.items[x].duration);
    }
  }

  lemma OnceInBucket<T>(w: Wheel<T>, x: T, b: nat)
    requires Sound(w, multiset{}) && Waits(w, x, b)
    ensures multiset(w.buckets[b])[x] == 1
  {
    assert (Listed(w) + multiset{})[x] >= multiset(w.buckets[b])[x];
  }

  lemma OneBucket<T>(w: Wheel<T>, x: T, k: nat, b: nat)
    requires Sound(w, multiset{}) && Waits(w, x, k) && b < BUCKETS && b != k
    ensures x !in w.buckets[b]
  {
    assert multiset(w.buckets[k])[x] >= 1;
    assert (Listed(w) + multiset{})[x] >= multiset(w.buckets[b])[x] + multiset(w.buckets[k])[x];
  }

  // ----- Whole runs

  /** What happens to the wheel: a tick, an item that is to decay, one that no longer can, and a new one. */
  datatype Action<T> = Ticks | Enlist(item: T) | Stop(item: T) | Create(item: T, duration: nat, stages: seq<nat>)

  function Act<T>(w: Wheel<T>, a: Action<T>): Wheel<T> {
    match a
    case Ticks => Tick(w)
    case Enlist(x) => if x in w.items then Start(w, x) else w
    case Stop(x) => if x in w.items then w.(items := w.items[x := w.items[x].(live := false)]) else w
    case Create(x, duration, stages) =>
      if x in w.items then w else w.(items := w.items[x := Rec(duration, true, false, 0, stages, 0)])
  }

  function Run<T>(w: Wheel<T>, acts: seq<Action<T>>): Wheel<T>
    decreases |acts|
  {
    if acts == [] then w else Run(Act(w, acts[0]), acts[1..])
  }

  function TickCount<T>(acts: seq<Action<T>>): nat {
    if acts == [] then 0 else (if acts[0].Ticks? then 1 else 0) + TickCount(acts[1..])
  }

  /** Nothing stops the item or makes it decay by hand. */
  predicate Undisturbed<T(==)>(acts: seq<Action<T>>, x: T) {
    forall a | a in acts :: !a.Ticks? ==> a.item != x
  }

  /** Whatever happens, the wheel holds every listed item by exactly one reference and no other item. */
  lemma ActSound<T>(w: Wheel<T>, a: Action<T>)
    requires Sound(w, multiset{})
    ensures Sound(Act(w, a), multiset{})
  {
    match a
    case Ticks =>
      TickSound(w);
    case Enlist(x) =>
      if x in w.items {
        StartSound(w, x);
      }
    case Stop(x) =>
      SameLists(w, Act(w, a));
      hide Listed;
    case Create(x, duration, stages) =>
      SameLists(w, Act(w, a));
      hide Listed;
      assert x !in w.items ==> x !in Listed(w) + multiset{};
  }

  lemma {:induction false} RunSound<T>(w: Wheel<T>, acts: seq<Action<T>>)
    requires Sound(w, multiset{})
    ensures Sound(Run(w, acts), multiset{})
    decreases |acts|
  {
    hide Sound, Act;
    if acts != [] {
      ActSound(w, acts[0]);
      RunSound(Act(w, acts[0]), acts[1..]);
    }
  }

  lemma ActsOnOthers<T>(w: Wheel<T>, a: Action<T>, x: T, k: nat)
    requires Waits(w, x, k) && !a.Ticks? && a.item != x
    ensures Waits(Act(w, a), x, k) && Act(w, a).items[x] == w.items[x] && WaitsFor(Act(w, a), x, k) == WaitsFor(w, x, k)
  {
    hide Start;
    if a.Enlist? && a.item in w.items {
      StartKeeps(w, a.item);
    }
  }

  lemma TickActs<T>(w: Wheel<T>, a: Action<T>)
    requires a.Ticks?
    ensures Act(w, a) == Tick(w)
  {
  }

  /** An undisturbed item waits, one tick less each, until its last tick has come; before that it never decays. */
  lemma {:induction false} RunCountsDown<T>(w: Wheel<T>, x: T, k: nat, acts: seq<Action<T>>)
    requires Sound(w, multiset{}) && Waits(w, x, k) && Undisturbed(acts, x)
    requires TickCount(acts) < WaitsFor(w, x, k)
    ensures var v := Run(w, acts);
            && x in v.items && v.items[x].fires == w.items[x].fires && v.items[x].stages == w.items[x].stages
            && exists k' :: Waits(v, x, k') && WaitsFor(v, x, k') == WaitsFor(w, x, k) - TickCount(acts)
    decreases |acts|
  {
    hide Sound, Act, Tick, Waits, WaitsFor;
    if acts == [] {
      assert Waits(Run(w, acts), x, k);
      WaitsIsFormed(w, x, k);
    } else {
      WaitsIsFormed(w, x, k);
      ActSound(w, acts[0]);
      var v := Act(w, acts[0]);
      var k' := k;
      assert acts[0] in acts;
      if acts[0].Ticks? {
        TickCountsDown(w, x, k);
        TickActs(w, acts[0]);
        k' :| Waits(v, x, k') && WaitsFor(v, x, k') == WaitsFor(w, x, k) - 1;
      } else {
        ActsOnOthers(w, acts[0], x, k);
      }
      WaitsIsFormed(v, x, k');
      RunCountsDown(v, x, k', acts[1..]);
    }
  }

  lemma WaitsIsFormed<T>(w: Wheel<T>, x: T, k: nat)
    requires Waits(w, x, k)
    ensures Formed(w) && k < BUCKETS && x in w.items
  {
  }

  /** An undisturbed item decays at its last tick, not before it, and then it is what its next stage says. */
  lemma DecaysAtLastTick<T>(w: Wheel<T>, x: T, k: nat, acts: seq<Action<T>>)
    requires Sound(w, multiset{}) && Waits(w, x, k) && Undisturbed(acts, x)
    requires TickCount(acts) == WaitsFor(w, x, k) - 1
    ensures var v := Run(w, acts);
            && x in v.items && v.items[x].fires == w.items[x].fires && v.items[x].stages == w.items[x].stages
            && x in Tick(v).items && Turned(v.items[x], Tick(v).items[x])
            && (Tick(v).items[x].live ==>
                  exists k' :: Waits(Tick(v), x, k') && WaitsFor(Tick(v), x, k') == Steps(Tick(v).items[x].duration))
  {
    hide Sound, Tick, Run, Waits, WaitsFor;
    RunCountsDown(w, x, k, acts);
    RunSound(w, acts);
    var v := Run(w, acts);
    var k' :| Waits(v, x, k') && WaitsFor(v, x, k') == 1;
    TickCountsDown(v, x, k');
  }
}
