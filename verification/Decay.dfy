/** The game's decay lists: starting a decay, the quarter-second check and the cleanup that places new items. */
module Decays {
  import opened DecayWheel
  import opened DecayLives

  class Game<T(==)> {
    var items: map<T, Rec>
    const decayItems: array<seq<T>>
    var toDecayItems: seq<T>
    var lastBucket: nat

    constructor ()
      ensures fresh(decayItems) && decayItems.Length == BUCKETS
      ensures State() == Wheel(map[], [[], [], [], []], [], 0) && Sound(State(), multiset{})
    {
      items, toDecayItems, lastBucket := map[], [], 0;
      decayItems := new seq<T>[BUCKETS](i => []);
      new;
      assert decayItems[..] == [[], [], [], []];
    }

    ghost function State(): Wheel<T>
      reads this, decayItems
    {
      Wheel(items, decayItems[..], toDecayItems, lastBucket)
    }

    method ReleaseItem(item: T)
      requires item in items
      modifies this`items
      ensures State() == Released(old(State()), item)
    {
      items := items[item := items[item].(held := items[item].held - 1)];
    }

    /** Enlists an item that can decay and is not yet decaying; one without time decays at once. */
    method StartDecay(item: T)
      requires item in items
      modifies this`items, this`toDecayItems
      ensures State() == Start(old(State()), item) && StartLaw(old(State()), State(), item)
      decreases |items[item].stages|, 1
    {
      StartIsLawful(State(), item);
      hide StartLaw;
      var r := items[item];
      if !r.live {
        return;
      }
      if r.decaying {
        return;
      }
      if r.duration > 0 {
        items := items[item := r.(held := r.held + 1, decaying := true)];
        toDecayItems := [item] + toDecayItems;
      } else {
        InternalDecayItem(item);
      }
    }

    /** Turns the item into what it decays into and starts that, or removes it. */
    method InternalDecayItem(item: T)
      requires item in items
      modifies this`items, this`toDecayItems
      ensures State() == Decay(old(State()), item)
      ensures old(items[item].live) ==> DecayLaw(old(State()), State(), item)
      decreases |items[item].stages|, 0
    {
      if items[item].live {
        DecayIsLawful(State(), item);
      }
      hide DecayLaw;
      var r := items[item].(fires := items[item].fires + 1);
      if r.stages != [] {
        items := items[item := r.(duration := r.stages[0], stages := r.stages[1..], decaying := false)];
        StartDecay(item);
      } else {
        items := items[item := r.(live := false)];
      }
    }

    method DecayAndRelease(item: T)
      requires item in items
      modifies this`items, this`toDecayItems
      ensures item in Decay(old(State()), item).items && State() == Released(Decay(old(State()), item), item)
    {
      hide Decay;
      DecayKeeps(State(), item);
      InternalDecayItem(item);
      ReleaseItem(item);
    }

    /** Takes the item at position `it` out of the bucket. */
    method Erase(bucket: nat, it: nat)
      requires bucket < decayItems.Length && it < |decayItems[bucket]|
      modifies decayItems
      ensures State() == Shown(old(State()), bucket, decayItems[bucket])
      ensures |decayItems[bucket]| >= it && decayItems[bucket][..it] == old(decayItems[bucket][..it])
      ensures decayItems[bucket][it..] == old(decayItems[bucket][it + 1..])
    {
      decayItems[bucket] := decayItems[bucket][..it] + decayItems[bucket][it + 1..];
    }

    /** Visits the item at position `it` of a bucket: it stays, moves to a later bucket, decays, or is let go. */
    method VisitAt(bucket: nat, it: nat, ghost v: Wheel<T>) returns (it': nat)
      requires decayItems.Length == BUCKETS && bucket < BUCKETS && it < |decayItems[bucket]|
               && decayItems[bucket][it] in items
      requires |v.buckets| == BUCKETS && v.buckets[bucket] == decayItems[bucket][..it]
               && State() == Shown(v, bucket, decayItems[bucket])
      modifies this`items, this`toDecayItems, decayItems
      ensures old(decayItems[bucket][it]) in v.items
      ensures var w := Visit(v, bucket, old(decayItems[bucket][it]));
              && |w.buckets| == BUCKETS && it' <= |decayItems[bucket]|
              && w.buckets[bucket] == decayItems[bucket][..it'] && State() == Shown(w, bucket, decayItems[bucket])
              && decayItems[bucket][it'..] == old(decayItems[bucket][it + 1..])
    {
      hide Decay;
      var item := decayItems[bucket][it];
      it' := it;
      if items[item].live {
        it' := PassTime(bucket, it, item, v);
      } else {
        VisitBucket(v, bucket, item);
        items := items[item := items[item].(decaying := false)];
        Erase(bucket, it);
        ReleaseItem(item);
      }
    }

    /** A round passes for an item that is still there: it decays, waits in another bucket, or stays. */
    method PassTime(bucket: nat, it: nat, item: T, ghost v: Wheel<T>) returns (it': nat)
      requires decayItems.Length == BUCKETS && bucket < BUCKETS && it < |decayItems[bucket]|
               && decayItems[bucket][it] == item
      requires item in items && items[item].live
      requires |v.buckets| == BUCKETS && v.buckets[bucket] == decayItems[bucket][..it]
      requires State() == Shown(v, bucket, decayItems[bucket])
      modifies this`items, this`toDecayItems, decayItems
      ensures item in v.items
      ensures var w := Visit(v, bucket, item);
              && |w.buckets| == BUCKETS && it' <= |decayItems[bucket]|
              && w.buckets[bucket] == decayItems[bucket][..it'] && State() == Shown(w, bucket, decayItems[bucket])
              && decayItems[bucket][it'..] == old(decayItems[bucket][it + 1..])
    {
      hide Decay;
      var r := items[item];
      it' := it;
      VisitBucket(v, bucket, item);
      var decreaseTime := if r.duration < ROUND then r.duration else ROUND;
      var duration := r.duration - decreaseTime;
      items := items[item := r.(duration := duration)];
      ghost var u := v.(items := items);
      if duration <= 0 {
        EraseAndDecay(bucket, it, item, u);
      } else if duration < INTERVAL * BUCKETS {
        var newBucket := (bucket + (duration + INTERVAL / 2) / 1000) % BUCKETS;
        if newBucket == bucket {
          EraseAndDecay(bucket, it, item, u);
        } else {
          Erase(bucket, it);
          decayItems[newBucket] := decayItems[newBucket] + [item];
        }
      } else {
        assert decayItems[bucket][..it + 1] == decayItems[bucket][..it] + [item];
        it' := it + 1;
      }
    }

    method EraseAndDecay(bucket: nat, it: nat, item: T, ghost u: Wheel<T>)
      requires decayItems.Length == BUCKETS && bucket < BUCKETS && it < |decayItems[bucket]| && item in items
      requires |u.buckets| == BUCKETS && State() == Shown(u, bucket, decayItems[bucket])
      modifies this`items, this`toDecayItems, decayItems
      ensures item in u.items && item in Decay(u, item).items && |Decay(u, item).buckets| == BUCKETS
      ensures State() == Shown(Released(Decay(u, item), item), bucket, decayItems[bucket])
      ensures |decayItems[bucket]| >= it && decayItems[bucket][..it] == old(decayItems[bucket][..it])
      ensures decayItems[bucket][it..] == old(decayItems[bucket][it + 1..])
    {
      hide Decay;
      Erase(bucket, it);
      DecayKeeps(u, item);
      DecayLists(u, State(), item);
      DecayAndRelease(item);
    }

    /** Visits the items of the next bucket, then cleans up. */
    method CheckDecay()
      requires decayItems.Length == BUCKETS && Sound(State(), multiset{})
      modifies this, decayItems
      ensures State() == Tick(old(State())) && Sound(State(), multiset{}) && TickLaw(old(State()), State())
    {
      hide Sound, Visit, Visits, DecayWheel.Cleanup, Tick, TickLaw;
      TickIsLawful(State());
      ghost var w := State();
      TickSound(w);
      SoundIsFormed(w);
      var bucket := (lastBucket + 1) % BUCKETS;
      ghost var v := w.(buckets := w.buckets[bucket := []]);
      ghost var list := decayItems[bucket];
      ghost var end := Visits(v, bucket, list);
      assert decayItems[bucket][0..] == list;
      var it := 0;
      while it < |decayItems[bucket]|
        invariant 0 <= it <= |decayItems[bucket]|
        invariant |v.buckets| == BUCKETS && v.buckets[bucket] == decayItems[bucket][..it]
                  && State() == Shown(v, bucket, decayItems[bucket])
        invariant lastBucket == w.last && v.last == w.last
        invariant forall x | x in decayItems[bucket][it..] :: x in v.items
        invariant Visits(v, bucket, decayItems[bucket][it..]) == end
        decreases |decayItems[bucket]| - it
      {
        ghost var rest := decayItems[bucket][it..];
        assert rest[0] == decayItems[bucket][it] && rest[1..] == decayItems[bucket][it + 1..];
        VisitStep(v, bucket, rest);
        it := VisitAt(bucket, it, v);
        v := Visit(v, bucket, rest[0]);
      }
      VisitsNothing(v, bucket);
      assert decayItems[bucket][it..] == [] && decayItems[bucket][..it] == decayItems[bucket];
      assert v.buckets[bucket := v.buckets[bucket]] == v.buckets;
      assert State() == v == end;
      lastBucket := bucket;
      assert State() == end.(last := bucket);
      Cleanup();
    }

    /** Puts every newly enlisted item into the bucket its time asks for. */
    method Cleanup()
      requires decayItems.Length == BUCKETS && forall x | x in toDecayItems :: x in items
      modifies this`toDecayItems, decayItems
      ensures State() == DecayWheel.Cleanup(old(State()))
    {
      hide Placed;
      ghost var rest := toDecayItems;
      for i := 0 to |toDecayItems|
        invariant toDecayItems == old(toDecayItems) && rest == toDecayItems[i..]
        invariant Placed(State().(pending := []), rest) == DecayWheel.Cleanup(old(State()))
      {
        var item := toDecayItems[i];
        var dur := items[item].duration;
        ghost var w := State().(pending := []);
        PlacedStep(w, rest);
        if dur >= INTERVAL * BUCKETS {
          var b := lastBucket % BUCKETS;
          decayItems[b] := decayItems[b] + [item];
        } else {
          var b := (lastBucket + 1 + dur / 1000) % BUCKETS;
          decayItems[b] := decayItems[b] + [item];
        }
        assert State().(pending := []) == Pushed(w, FirstBucket(w.last, dur), item);
        rest := rest[1..];
      }
      assert rest == [];
      PlacedNothing(State().(pending := []));
      toDecayItems := [];
    }
  }

  /** The wheel with another list in one bucket. */
  ghost function Shown<T>(w: Wheel<T>, b: nat, list: seq<T>): Wheel<T>
    requires b < |w.buckets|
  {
    w.(buckets := w.buckets[b := list])
  }

  lemma VisitsNothing<T>(w: Wheel<T>, b: nat)
    requires |w.buckets| == BUCKETS && b < BUCKETS
    ensures Visits(w, b, []) == w
  {
  }

  lemma VisitStep<T>(w: Wheel<T>, b: nat, xs: seq<T>)
    requires xs != [] && (forall x | x in xs :: x in w.items) && |w.buckets| == BUCKETS && b < BUCKETS
    ensures var v := Visit(w, b, xs[0]);
            && v.items.Keys == w.items.Keys && |v.buckets| == BUCKETS && v.last == w.last
            && Visits(w, b, xs) == Visits(v, b, xs[1..])
  {
    VisitKeeps(w, b, xs[0]);
  }

  /** Decaying does not look at the buckets. */
  lemma {:induction false} StartLists<T>(v: Wheel<T>, w: Wheel<T>, x: T)
    requires x in v.items && w == v.(buckets := w.buckets)
    ensures Start(w, x) == Start(v, x).(buckets := w.buckets)
    decreases |v.items[x].stages|, 1
  {
    if v.items[x].live && !v.items[x].decaying && v.items[x].duration == 0 {
      DecayLists(v, w, x);
    }
  }

  lemma {:induction false} DecayLists<T>(v: Wheel<T>, w: Wheel<T>, x: T)
    requires x in v.items && w == v.(buckets := w.buckets)
    ensures Decay(w, x) == Decay(v, x).(buckets := w.buckets)
    decreases |v.items[x].stages|, 0
  {
    var r := v.items[x].(fires := v.items[x].fires + 1);
    if r.stages != [] {
      var next := v.(items := v.items[x := r.(duration := r.stages[0], stages := r.stages[1..], decaying := false)]);
      StartLists(next, next.(buckets := w.buckets), x);
    }
  }

  /** What a visit does to the buckets. */
  lemma VisitBucket<T>(w: Wheel<T>, b: nat, x: T)
    requires x in w.items && |w.buckets| == BUCKETS && b < BUCKETS
    ensures var v, d := Visit(w, b, x), w.items[x].duration;
            v.buckets == if w.items[x].live && d >= 2 * ROUND then w.buckets[b := w.buckets[b] + [x]]
                         else if w.items[x].live && d > ROUND && NextBucket(b, d - ROUND) != b
                         then w.buckets[NextBucket(b, d - ROUND) := w.buckets[NextBucket(b, d - ROUND)] + [x]]
                         else w.buckets
  {
    hide Decay;
    var left := if w.items[x].duration < ROUND then 0 else w.items[x].duration - ROUND;
    DecayKeeps(w.(items := w.items[x := w.items[x].(duration := left)]), x);
  }

  lemma PlacedStep<T>(w: Wheel<T>, xs: seq<T>)
    requires xs != [] && (forall x | x in xs :: x in w.items) && |w.buckets| == BUCKETS
    ensures Placed(w, xs) == Placed(Pushed(w, FirstBucket(w.last, w.items[xs[0]].duration), xs[0]), xs[1..])
  {
  }

  lemma PlacedNothing<T>(w: Wheel<T>)
    requires |w.buckets| == BUCKETS
    ensures Placed(w, []) == w
  {
  }
}
