/** The whole life of an item on the decay wheel: all its stages, in order, each for its time. */
module DecayLives {
  import opened DecayWheel

  /** The item waits for its next decay, `left` ticks away, with these stages still to come. */
  ghost predicate InStage<T>(v: Wheel<T>, x: T, stages: seq<nat>, left: int) {
    exists k :: Waits(v, x, k) && v.items[x].stages == stages && WaitsFor(v, x, k) == left
  }

  // ----- One step of it

  /**
   What asking for a decay does: nothing for an item that cannot decay or already does; an item with time left is
   enlisted once; one without time turns at once.
   */
  ghost predicate StartLaw<T>(w: Wheel<T>, v: Wheel<T>, x: T)
    requires x in w.items
  {
    var r := w.items[x];
    && v.items.Keys == w.items.Keys && v.buckets == w.buckets && v.last == w.last
    && (forall y | y in w.items && y != x :: v.items[y] == w.items[y])
    && (!r.live || r.decaying ==> v == w)
    && (r.live && !r.decaying && r.duration > 0 ==>
          v.pending == [x] + w.pending && v.items[x] == r.(decaying := true, held := r.held + 1))
    && (r.live && !r.decaying && r.duration == 0 ==> DecayLaw(w, v, x))
  }

  /** What decaying does: the item turns, and is enlisted once more if there is a stage left; all else stays. */
  ghost predicate DecayLaw<T>(w: Wheel<T>, v: Wheel<T>, x: T)
    requires x in w.items
  {
    && v.items.Keys == w.items.Keys && v.buckets == w.buckets && v.last == w.last
    && (forall y | y in w.items && y != x :: v.items[y] == w.items[y])
    && Turned(w.items[x], v.items[x])
    && v.pending == (if v.items[x].live then [x] + w.pending else w.pending)
    && v.items[x].held == w.items[x].held + (if v.items[x].live then 1 else 0)
  }

  lemma DecayIsLawful<T>(w: Wheel<T>, x: T)
    requires x in w.items && w.items[x].live
    ensures DecayLaw(w, Decay(w, x), x)
  {
    DecayKeeps(w, x);
    DecayTurns(w, x);
    NotTwice(w.pending, x);
  }

  lemma StartIsLawful<T>(w: Wheel<T>, x: T)
    requires x in w.items
    ensures StartLaw(w, Start(w, x), x)
  {
    hide DecayLaw;
    StartKeeps(w, x);
    if w.items[x].live && !w.items[x].decaying && w.items[x].duration == 0 {
      DecayIsLawful(w, x);
    }
  }

  /** What a tick does to the items that wait: one tick less each, and the last one turns them. */
  ghost predicate TickLaw<T>(w: Wheel<T>, v: Wheel<T>) {
    forall x, k | x in w.items && 0 <= k < BUCKETS && Waits(w, x, k) ::
      && x in v.items
      && (WaitsFor(w, x, k) > 1 ==>
            InStage(v, x, w.items[x].stages, WaitsFor(w, x, k) - 1) && v.items[x].fires == w.items[x].fires)
      && (WaitsFor(w, x, k) == 1 ==>
            && Turned(w.items[x], v.items[x])
            && (v.items[x].live ==> InStage(v, x, v.items[x].stages, Steps(v.items[x].duration))))
  }

  lemma TickIsLawful<T>(w: Wheel<T>)
    requires Sound(w, multiset{})
    ensures TickLaw(w, Tick(w))
  {
    hide Sound, Tick, Waits, WaitsFor, Turned, Steps;
    var v := Tick(w);
    forall x, k | x in w.items && 0 <= k < BUCKETS && Waits(w, x, k)
      ensures x in v.items
      ensures WaitsFor(w, x, k) > 1 ==>
                InStage(v, x, w.items[x].stages, WaitsFor(w, x, k) - 1) && v.items[x].fires == w.items[x].fires
      ensures WaitsFor(w, x, k) == 1 ==>
                && Turned(w.items[x], v.items[x])
                && (v.items[x].live ==> InStage(v, x, v.items[x].stages, Steps(v.items[x].duration)))
    {
      TickCountsDown(w, x, k);
    }
  }

  // ----- All of it

  /** The ticks that stages take together; one without time takes none. */
  function StageSteps(ss: seq<nat>): nat {
    if ss == [] then 0 else (if ss[0] == 0 then 0 else Steps(ss[0])) + StageSteps(ss[1..])
  }

  lemma {:induction false} NoSteps(ss: seq<nat>, j: nat)
    requires j <= |ss| && forall i | 0 <= i < j :: ss[i] == 0
    ensures StageSteps(ss) == StageSteps(ss[j..])
    ensures forall i | 0 <= i <= j :: StageSteps(ss[..i]) == 0
    decreases j
  {
    assert ss[0..] == ss;
    if j > 0 {
      NoSteps(ss[1..], j - 1);
      assert ss[1..][j - 1..] == ss[j..];
      forall i | 0 <= i <= j ensures StageSteps(ss[..i]) == 0 {
        if i > 0 {
          assert ss[..i][0] == 0 && ss[..i][1..] == ss[1..][..i - 1];
        }
      }
    }
  }

  /** Stages from one with time on: its own ticks and those of the rest. */
  lemma StepsFrom(ss: seq<nat>, j: nat, i: nat)
    requires j < i <= |ss| && (forall h | 0 <= h < j :: ss[h] == 0) && ss[j] > 0
    ensures StageSteps(ss[..i]) == Steps(ss[j]) + StageSteps(ss[j + 1..][..i - j - 1])
  {
    var front := ss[..i];
    NoSteps(front, j);
    assert front[j..][0] == ss[j] && front[j..][1..] == ss[j + 1..][..i - j - 1];
  }

  lemma DeadStays<T>(w: Wheel<T>, a: Action<T>, x: T)
    requires Sound(w, multiset{}) && x in w.items && !w.items[x].live
    ensures x in Act(w, a).items && !Act(w, a).items[x].live
  {
    hide Sound, Tick;
    match a
    case Ticks => DeadTicks(w, x);
    case Enlist(y) =>
      if y in w.items && y != x {
        StartKeeps(w, y);
      }
    case Stop(y) =>
    case Create(y, duration, stages) =>
  }

  lemma DeadTicks<T>(w: Wheel<T>, x: T)
    requires Sound(w, multiset{}) && x in w.items && !w.items[x].live
    ensures x in Tick(w).items && !Tick(w).items[x].live
  {
    hide Sound, Visits, Placed;
    TickSound(w);
    SoundIsFormed(w);
    var b := (w.last + 1) % BUCKETS;
    var u := w.(buckets := w.buckets[b := []]);
    DeadVisits(u, b, w.buckets[b], x);
    var v := Visits(u, b, w.buckets[b]);
    PlacedOthers(v.(last := b, pending := []), v.pending, x);
  }

  lemma {:induction false} DeadVisits<T>(w: Wheel<T>, b: nat, xs: seq<T>, x: T)
    requires (forall y | y in xs :: y in w.items) && |w.buckets| == BUCKETS && b < BUCKETS
    requires x in w.items && !w.items[x].live
    ensures var v := Visits(w, b, xs);
            x in v.items && !v.items[x].live && |v.buckets| == BUCKETS
    decreases |xs|
  {
    if xs != [] {
      VisitKeeps(w, b, xs[0]);
      DeadVisits(Visit(w, b, xs[0]), b, xs[1..], x);
    }
  }

  lemma {:induction false} DeadRuns<T>(w: Wheel<T>, acts: seq<Action<T>>, x: T)
    requires Sound(w, multiset{}) && x in w.items && !w.items[x].live
    ensures x in Run(w, acts).items && !Run(w, acts).items[x].live
    decreases |acts|
  {
    hide Sound, Act;
    if acts != [] {
      ActSound(w, acts[0]);
      DeadStays(w, acts[0], x);
      DeadRuns(Act(w, acts[0]), acts[1..], x);
    }
  }

  /**
   An undisturbed item passes through all its stages in order, each for exactly the ticks its time asks for: `i` stages
   are over as long as the ticks cover those and not the next, and it decays no more once they cover them all.
   */
  ghost predicate OnSchedule<T>(w: Wheel<T>, x: T, k: nat, v: Wheel<T>, n: nat)
    requires Waits(w, x, k)
  {
    var ss, wait := w.items[x].stages, WaitsFor(w, x, k);
    && x in v.items
    && (n < wait ==> InStage(v, x, ss, wait - n))
    && (forall i | 0 < i <= |ss| && wait + StageSteps(ss[..i - 1]) <= n < wait + StageSteps(ss[..i]) ::
          InStage(v, x, ss[i..], wait + StageSteps(ss[..i]) - n))
    && (n >= wait + StageSteps(ss) ==> !v.items[x].live)
  }

  lemma {:induction false} PassesStages<T>(w: Wheel<T>, x: T, k: nat, acts: seq<Action<T>>)
    requires Sound(w, multiset{}) && Waits(w, x, k) && Undisturbed(acts, x)
    ensures OnSchedule(w, x, k, Run(w, acts), TickCount(acts))
    decreases |acts|
  {
    hide Sound, Act, Tick, Waits, WaitsFor, OnSchedule, Turned;
    WaitsIsFormed(w, x, k);
    if acts == [] {
      NotYet(w, x, k);
    } else {
      assert acts[0] in acts;
      ActSound(w, acts[0]);
      var v := Act(w, acts[0]);
      if !acts[0].Ticks? {
        ActsOnOthers(w, acts[0], x, k);
        PassesStages(v, x, k, acts[1..]);
        SameSchedule(w, v, x, k, Run(v, acts[1..]), TickCount(acts[1..]));
      } else {
        TickCountsDown(w, x, k);
        TickActs(w, acts[0]);
        WaitsLong(w, x, k);
        if WaitsFor(w, x, k) > 1 {
          var k' :| Waits(v, x, k') && WaitsFor(v, x, k') == WaitsFor(w, x, k) - 1;
          WaitsIsFormed(v, x, k');
          PassesStages(v, x, k', acts[1..]);
          OneCloser(w, v, x, k, k', Run(v, acts[1..]), TickCount(acts[1..]));
        } else if v.items[x].live {
          var k' :| Waits(v, x, k') && WaitsFor(v, x, k') == Steps(v.items[x].duration);
          WaitsIsFormed(v, x, k');
          PassesStages(v, x, k', acts[1..]);
          NextStage(w, v, x, k, k', Run(v, acts[1..]), TickCount(acts[1..]));
        } else {
          DeadRuns(v, acts[1..], x);
          NoStageLeft(w, v, x, k, Run(v, acts[1..]), TickCount(acts));
        }
      }
    }
  }

  lemma NotYet<T>(w: Wheel<T>, x: T, k: nat)
    requires Waits(w, x, k)
    ensures OnSchedule(w, x, k, w, 0)
  {
    hide Left, Steps, StageSteps;
    assert WaitsFor(w, x, k) > 0 by { hide *; WaitsLong(w, x, k); }
    assert InStage(w, x, w.items[x].stages, WaitsFor(w, x, k));
  }

  lemma WaitsLong<T>(w: Wheel<T>, x: T, k: nat)
    requires Waits(w, x, k)
    ensures WaitsFor(w, x, k) > 0
  {
  }

  lemma SameSchedule<T>(w: Wheel<T>, u: Wheel<T>, x: T, k: nat, v: Wheel<T>, n: nat)
    requires Waits(w, x, k) && Waits(u, x, k) && u.items[x] == w.items[x] && WaitsFor(u, x, k) == WaitsFor(w, x, k)
    requires OnSchedule(u, x, k, v, n)
    ensures OnSchedule(w, x, k, v, n)
  {
    hide Waits, WaitsFor, InStage;
    WaitsIsFormed(w, x, k);
    WaitsIsFormed(u, x, k);
  }

  lemma OneCloser<T>(w: Wheel<T>, u: Wheel<T>, x: T, k: nat, k': nat, v: Wheel<T>, n: nat)
    requires Waits(w, x, k) && Waits(u, x, k') && x in w.items && x in u.items && u.items[x].stages == w.items[x].stages
    requires WaitsFor(u, x, k') == WaitsFor(w, x, k) - 1 && OnSchedule(u, x, k', v, n)
    ensures OnSchedule(w, x, k, v, n + 1)
  {
    hide Waits, WaitsFor, InStage;
    WaitsIsFormed(w, x, k);
    WaitsIsFormed(u, x, k');
  }

  lemma NextStage<T>(w: Wheel<T>, u: Wheel<T>, x: T, k: nat, k': nat, v: Wheel<T>, n: nat)
    requires Waits(w, x, k) && Waits(u, x, k') && x in w.items && x in u.items
    requires WaitsFor(w, x, k) == 1 && Turned(w.items[x], u.items[x]) && u.items[x].live
    requires WaitsFor(u, x, k') == Steps(u.items[x].duration) && OnSchedule(u, x, k', v, n)
    ensures OnSchedule(w, x, k, v, n + 1)
  {
    hide Waits, WaitsFor, InStage, Steps, StageSteps;
    WaitsIsFormed(w, x, k);
    WaitsIsFormed(u, x, k');
    var ss := w.items[x].stages;
    var j :| 0 <= j <= |ss| && TurnedTo(w.items[x], u.items[x], j);
    var rest := ss[j + 1..];
    NoSteps(ss, j);
    forall i | 0 < i <= |ss| && 1 + StageSteps(ss[..i - 1]) <= n + 1 < 1 + StageSteps(ss[..i])
      ensures InStage(v, x, ss[i..], 1 + StageSteps(ss[..i]) - (n + 1))
    {
      StageOf(ss, j, i);
      assert i > j;
      assert rest[i - j - 1..] == ss[i..];
      if i == j + 1 {
        assert rest[0..] == rest;
      }
    }
    assert ss[..|ss|] == ss && rest[..|ss| - j - 1] == rest;
    StageOf(ss, j, |ss|);
  }

  lemma StageOf(ss: seq<nat>, j: nat, i: nat)
    requires j < |ss| && (forall h | 0 <= h < j :: ss[h] == 0) && ss[j] > 0 && 0 < i <= |ss|
    ensures i <= j ==> StageSteps(ss[..i]) == 0
    ensures i > j ==> StageSteps(ss[..i]) == Steps(ss[j]) + StageSteps(ss[j + 1..][..i - j - 1])
    ensures i > j + 1 ==> StageSteps(ss[..i - 1]) == Steps(ss[j]) + StageSteps(ss[j + 1..][..i - j - 2])
    ensures i == j + 1 ==> StageSteps(ss[..i - 1]) == 0 && StageSteps(ss[j + 1..][..i - j - 1]) == 0
  {
    hide Steps;
    NoSteps(ss, j);
    if i > j {
      StepsFrom(ss, j, i);
    }
    if i > j + 1 {
      StepsFrom(ss, j, i - 1);
    }
  }

  lemma NoStageLeft<T>(w: Wheel<T>, u: Wheel<T>, x: T, k: nat, v: Wheel<T>, n: nat)
    requires Waits(w, x, k) && x in w.items && x in u.items && WaitsFor(w, x, k) == 1 && n >= 1
    requires Turned(w.items[x], u.items[x]) && !u.items[x].live && x in v.items && !v.items[x].live
    ensures OnSchedule(w, x, k, v, n)
  {
    hide Waits, WaitsFor, InStage, Steps, StageSteps;
    WaitsIsFormed(w, x, k);
    var ss := w.items[x].stages;
    var j :| 0 <= j <= |ss| && TurnedTo(w.items[x], u.items[x], j);
    NoSteps(ss, |ss|);
  }
}
