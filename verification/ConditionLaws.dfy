/** What adding, removing and passing time do to the conditions of a creature, told from their fields alone. */
module ConditionLaws {
  import opened Options
  import opened ConditionBooks

  /** A condition of this type that counts: without sub-id, and not over. */
  ghost predicate Active(b: Body, kind: Kind, t: Situation) {
    && !t.suppressed
    && exists c :: c in b.conditions && c.key.kind == kind && c.key.subId == 0 && (c.ticks == -1 || c.endTime >= t.now)
  }

  // ----- A condition with the same key is there

  /**
   An active haste or paralysis takes over time and change of the new one, drawn if it has none, and the speed moves by
   the difference; only one without end is not shortened.
   */
  ghost predicate SpeedTakenOver(b: Body, r: Body, p: Cond, q: Cond, c: Cond, t: Situation) {
    if p.ticks == -1 && c.ticks > 0 then r == b
    else
      && q.ticks == c.ticks && q.endTime == t.now + c.ticks
      && q.speedDelta == (if c.speedDelta == 0 then t.roll else c.speedDelta)
      && q.modifiers == p.modifiers && q.percents == p.percents
      && r.varSpeed == b.varSpeed + q.speedDelta - p.speedDelta && r.varModifiers == b.varModifiers
  }

  /**
   Any other condition takes over unless it has no end and the new one has, or it lasts longer. Attributes take over the
   modifiers too, those in percent worked out for players, and every value moves by the difference.
   */
  ghost predicate OtherTakenOver(b: Body, r: Body, p: Cond, q: Cond, c: Cond, t: Situation)
    requires |p.modifiers| == |c.modifiers| == |c.percents| == |t.resolved| == |b.varModifiers| == MODIFIERS
  {
    if (p.ticks == -1 && c.ticks > 0) || (c.ticks >= 0 && p.endTime > t.now + c.ticks) then r == b
    else
      && q.ticks == c.ticks && q.endTime == t.now + c.ticks && q.speedDelta == p.speedDelta && r.varSpeed == b.varSpeed
      && |q.modifiers| == |r.varModifiers| == MODIFIERS
      && (p.key.kind != Attributes ==>
            q.modifiers == p.modifiers && q.percents == p.percents && r.varModifiers == b.varModifiers)
      && (p.key.kind == Attributes ==>
            && q.percents == c.percents
            && (forall k | 0 <= k < MODIFIERS ::
                  q.modifiers[k] == if b.player && c.percents[k] != 0 then t.resolved[k] else c.modifiers[k])
            && (forall k | 0 <= k < MODIFIERS ::
                  r.varModifiers[k] == b.varModifiers[k] + if b.player then q.modifiers[k] - p.modifiers[k] else 0))
  }

  /** Only the condition with the key changes, and it keeps its place. */
  ghost predicate TakeOverLaw(b: Body, r: Body, i: nat, c: Cond, t: Situation)
    requires Valid(b) && Fit(c) && |t.resolved| == MODIFIERS && i < |b.conditions|
  {
    && r.player == b.player && |r.conditions| == |b.conditions| && r.conditions[i].key == c.key
    && (forall j | 0 <= j < |b.conditions| && j != i :: r.conditions[j] == b.conditions[j])
    && b.conditions[i] in b.conditions
    && (if c.key.kind == Haste || c.key.kind == Paralyze
        then SpeedTakenOver(b, r, b.conditions[i], r.conditions[i], c, t)
        else OtherTakenOver(b, r, b.conditions[i], r.conditions[i], c, t))
  }

  lemma TakenOverLawful(b: Body, i: nat, c: Cond, t: Situation)
    requires Valid(b) && Fit(c) && |t.resolved| == MODIFIERS && i < |b.conditions| && b.conditions[i].key == c.key
    ensures b.conditions[i] in b.conditions
    ensures TakeOverLaw(b, Exchanged(b, i, TakenOver(b.conditions[i], c, b.player, t)), i, c, t)
  {
    var p := b.conditions[i];
    assert p in b.conditions;
    var q := TakenOver(p, c, b.player, t);
    var r := Exchanged(b, i, q);
    assert forall slot | 0 <= slot <= MODIFIERS ::
        Level(r, slot) == Level(b, slot) - Effect(p, slot, b.player) + Effect(q, slot, b.player) by {
      hide TakenOver, Effect;
    }
    assert r.varSpeed == Level(r, 0) && b.varSpeed == Level(b, 0);
    forall k | 0 <= k < MODIFIERS
      ensures r.varModifiers[k] == b.varModifiers[k] - Effect(p, k + 1, b.player) + Effect(q, k + 1, b.player)
    {
      assert Level(r, k + 1) == r.varModifiers[k];
    }
    assert q == p ==> r.varModifiers == b.varModifiers && r.conditions == b.conditions;
  }

  // ----- A condition with a new key

  /**
   A new condition comes last. Its time starts now, if it has any; haste and paralysis draw the change they do not have,
   and the attributes of a player are worked out. The values rise by what it brings.
   */
  ghost predicate JoinLaw(b: Body, m: Body, c: Cond, t: Situation)
    requires Valid(b) && Fit(c) && |t.resolved| == MODIFIERS
  {
    && m.player == b.player && |m.conditions| == |b.conditions| + 1 && m.conditions[..|b.conditions|] == b.conditions
    && var q := m.conditions[|b.conditions|];
    && var speed, attributes := c.key.kind == Haste || c.key.kind == Paralyze, c.key.kind == Attributes && b.player;
    && q.key == c.key && q.ticks == c.ticks && q.endTime == (if c.ticks > 0 then t.now + c.ticks else c.endTime)
    && q.speedDelta == (if speed && c.speedDelta == 0 then t.roll else c.speedDelta) && q.percents == c.percents
    && |q.modifiers| == |m.varModifiers| == MODIFIERS
    && (forall k | 0 <= k < MODIFIERS ::
          q.modifiers[k] == if attributes && c.percents[k] != 0 then t.resolved[k] else c.modifiers[k])
    && m.varSpeed == b.varSpeed + (if speed then q.speedDelta else 0)
    && (forall k | 0 <= k < MODIFIERS ::
          m.varModifiers[k] == b.varModifiers[k] + if attributes then q.modifiers[k] else 0)
  }

  lemma JoinIsLawful(b: Body, c: Cond, t: Situation)
    requires Valid(b) && Fit(c) && |t.resolved| == MODIFIERS
    ensures JoinLaw(b, Appended(b, Started(c, b.player, t)), c, t)
  {
    var q := Started(c, b.player, t);
    var m := Appended(b, q);
    assert m.varSpeed == Level(Shifted(b, q, 1), 0) && b.varSpeed == Level(b, 0);
    forall k | 0 <= k < MODIFIERS
      ensures m.varModifiers[k] == b.varModifiers[k] + Effect(q, k + 1, b.player)
    {
      assert Level(Shifted(b, q, 1), k + 1) == m.varModifiers[k];
    }
  }

  // ----- Removing

  /** Whether a removal is meant for a condition: the type, and the id if one is named. */
  predicate Meant(c: Cond, kind: Kind, id: Option<int>) {
    c.key.kind == kind && (id.None? || id.value == c.key.id)
  }

  /** The conditions of a list that a removal is not meant for. */
  function Others(cs: seq<Cond>, kind: Kind, id: Option<int>): seq<Cond> {
    if cs == [] then [] else (if Meant(cs[0], kind, id) then [] else [cs[0]]) + Others(cs[1..], kind, id)
  }

  /**
   A removal takes what it is meant for from the front of the list up to a cut. The cut is the end, unless the removal
   of a paralysis is put off: then it is the first one that is. No value changes but by what is taken.
   */
  ghost predicate RemoveLaw(b: Body, r: Body, kind: Kind, id: Option<int>, force: bool, slow: nat -> bool) {
    && Balances(b, r)
    && exists cut | 0 <= cut <= |b.conditions| :: CutAt(b.conditions, r.conditions, kind, id, force, slow, 0, cut)
  }

  ghost predicate CutAt(cs: seq<Cond>, rest: seq<Cond>, kind: Kind, id: Option<int>, force: bool, slow: nat -> bool,
                        n: nat, cut: nat)
    requires cut <= |cs|
  {
    var front := Others(cs[..cut], kind, id);
    && |front| <= cut && rest == front + cs[cut..]
    && (forall h | n <= h < n + cut - |front| :: force || kind != Paralyze || !slow(h))
    && (cut < |cs| ==> Meant(cs[cut], kind, id) && !force && kind == Paralyze && slow(n + cut - |front|))
  }

  /** What a removal leaves of a list, from the front. */
  function Left(cs: seq<Cond>, kind: Kind, id: Option<int>, force: bool, slow: nat -> bool, n: nat): seq<Cond>
    decreases |cs|
  {
    if cs == [] then []
    else if !Meant(cs[0], kind, id) then [cs[0]] + Left(cs[1..], kind, id, force, slow, n)
    else if !force && kind == Paralyze && slow(n) then cs
    else Left(cs[1..], kind, id, force, slow, n + 1)
  }

  lemma {:induction false} RemovedLeaves(b: Body, kind: Kind, id: Option<int>, force: bool, slow: nat -> bool, i: nat,
                                         n: nat)
    requires i <= |b.conditions|
    ensures Removed(b, kind, id, force, slow, i, n).conditions
            == b.conditions[..i] + Left(b.conditions[i..], kind, id, force, slow, n)
    decreases |b.conditions| - i
  {
    hide Dropped, Left;
    LeftStep(b.conditions, i, kind, id, force, slow, n);
    if i < |b.conditions| {
      if !Hit(b.conditions[i], kind, id) {
        RemovedLeaves(b, kind, id, force, slow, i + 1, n);
      } else if !(!force && kind == Paralyze && slow(n)) {
        DroppedParts(b, i);
        RemovedLeaves(Dropped(b, i), kind, id, force, slow, i, n + 1);
      }
    }
  }

  lemma LeftStep(cs: seq<Cond>, i: nat, kind: Kind, id: Option<int>, force: bool, slow: nat -> bool, n: nat)
    requires i <= |cs|
    ensures i == |cs| ==> cs[..i] + Left(cs[i..], kind, id, force, slow, n) == cs
    ensures i < |cs| ==>
              var all := cs[..i] + Left(cs[i..], kind, id, force, slow, n);
              if !Meant(cs[i], kind, id) then all == cs[..i + 1] + Left(cs[i + 1..], kind, id, force, slow, n)
              else if !force && kind == Paralyze && slow(n) then all == cs
              else all == cs[..i] + Left(cs[i + 1..], kind, id, force, slow, n + 1)
  {
    hide Meant;
    if i < |cs| {
      assert cs[i..][0] == cs[i] && cs[i..][1..] == cs[i + 1..];
    }
  }

  lemma {:induction false} LeftCuts(cs: seq<Cond>, kind: Kind, id: Option<int>, force: bool, slow: nat -> bool, n: nat)
    returns (cut: nat)
    ensures cut <= |cs| && CutAt(cs, Left(cs, kind, id, force, slow, n), kind, id, force, slow, n, cut)
    decreases |cs|
  {
    hide CutAt, Meant;
    if cs == [] || (Meant(cs[0], kind, id) && !force && kind == Paralyze && slow(n)) {
      cut := 0;
      CutAtOnce(cs, kind, id, force, slow, n);
    } else if !Meant(cs[0], kind, id) {
      var c := LeftCuts(cs[1..], kind, id, force, slow, n);
      KeptFirst(cs, Left(cs[1..], kind, id, force, slow, n), kind, id, force, slow, n, c);
      cut := c + 1;
    } else {
      var c := LeftCuts(cs[1..], kind, id, force, slow, n + 1);
      TakenFirst(cs, Left(cs[1..], kind, id, force, slow, n + 1), kind, id, force, slow, n, c);
      cut := c + 1;
    }
  }

  lemma LeftOfAll(cs: seq<Cond>, rest: seq<Cond>)
    ensures cs[0..] == cs && cs[..0] + rest == rest
  {
  }

  lemma CutAtOnce(cs: seq<Cond>, kind: Kind, id: Option<int>, force: bool, slow: nat -> bool, n: nat)
    requires cs == [] || (Meant(cs[0], kind, id) && !force && kind == Paralyze && slow(n))
    ensures CutAt(cs, cs, kind, id, force, slow, n, 0)
  {
    assert cs[..0] == [] && [] + cs[0..] == cs;
  }

  lemma KeptFirst(all: seq<Cond>, rest: seq<Cond>, kind: Kind, id: Option<int>, force: bool, slow: nat -> bool, n: nat,
                  cut: nat)
    requires all != [] && !Meant(all[0], kind, id) && cut < |all|
    requires CutAt(all[1..], rest, kind, id, force, slow, n, cut)
    ensures CutAt(all, [all[0]] + rest, kind, id, force, slow, n, cut + 1)
  {
    CutFurther(all, cut);
    assert Others(all[..cut + 1], kind, id) == [all[0]] + Others(all[1..][..cut], kind, id);
    assert [all[0]] + (Others(all[1..][..cut], kind, id) + all[1..][cut..])
        == [all[0]] + Others(all[1..][..cut], kind, id) + all[1..][cut..];
  }

  lemma CutFurther(all: seq<Cond>, cut: nat)
    requires cut < |all|
    ensures all[..cut + 1][0] == all[0] && all[..cut + 1][1..] == all[1..][..cut] && all[cut + 1..] == all[1..][cut..]
    ensures cut + 1 < |all| ==> all[cut + 1] == all[1..][cut]
  {
  }

  lemma TakenFirst(all: seq<Cond>, rest: seq<Cond>, kind: Kind, id: Option<int>, force: bool, slow: nat -> bool, n: nat,
                   cut: nat)
    requires all != [] && Meant(all[0], kind, id) && (force || kind != Paralyze || !slow(n)) && cut < |all|
    requires CutAt(all[1..], rest, kind, id, force, slow, n + 1, cut)
    ensures CutAt(all, rest, kind, id, force, slow, n, cut + 1)
  {
    CutFurther(all, cut);
    assert Others(all[..cut + 1], kind, id) == Others(all[1..][..cut], kind, id);
  }

  lemma RemoveIsLawful(b: Body, kind: Kind, id: Option<int>, force: bool, slow: nat -> bool)
    requires Valid(b)
    ensures RemoveLaw(b, Removed(b, kind, id, force, slow, 0, 0), kind, id, force, slow)
  {
    hide Removed, CutAt, Balances, Valid, Left;
    RemovedBalances(b, kind, id, force, slow, 0, 0);
    RemovedLeaves(b, kind, id, force, slow, 0, 0);
    var cut := LeftCuts(b.conditions, kind, id, force, slow, 0);
    LeftOfAll(b.conditions, Left(b.conditions, kind, id, force, slow, 0));
  }

  // ----- Adding

  /**
   A condition is added when scripts allow it, haste does not have to wait for a paralysis on the way, and there is one
   with its key, or it starts. Then it takes that one over, or joins; and a haste or paralysis that joins removes an
   active opposite.
   */
  ghost predicate AddLaw(b: Body, r: Body, c: Cond, t: Situation, added: bool)
    requires Valid(b) && Fit(c) && |t.resolved| == MODIFIERS
  {
    var known := exists p :: p in b.conditions && p.key == c.key;
    && (added <==>
          && t.allowed && !(c.key.kind == Haste && !t.force && t.walking && Active(b, Paralyze, t))
          && (known || c.key.kind == Haste || c.key.kind == Paralyze || c.key.kind == Attributes || t.starts))
    && (!added ==> r == b)
    && (added && known ==>
          exists i | 0 <= i < |b.conditions| :: b.conditions[i].key == c.key && TakeOverLaw(b, r, i, c, t))
    && (added && !known ==> exists m :: JoinLaw(b, m, c, t) && OppositeLaw(m, r, c.key.kind, t))
  }

  ghost predicate OppositeLaw(m: Body, r: Body, kind: Kind, t: Situation) {
    if kind == Haste && Active(m, Paralyze, t) then RemoveLaw(m, r, Paralyze, None, false, t.slow)
    else if kind == Paralyze && Active(m, Haste, t) then RemoveLaw(m, r, Haste, None, false, t.slow)
    else r == m
  }

  lemma AddIsLawful(b: Body, c: Cond, t: Situation)
    requires Valid(b) && Fit(c) && |t.resolved| == MODIFIERS
    ensures AddLaw(b, Added(b, c, t), c, t, Comes(b, c, t))
  {
    hide Removed, Shifted, TakenOver, Started, RemoveLaw, TakeOverLaw, JoinLaw, Exchanged, Appended, Valid, Unique;
    AddedCases(b, c, t);
    var i := Find(b.conditions, c.key);
    if i >= 0 {
      assert b.conditions[i] in b.conditions;
      if Comes(b, c, t) {
        TakenOverLawful(b, i, c, t);
      }
    } else if Comes(b, c, t) {
      var m := Appended(b, Started(c, b.player, t));
      JoinIsLawful(b, c, t);
      JoinedIsValid(b, c, t);
      if IsSpeed(c.key.kind) {
        RemoveIsLawful(m, Opposite(c.key.kind), None, false, t.slow);
      }
      assert OppositeLaw(m, Added(b, c, t), c.key.kind, t);
    }
  }

  lemma JoinedIsValid(b: Body, c: Cond, t: Situation)
    requires Valid(b) && Fit(c) && |t.resolved| == MODIFIERS && forall x | x in b.conditions :: x.key != c.key
    ensures Valid(Appended(b, Started(c, b.player, t)))
  {
    hide Appended, Balances;
    AppendedBalances(b, Started(c, b.player, t));
    BalancedIsValid(b, Appended(b, Started(c, b.player, t)));
  }

  // ----- Letting time pass

  /**
   Exactly the conditions that have no end, or whose end is not past, stay, in order; the time they have left falls to
   nothing at most, and nothing else of them changes. No value changes but by what has ended.
   */
  ghost predicate TimeLaw(b: Body, r: Body, interval: nat, now: int) {
    Balances(b, r) && r.conditions == Staying(b.conditions, interval, now)
  }

  function Staying(cs: seq<Cond>, interval: nat, now: int): seq<Cond>
  {
    if cs == [] then []
    else
      var c := cs[0];
      var rest := Staying(cs[1..], interval, now);
      if c.ticks == -1 then [c] + rest
      else if c.endTime < now then rest
      else [c.(ticks := if c.ticks > interval then c.ticks - interval else 0)] + rest
  }

  lemma {:induction false} SurvivorsStay(cs: seq<Cond>, interval: nat, now: int)
    ensures Survivors(cs, interval, now) == Staying(cs, interval, now)
  {
    if cs != [] {
      SurvivorsStay(cs[1..], interval, now);
      assert [] + Survivors(cs[1..], interval, now) == Survivors(cs[1..], interval, now);
    }
  }

  lemma TimeIsLawful(b: Body, interval: nat, now: int)
    requires Valid(b)
    ensures TimeLaw(b, Executed(b, interval, now, 0), interval, now)
  {
    hide Executed, Survivors, Staying, Balances, Valid;
    ExecutedBalances(b, interval, now, 0);
    ExecutedKeeps(b, interval, now, 0);
    SurvivorsStay(b.conditions, interval, now);
    assert b.conditions[0..] == b.conditions && b.conditions[..0] == [];
    assert [] + Survivors(b.conditions, interval, now) == Survivors(b.conditions, interval, now);
  }
}
