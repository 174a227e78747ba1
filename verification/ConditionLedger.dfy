/**
 The conditions of a creature as objects; each operation does on them what `ConditionBooks` says about their values.
 */
module ConditionLedgers {
  import opened Options
  import opened ConditionBooks
  import opened ConditionLaws

  /** The end of time, of 64 bits. */
  const LAST_TIME := 0x7FFF_FFFF_FFFF_FFFF

  class Condition {
    const key: Key
    var ticks: int
    var endTime: int
    var speedDelta: int
    var modifiers: seq<int>
    var percents: seq<int>

    constructor (key: Key, ticks: int, speedDelta: int, modifiers: seq<int>, percents: seq<int>)
      ensures Record() == Cond(key, ticks, if ticks == -1 then LAST_TIME else 0, speedDelta, modifiers, percents)
    {
      this.key, this.ticks, this.speedDelta, this.modifiers, this.percents :=
          key, ticks, speedDelta, modifiers, percents;
      endTime := if ticks == -1 then LAST_TIME else 0;
    }

    ghost function Record(): Cond
      reads this
    {
      Cond(key, ticks, endTime, speedDelta, modifiers, percents)
    }

    method SetTicks(newTicks: int, now: int)
      modifies this`ticks, this`endTime
      ensures Record() == old(Record()).(ticks := newTicks, endTime := newTicks + now)
    {
      ticks := newTicks;
      endTime := ticks + now;
    }

    method Execute(interval: nat, now: int) returns (goes: bool)
      modifies this`ticks
      ensures Record() == Ticked(old(Record()), interval) && goes == Goes(old(Record()), now)
    {
      if ticks == -1 {
        return true;
      }
      ticks := if ticks < interval then 0 else ticks - interval;
      return endTime >= now;
    }

    /** Modifiers given as percentages are worked out anew; the formula's results are handed in. */
    method UpdatePercents(resolved: seq<int>)
      requires |modifiers| == |percents| == |resolved|
      modifies this`modifiers
      ensures modifiers == WorkedOut(old(modifiers), percents, resolved)
    {
      for i := 0 to |modifiers|
        invariant |modifiers| == |old(modifiers)|
        invariant forall j | 0 <= j < |modifiers| ::
            modifiers[j] == if j < i && percents[j] != 0 then resolved[j] else old(modifiers)[j]
      {
        if percents[i] != 0 {
          modifiers := modifiers[i := resolved[i]];
        }
      }
    }

    /** Whether a condition of the same type may take over. */
    method UpdateCondition(other: Condition, now: int) returns (can: bool)
      ensures can == Yields(Record(), other.Record(), now)
    {
      if key.kind != other.key.kind {
        return false;
      }
      if ticks == -1 && other.ticks > 0 {
        return false;
      }
      if other.ticks >= 0 && endTime > now + other.ticks {
        return false;
      }
      return true;
    }
  }

  ghost function Records(cs: seq<Condition>): (rs: seq<Cond>)
    reads cs
    ensures |rs| == |cs| && forall i | 0 <= i < |cs| :: rs[i] == cs[i].Record()
  {
    seq(|cs|, i requires 0 <= i < |cs| reads cs => cs[i].Record())
  }

  /** Conditions with different keys are different objects. */
  lemma KeysTellApart(cs: seq<Condition>, i: nat)
    requires Unique(Records(cs)) && i < |cs|
    ensures forall j | 0 <= j < |cs| && j != i :: cs[j] != cs[i]
  {
    forall j | 0 <= j < |cs| && j != i ensures cs[j] != cs[i] {
      assert Records(cs)[j].key != Records(cs)[i].key;
    }
  }

  class Creature {
    const isPlayer: bool
    const baseSpeed: int
    var varSpeed: int
    var varModifiers: seq<int>
    var conditions: seq<Condition>

    constructor (isPlayer: bool, baseSpeed: int)
      ensures State() == Newborn(isPlayer)
    {
      this.isPlayer, this.baseSpeed := isPlayer, baseSpeed;
      varSpeed, varModifiers, conditions := 0, seq(MODIFIERS, i => 0), [];
    }

    ghost function State(): (b: Body)
      reads this, conditions
    {
      Body(isPlayer, varSpeed, varModifiers, Records(conditions))
    }

    /** The creature without its list of conditions. */
    ghost function Values(): Body
      reads this`varSpeed, this`varModifiers
    {
      Body(isPlayer, varSpeed, varModifiers, [])
    }

    function GetSpeed(): int
      reads this
    {
      baseSpeed + varSpeed
    }

    method ChangeSpeed(delta: int)
      modifies this`varSpeed
      ensures varSpeed == old(varSpeed) + delta
    {
      var v := GetSpeed() - baseSpeed;
      v := v + delta;
      varSpeed := v;
    }

    /** Adds or takes back the modifiers of a condition, those that are not zero. */
    method AddModifiers(m: seq<int>, sign: int)
      requires |m| == |varModifiers|
      modifies this`varModifiers
      ensures |varModifiers| == |m| && forall i | 0 <= i < |m| :: varModifiers[i] == old(varModifiers)[i] + sign * m[i]
    {
      for i := 0 to |m|
        invariant |varModifiers| == |m|
        invariant forall j | 0 <= j < |m| :: varModifiers[j] == old(varModifiers)[j] + if j < i then sign * m[j] else 0
      {
        if m[i] != 0 {
          varModifiers := varModifiers[i := varModifiers[i] + sign * m[i]];
        }
      }
    }

    /** Starts a condition: speed conditions without a change draw one, the rest is worked out and added. */
    method Start(c: Condition, t: Situation)
      requires |varModifiers| == MODIFIERS && Fit(c.Record()) && |t.resolved| == MODIFIERS
      modifies this`varSpeed, this`varModifiers, c`endTime, c`speedDelta, c`modifiers
      ensures c.Record() == Started(old(c.Record()), isPlayer, t)
      ensures Values() == Shifted(old(Values()), c.Record(), 1)
    {
      if c.ticks > 0 {
        c.endTime := c.ticks + t.now;
      }
      if IsSpeed(c.key.kind) {
        if c.speedDelta == 0 {
          c.speedDelta := t.roll;
        }
        ChangeSpeed(c.speedDelta);
      } else if c.key.kind == Attributes && isPlayer {
        c.UpdatePercents(t.resolved);
        AddModifiers(c.modifiers, 1);
      }
      assert varModifiers == Shifted(old(Values()), c.Record(), 1).varModifiers;
    }

    /** Takes back what a condition has added. */
    method End(c: Condition)
      requires |varModifiers| == MODIFIERS && Fit(c.Record())
      modifies this`varSpeed, this`varModifiers
      ensures Values() == Shifted(old(Values()), c.Record(), -1)
    {
      if IsSpeed(c.key.kind) {
        ChangeSpeed(0 - c.speedDelta);
      } else if c.key.kind == Attributes && isPlayer {
        AddModifiers(c.modifiers, -1);
      }
      assert varModifiers == Shifted(old(Values()), c.Record(), -1).varModifiers;
    }

    /** Takes the condition at a position out of the list and takes back what it added. */
    method Drop(i: nat)
      requires Valid(State()) && i < |conditions|
      modifies this`varSpeed, this`varModifiers, this`conditions
      ensures State() == Dropped(old(State()), i) && Valid(State())
      ensures conditions == old(conditions)[..i] + old(conditions)[i + 1..]
    {
      ghost var b := State();
      var c := conditions[i];
      assert Records(conditions)[i] in Records(conditions);
      conditions := conditions[..i] + conditions[i + 1..];
      End(c);
      assert Records(conditions) == b.conditions[..i] + b.conditions[i + 1..];
      SameShift(b, Body(b.player, b.varSpeed, b.varModifiers, []), c.Record(), -1);
      DroppedBalances(b, i);
    }

    /**
     Removes the conditions of a type, or those with one id. Taking a paralysis off can be put off while the creature
     is on its way, as `slow` says for the first, second and so on; then the rest stays.
     */
    method RemoveConditions(kind: Kind, id: Option<int>, force: bool, slow: nat -> bool)
      requires Valid(State())
      modifies this`varSpeed, this`varModifiers, this`conditions
      ensures State() == Removed(old(State()), kind, id, force, slow, 0, 0) && Valid(State())
      ensures RemoveLaw(old(State()), State(), kind, id, force, slow)
    {
      hide Valid, Dropped, RemoveLaw;
      RemoveIsLawful(State(), kind, id, force, slow);
      var it := 0;
      var removed: nat := 0;
      while it < |conditions|
        invariant 0 <= it <= |conditions| && Valid(State())
        invariant Removed(State(), kind, id, force, slow, it, removed)
                  == Removed(old(State()), kind, id, force, slow, 0, 0)
        decreases |conditions| - it
      {
        var c := conditions[it];
        if c.key.kind != kind || (id != None && id != Some(c.key.id)) {
          it := it + 1;
        } else {
          if !force && kind == Paralyze && slow(removed) {
            return;
          }
          Drop(it);
          removed := removed + 1;
        }
      }
    }

    method GetCondition(key: Key) returns (i: int)
      ensures i == Find(State().conditions, key)
    {
      for k := 0 to |conditions|
        invariant forall j | 0 <= j < k :: conditions[j].key != key
      {
        if conditions[k].key == key {
          FirstFound(State().conditions, key, k);
          return k;
        }
      }
      return -1;
    }

    /** Whether a condition of a type, with no sub-id, is still active. */
    method HasCondition(kind: Kind, t: Situation) returns (has: bool)
      ensures has == Has(State().conditions, kind, t)
    {
      if t.suppressed {
        return false;
      }
      ghost var b := State();
      for k := 0 to |conditions|
        invariant forall j | 0 <= j < k ::
            !(b.conditions[j].key.kind == kind && b.conditions[j].key.subId == 0 && Goes(b.conditions[j], t.now))
      {
        var c := conditions[k];
        if c.key.kind == kind && c.key.subId == 0 && (c.endTime >= t.now || c.ticks == -1) {
          assert b.conditions[k] in b.conditions;
          return true;
        }
      }
      return false;
    }

    /** A condition already there takes over what a new one of the same key brings, as its kind decides. */
    method Merge(i: nat, c: Condition, t: Situation)
      requires Valid(State()) && i < |conditions| && Fit(c.Record()) && c !in conditions && |t.resolved| == MODIFIERS
      requires c.key == conditions[i].key
      modifies this`varSpeed, this`varModifiers, conditions[i]
      ensures conditions == old(conditions) && Valid(State())
      ensures State() == Exchanged(old(State()), i, old(TakenOver(conditions[i].Record(), c.Record(), isPlayer, t)))
      ensures TakeOverLaw(old(State()), State(), i, old(c.Record()), t)
    {
      hide TakeOverLaw, Unique, Exchanged, Balances, TakenOver, Effect, Level;
      TakenOverLawful(State(), i, c.Record(), t);
      ghost var b := State();
      var prev := conditions[i];
      assert prev.Record() == b.conditions[i] && b.conditions[i] in b.conditions;
      KeysTellApart(conditions, i);
      TakeOver(prev, c, t);
      assert Records(conditions) == b.conditions[i := prev.Record()];
      SameLevels(b, Body(b.player, b.varSpeed, b.varModifiers, []));
      ExchangeOfValues(b, i, prev.Record(), Values());
      ExchangedBalances(b, i, prev.Record());
      BalancedIsValid(b, Exchanged(b, i, prev.Record()));
    }

    /** The condition itself takes over, and the values move by the difference of what it adds. */
    method TakeOver(prev: Condition, c: Condition, t: Situation)
      requires |varModifiers| == |t.resolved| == MODIFIERS && Fit(prev.Record()) && Fit(c.Record())
      requires prev != c && c.key == prev.key
      modifies this`varSpeed, this`varModifiers, prev
      ensures prev.Record() == old(TakenOver(prev.Record(), c.Record(), isPlayer, t)) && |varModifiers| == MODIFIERS
      ensures prev.Record().key == old(prev.Record().key) && Fit(prev.Record())
      ensures forall slot | 0 <= slot <= MODIFIERS ::
                Level(Values(), slot) == old(Level(Values(), slot)) - old(Effect(prev.Record(), slot, isPlayer))
                                         + Effect(prev.Record(), slot, isPlayer)
    {
      if IsSpeed(c.key.kind) {
        if !(prev.ticks == -1 && c.ticks > 0) {
          MergeSpeed(prev, c, t);
        }
      } else {
        var can := prev.UpdateCondition(c, t.now);
        if can {
          prev.SetTicks(c.ticks, t.now);
          if c.key.kind == Attributes {
            MergeAttributes(prev, c, t);
          }
        }
      }
    }

    method MergeSpeed(prev: Condition, c: Condition, t: Situation)
      requires prev != c && IsSpeed(prev.key.kind) && c.key == prev.key
      modifies this`varSpeed, prev`ticks, prev`endTime, prev`speedDelta
      ensures prev.Record() == old(prev.Record()).(ticks := c.ticks, endTime := c.ticks + t.now,
                                                   speedDelta := if c.speedDelta == 0 then t.roll else c.speedDelta)
      ensures varSpeed - prev.speedDelta == old(varSpeed) - old(prev.speedDelta)
    {
      prev.SetTicks(c.ticks, t.now);
      var oldSpeedDelta := prev.speedDelta;
      prev.speedDelta := c.speedDelta;
      if prev.speedDelta == 0 {
        prev.speedDelta := t.roll;
      }
      var change := prev.speedDelta - oldSpeedDelta;
      if change != 0 {
        ChangeSpeed(change);
      }
    }

    /** Takes back what a condition added, gives it the modifiers of another, and adds those. */
    method MergeAttributes(prev: Condition, c: Condition, t: Situation)
      requires |varModifiers| == MODIFIERS && Fit(prev.Record()) && Fit(c.Record()) && |t.resolved| == MODIFIERS
      requires prev != c && prev.key.kind == Attributes
      modifies this`varSpeed, this`varModifiers, prev`modifiers, prev`percents
      ensures var ms := if isPlayer then WorkedOut(c.modifiers, c.percents, t.resolved) else c.modifiers;
              prev.Record() == old(prev.Record()).(modifiers := ms, percents := c.percents)
      ensures Values() == Shifted(Shifted(old(Values()), old(prev.Record()), -1), prev.Record(), 1)
    {
      End(prev);
      ghost var between := Values();
      prev.modifiers := c.modifiers;
      prev.percents := c.percents;
      if isPlayer {
        prev.UpdatePercents(t.resolved);
        AddModifiers(prev.modifiers, 1);
      }
      assert varModifiers == Shifted(between, prev.Record(), 1).varModifiers;
    }

    /** Starts a condition that is not there yet and puts it last. */
    method Append(c: Condition, t: Situation)
      requires Valid(State()) && Fit(c.Record()) && c !in conditions && |t.resolved| == MODIFIERS
      requires forall x | x in State().conditions :: x.key != c.key
      modifies this`varSpeed, this`varModifiers, this`conditions, c`endTime, c`speedDelta, c`modifiers
      ensures State() == Appended(old(State()), Started(old(c.Record()), isPlayer, t)) && Valid(State())
      ensures conditions == old(conditions) + [c]
    {
      ghost var b := State();
      Start(c, t);
      conditions := conditions + [c];
      assert Records(conditions) == b.conditions + [c.Record()];
      SameShift(b, Body(b.player, b.varSpeed, b.varModifiers, []), c.Record(), 1);
      AppendedBalances(b, c.Record());
    }

    /** Haste ends a paralysis and a paralysis ends haste. */
    method OnAddCondition(kind: Kind, t: Situation)
      requires Valid(State())
      modifies this`varSpeed, this`varModifiers, this`conditions
      ensures State() == Cancelled(old(State()), kind, t) && Valid(State())
    {
      hide Valid, Removed, Has;
      if kind == Paralyze {
        var hasted := HasCondition(Haste, t);
        if hasted {
          RemoveConditions(Haste, None, false, t.slow);
        }
      } else if kind == Haste {
        var paralysed := HasCondition(Paralyze, t);
        if paralysed {
          RemoveConditions(Paralyze, None, false, t.slow);
        }
      }
    }

    method MustWait(c: Condition, t: Situation) returns (waits: bool)
      ensures waits == Waits(State(), c.Record(), t)
    {
      if !t.force && c.key.kind == Haste {
        var paralysed := HasCondition(Paralyze, t);
        return paralysed && t.walking;
      }
      return false;
    }

    /**
     Adds a condition: one with the same key takes it over, otherwise it starts and joins the list, where haste and
     paralysis end each other.
     */
    method AddCondition(c: Condition, t: Situation) returns (added: bool)
      requires Valid(State()) && Fit(c.Record()) && c !in conditions && |t.resolved| == MODIFIERS
      modifies this`varSpeed, this`varModifiers, this`conditions, c, conditions
      ensures added == old(Comes(State(), c.Record(), t))
      ensures State() == Added(old(State()), old(c.Record()), t) && Valid(State())
      ensures AddLaw(old(State()), State(), old(c.Record()), t, added)
    {
      hide AddLaw, Valid, Has, Exchanged, Appended, Cancelled, Started, TakenOver, Added, Comes, Find, Waits, Fit;
      AddIsLawful(State(), c.Record(), t);
      ghost var b, d := State(), c.Record();
      AddedCases(b, d, t);
      if !t.allowed {
        return false;
      }
      var waits := MustWait(c, t);
      if waits {
        return false;
      }
      var i := GetCondition(c.key);
      if i >= 0 {
        Merge(i, c, t);
        return true;
      }
      if !IsSpeed(c.key.kind) && c.key.kind != Attributes && !t.starts {
        return false;
      }
      Append(c, t);
      OnAddCondition(c.key.kind, t);
      return true;
    }

    method FindCondition(c: Condition) returns (i: int)
      ensures -1 <= i < |conditions| && (i >= 0 ==> conditions[i] == c) && (i == -1 ==> c !in conditions)
    {
      for k := 0 to |conditions|
        invariant c !in conditions[..k]
      {
        if conditions[k] == c {
          return k;
        }
      }
      assert conditions[..|conditions|] == conditions;
      return -1;
    }

    /** Lets time pass for one condition, and ends it if its time is over. */
    method ExecuteOne(c: Condition, ghost i: nat, interval: nat, now: int) returns (goes: bool)
      requires Valid(State()) && i < |conditions| && conditions[i] == c
      modifies this`varSpeed, this`varModifiers, this`conditions, c`ticks
      ensures Valid(State()) && goes == Goes(old(c.Record()), now)
      ensures var b := old(State());
              State() == if goes then b.(conditions := b.conditions[i := Ticked(old(c.Record()), interval)])
                         else Dropped(b, i)
      ensures conditions == if goes then old(conditions) else old(conditions)[..i] + old(conditions)[i + 1..]
    {
      ghost var b := State();
      KeysTellApart(conditions, i);
      hide Valid, Dropped, Ticked, Goes, Balances;
      var at := FindCondition(c);
      goes := c.Execute(interval, now);
      TickedBalances(b, i, interval);
      BalancedIsValid(b, b.(conditions := b.conditions[i := Ticked(b.conditions[i], interval)]));
      assert Records(conditions) == b.conditions[i := c.Record()];
      if !goes {
        Drop(at);
        DropTicked(b, i, interval);
      }
    }

    /** Lets time pass for every condition; those whose time is over end, all others stay in order. */
    method ExecuteConditions(interval: nat, now: int)
      requires Valid(State())
      modifies this`varSpeed, this`varModifiers, this`conditions, (set c | c in conditions)`ticks
      ensures State() == Executed(old(State()), interval, now, 0) && Valid(State())
      ensures TimeLaw(old(State()), State(), interval, now)
    {
      hide TimeLaw, Valid, Dropped, Ticked, Goes, Executed;
      TimeIsLawful(State(), interval, now);
      var temp := conditions;
      ghost var at := 0;
      for k := 0 to |temp|
        invariant at <= |conditions| && conditions[at..] == temp[k..] && Valid(State())
        invariant Executed(State(), interval, now, at) == Executed(old(State()), interval, now, 0)
      {
        assert conditions[at] == temp[k..][0];
        ghost var was := conditions;
        ExecutedStep(State(), interval, now, at);
        var goes := ExecuteOne(temp[k], at, interval, now);
        assert was[at + 1..] == temp[k..][1..] == temp[k + 1..];
        at := if goes then at + 1 else at;
      }
      ExecutedEnd(State(), interval, now, at);
    }
  }

  lemma SameLevels(a: Body, b: Body)
    requires a.varSpeed == b.varSpeed && a.varModifiers == b.varModifiers
    ensures forall slot :: Level(a, slot) == Level(b, slot)
  {
  }

  lemma ExecutedStep(b: Body, interval: nat, now: int, i: nat)
    requires i < |b.conditions|
    ensures Executed(b, interval, now, i) ==
            if Goes(b.conditions[i], now)
            then Executed(b.(conditions := b.conditions[i := Ticked(b.conditions[i], interval)]), interval, now, i + 1)
            else Executed(Dropped(b, i), interval, now, i)
  {
  }

  lemma ExecutedEnd(b: Body, interval: nat, now: int, i: nat)
    requires i == |b.conditions|
    ensures Executed(b, interval, now, i) == b
  {
  }

  lemma SameShift(a: Body, b: Body, c: Cond, sign: int)
    requires a.player == b.player && a.varSpeed == b.varSpeed && a.varModifiers == b.varModifiers
    ensures Shifted(a, c, sign).varSpeed == Shifted(b, c, sign).varSpeed
    ensures Shifted(a, c, sign).varModifiers == Shifted(b, c, sign).varModifiers
  {
  }

  lemma DropTicked(b: Body, i: nat, interval: nat)
    requires i < |b.conditions|
    ensures Dropped(b.(conditions := b.conditions[i := Ticked(b.conditions[i], interval)]), i) == Dropped(b, i)
  {
    var r := b.(conditions := b.conditions[i := Ticked(b.conditions[i], interval)]);
    assert r.conditions[..i] + r.conditions[i + 1..] == b.conditions[..i] + b.conditions[i + 1..];
    assert Dropped(r, i).varModifiers == Dropped(b, i).varModifiers;
  }

  lemma {:induction false} FirstFound(cs: seq<Cond>, key: Key, k: nat)
    requires k < |cs| && cs[k].key == key && forall j | 0 <= j < k :: cs[j].key != key
    ensures Find(cs, key) == k
  {
    if k > 0 {
      FirstFound(cs[1..], key, k - 1);
    }
  }

  /** Moving every value by the difference of two effects is taking one back and adding the other. */
  lemma ExchangeOfValues(b: Body, i: nat, c: Cond, v: Body)
    requires i < |b.conditions| && v.player == b.player && |v.varModifiers| == |b.varModifiers|
    requires forall slot | 0 <= slot <= |b.varModifiers| ::
               Level(v, slot) == Level(b, slot) - Effect(b.conditions[i], slot, b.player) + Effect(c, slot, b.player)
    ensures Exchanged(b, i, c) == Body(b.player, v.varSpeed, v.varModifiers, b.conditions[i := c])
  {
  }
}
