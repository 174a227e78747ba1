/**
 The conditions of a creature as values, and the books that must balance: what they add to speed, skills and stats.
 */
module ConditionBooks {
  import opened Options

  datatype Kind = Haste | Paralyze | Attributes | Other(code: nat)

  datatype Key = Key(kind: Kind, id: int, subId: nat)

  /** Skills, special skills and stats that a player has modifiers for. */
  const MODIFIERS := 21

  datatype Cond = Cond(key: Key, ticks: int, endTime: int, speedDelta: int, modifiers: seq<int>, percents: seq<int>)

  /** A creature, as far as its conditions touch it. */
  datatype Body = Body(player: bool, varSpeed: int, varModifiers: seq<int>, conditions: seq<Cond>)

  /**
   What is decided elsewhere when a condition is added: scripts,
   walking, suppression, the clock, random numbers, formulas.
   */
  datatype Situation = Situation(
    force: bool, allowed: bool, walking: bool, starts: bool, suppressed: bool, slow: nat -> bool,
    now: int, roll: int, resolved: seq<int>)

  predicate IsSpeed(k: Kind) {
    k == Haste || k == Paralyze
  }

  function Opposite(k: Kind): Kind {
    if k == Haste then Paralyze else Haste
  }

  predicate Fit(c: Cond) {
    |c.modifiers| == |c.percents| == MODIFIERS
  }

  /** No two conditions have the same type, id and sub-id. */
  ghost predicate Unique(cs: seq<Cond>) {
    forall i, j | 0 <= i < j < |cs| :: cs[i].key != cs[j].key
  }

  ghost predicate Valid(b: Body) {
    |b.varModifiers| == MODIFIERS && Unique(b.conditions) && forall c | c in b.conditions :: Fit(c)
  }

  // ----- What one condition does

  /** What an active condition adds to the speed (slot 0) or to a modifier. */
  function Effect(c: Cond, slot: nat, player: bool): int {
    if slot == 0 then (if IsSpeed(c.key.kind) then c.speedDelta else 0)
    else if player && c.key.kind == Attributes && slot <= |c.modifiers| then c.modifiers[slot - 1]
    else 0
  }

  function Level(b: Body, slot: nat): int {
    if slot == 0 then b.varSpeed else if slot <= |b.varModifiers| then b.varModifiers[slot - 1] else 0
  }

  /** Adds what a condition has, or takes it back. */
  function Shifted(b: Body, c: Cond, sign: int): (r: Body)
    ensures r.conditions == b.conditions && r.player == b.player && |r.varModifiers| == |b.varModifiers|
    ensures forall slot | 0 <= slot <= |b.varModifiers| ::
              Level(r, slot) == Level(b, slot) + sign * Effect(c, slot, b.player)
  {
    var ms := seq(|b.varModifiers|, i requires 0 <= i < |b.varModifiers| =>
                    b.varModifiers[i] + sign * Effect(c, i + 1, b.player));
    b.(varSpeed := b.varSpeed + sign * Effect(c, 0, b.player), varModifiers := ms)
  }

  /** Modifiers given as percentages are worked out anew. */
  function WorkedOut(modifiers: seq<int>, percents: seq<int>, resolved: seq<int>): (ms: seq<int>)
    requires |modifiers| == |percents| == |resolved|
    ensures |ms| == |modifiers|
    ensures forall i | 0 <= i < |ms| :: ms[i] == if percents[i] == 0 then modifiers[i] else resolved[i]
  {
    seq(|modifiers|, i requires 0 <= i < |modifiers| => if percents[i] == 0 then modifiers[i] else resolved[i])
  }

  /** A condition once it has started: a speed condition without a change draws one. */
  function Started(c: Cond, player: bool, t: Situation): Cond
    requires Fit(c) && |t.resolved| == MODIFIERS
  {
    var d := if c.ticks > 0 then c.(endTime := c.ticks + t.now) else c;
    if IsSpeed(c.key.kind) then (if c.speedDelta == 0 then d.(speedDelta := t.roll) else d)
    else if c.key.kind == Attributes && player then d.(modifiers := WorkedOut(c.modifiers, c.percents, t.resolved))
    else d
  }

  /** Whether a condition of the same type may take over. */
  predicate Yields(p: Cond, c: Cond, now: int) {
    && p.key.kind == c.key.kind
    && !(p.ticks == -1 && c.ticks > 0)
    && !(c.ticks >= 0 && p.endTime > now + c.ticks)
  }

  /** An active condition after another of the same key has been added to it. */
  function TakenOver(p: Cond, c: Cond, player: bool, t: Situation): Cond
    requires Fit(p) && Fit(c) && |t.resolved| == MODIFIERS
  {
    var d := p.(ticks := c.ticks, endTime := c.ticks + t.now);
    if IsSpeed(p.key.kind) then
      if p.ticks == -1 && c.ticks > 0 then p else d.(speedDelta := if c.speedDelta == 0 then t.roll else c.speedDelta)
    else if !Yields(p, c, t.now) then p
    else if p.key.kind == Attributes then
      var ms := if player then WorkedOut(c.modifiers, c.percents, t.resolved) else c.modifiers;
      d.(modifiers := ms, percents := c.percents)
    else d
  }

  /** A condition after some time, and whether its time is not over. */
  function Ticked(c: Cond, interval: nat): Cond {
    if c.ticks == -1 then c else c.(ticks := if c.ticks < interval then 0 else c.ticks - interval)
  }

  predicate Goes(c: Cond, now: int) {
    c.ticks == -1 || c.endTime >= now
  }

  // ----- What happens to the list

  function Appended(b: Body, c: Cond): Body {
    var r := Shifted(b, c, 1);
    r.(conditions := b.conditions + [c])
  }

  function Dropped(b: Body, i: nat): Body
    requires i < |b.conditions|
  {
    var r := Shifted(b, b.conditions[i], -1);
    r.(conditions := b.conditions[..i] + b.conditions[i + 1..])
  }

  function Exchanged(b: Body, i: nat, c: Cond): Body
    requires i < |b.conditions|
  {
    var r := Shifted(Shifted(b, b.conditions[i], -1), c, 1);
    r.(conditions := b.conditions[i := c])
  }

  function Find(cs: seq<Cond>, key: Key): (i: int)
    ensures -1 <= i < |cs| && (i >= 0 ==> cs[i].key == key)
    ensures i == -1 <==> forall c | c in cs :: c.key != key
  {
    if cs == [] then -1 else if cs[0].key == key then 0
    else
      var i := Find(cs[1..], key);
      if i < 0 then -1 else i + 1
  }

  /** Whether a condition of a type, with no sub-id, is still active. */
  predicate Has(cs: seq<Cond>, kind: Kind, t: Situation) {
    !t.suppressed && exists c :: c in cs && c.key.kind == kind && c.key.subId == 0 && Goes(c, t.now)
  }

  predicate Hit(c: Cond, kind: Kind, id: Option<int>) {
    c.key.kind == kind && (id == None || id == Some(c.key.id))
  }

  /**
   Removes the conditions of a type, or those with one id, from position `i` on. Taking a paralysis off can be put off
   while the creature is on its way, as `slow` says for the first, second and so on; then the rest stays.
   */
  function Removed(b: Body, kind: Kind, id: Option<int>, force: bool, slow: nat -> bool, i: nat, n: nat): Body
    requires i <= |b.conditions|
    decreases |b.conditions| - i
  {
    if i == |b.conditions| then b
    else if !Hit(b.conditions[i], kind, id) then Removed(b, kind, id, force, slow, i + 1, n)
    else if !force && kind == Paralyze && slow(n) then b
    else Removed(Dropped(b, i), kind, id, force, slow, i, n + 1)
  }

  /** Haste ends a paralysis and a paralysis ends haste. */
  function Cancelled(b: Body, kind: Kind, t: Situation): Body {
    if IsSpeed(kind) && Has(b.conditions, Opposite(kind), t)
    then Removed(b, Opposite(kind), None, false, t.slow, 0, 0) else b
  }

  /** Whether adding is put off: haste for a paralysed creature on its way. */
  predicate Waits(b: Body, c: Cond, t: Situation) {
    !t.force && c.key.kind == Haste && Has(b.conditions, Paralyze, t) && t.walking
  }

  /** Whether a condition comes to the creature: allowed, not put off, and taken over or started. */
  predicate Comes(b: Body, c: Cond, t: Situation) {
    && t.allowed
    && !Waits(b, c, t)
    && (Find(b.conditions, c.key) >= 0 || IsSpeed(c.key.kind) || c.key.kind == Attributes || t.starts)
  }

  function Added(b: Body, c: Cond, t: Situation): Body
    requires Valid(b) && Fit(c) && |t.resolved| == MODIFIERS
  {
    var i := Find(b.conditions, c.key);
    if !Comes(b, c, t) then b
    else if i >= 0 then Exchanged(b, i, TakenOver(b.conditions[i], c, b.player, t))
    else Cancelled(Appended(b, Started(c, b.player, t)), c.key.kind, t)
  }

  /** Lets time pass for the conditions from position `i` on; those whose time is over end. */
  function Executed(b: Body, interval: nat, now: int, i: nat): Body
    requires i <= |b.conditions|
    decreases |b.conditions| - i
  {
    if i == |b.conditions| then b
    else if Goes(b.conditions[i], now)
    then Executed(b.(conditions := b.conditions[i := Ticked(b.conditions[i], interval)]), interval, now, i + 1)
    else Executed(Dropped(b, i), interval, now, i)
  }

  lemma AddedCases(b: Body, c: Cond, t: Situation)
    requires Valid(b) && Fit(c) && |t.resolved| == MODIFIERS
    ensures !t.allowed || Waits(b, c, t) ==> !Comes(b, c, t)
    ensures !Comes(b, c, t) ==> Added(b, c, t) == b
    ensures var i := Find(b.conditions, c.key);
            && -1 <= i < |b.conditions|
            && (i >= 0 && t.allowed && !Waits(b, c, t) ==>
                  && Comes(b, c, t) && Fit(b.conditions[i]) && b.conditions[i].key == c.key
                  && Added(b, c, t) == Exchanged(b, i, TakenOver(b.conditions[i], c, b.player, t)))
            && (i < 0 ==> forall x | x in b.conditions :: x.key != c.key)
            && (i < 0 && t.allowed && !Waits(b, c, t) ==>
                  && (Comes(b, c, t) <==> IsSpeed(c.key.kind) || c.key.kind == Attributes || t.starts)
                  && (Comes(b, c, t) ==>
                        Added(b, c, t) == Cancelled(Appended(b, Started(c, b.player, t)), c.key.kind, t)))
  {
    hide Exchanged, Appended, Cancelled, Started, TakenOver, Waits, Unique;
    var i := Find(b.conditions, c.key);
    assert i >= 0 ==> b.conditions[i] in b.conditions;
  }

  // ----- The books

  function SumOf(cs: seq<Cond>, slot: nat, player: bool): int {
    if cs == [] then 0 else SumOf(cs[..|cs| - 1], slot, player) + Effect(cs[|cs| - 1], slot, player)
  }

  /** What is left of a value when everything the active conditions added is taken away. */
  function Own(b: Body, slot: nat): int {
    Level(b, slot) - SumOf(b.conditions, slot, b.player)
  }

  /** The creature is well-formed, and no slot's own value has changed. */
  ghost predicate Balances(b: Body, r: Body) {
    && Valid(r) && r.player == b.player
    && forall slot | 0 <= slot <= MODIFIERS :: Own(r, slot) == Own(b, slot)
  }

  lemma {:induction false} SumJoin(xs: seq<Cond>, ys: seq<Cond>, slot: nat, player: bool)
    ensures SumOf(xs + ys, slot, player) == SumOf(xs, slot, player) + SumOf(ys, slot, player)
    decreases |ys|
  {
    if ys == [] {
      assert xs + ys == xs;
    } else {
      assert (xs + ys)[..|xs + ys| - 1] == xs + ys[..|ys| - 1];
      SumJoin(xs, ys[..|ys| - 1], slot, player);
    }
  }

  lemma SumSplit(cs: seq<Cond>, i: nat, slot: nat, player: bool)
    requires i < |cs|
    ensures SumOf(cs, slot, player) ==
            SumOf(cs[..i] + cs[i + 1..], slot, player) + Effect(cs[i], slot, player)
  {
    assert cs == cs[..i] + ([cs[i]] + cs[i + 1..]);
    SumJoin(cs[..i], [cs[i]] + cs[i + 1..], slot, player);
    SumJoin([cs[i]], cs[i + 1..], slot, player);
    SumJoin(cs[..i], cs[i + 1..], slot, player);
    assert [cs[i]][..0] == [];
  }

  lemma AppendedBalances(b: Body, c: Cond)
    requires Valid(b) && Fit(c) && forall x | x in b.conditions :: x.key != c.key
    ensures Balances(b, Appended(b, c))
  {
    var r := Appended(b, c);
    assert r.conditions[..|b.conditions|] == b.conditions;
    forall slot | 0 <= slot <= MODIFIERS ensures Own(r, slot) == Own(b, slot) {
      assert Level(r, slot) == Level(Shifted(b, c, 1), slot);
    }
  }

  lemma DroppedBalances(b: Body, i: nat)
    requires Valid(b) && i < |b.conditions|
    ensures Balances(b, Dropped(b, i))
  {
    var r := Dropped(b, i);
    forall slot | 0 <= slot <= MODIFIERS ensures Own(r, slot) == Own(b, slot) {
      SumSplit(b.conditions, i, slot, b.player);
      assert Level(r, slot) == Level(Shifted(b, b.conditions[i], -1), slot);
    }
  }

  lemma ExchangedBalances(b: Body, i: nat, c: Cond)
    requires Valid(b) && i < |b.conditions| && Fit(c) && c.key == b.conditions[i].key
    ensures Balances(b, Exchanged(b, i, c))
  {
    var r := Exchanged(b, i, c);
    assert forall j | 0 <= j < |r.conditions| :: r.conditions[j].key == b.conditions[j].key;
    var s := Shifted(b, b.conditions[i], -1);
    assert r.conditions[..i] + r.conditions[i + 1..] == b.conditions[..i] + b.conditions[i + 1..];
    forall slot | 0 <= slot <= MODIFIERS ensures Own(r, slot) == Own(b, slot) {
      SumSplit(b.conditions, i, slot, b.player);
      SumSplit(r.conditions, i, slot, b.player);
      assert Level(r, slot) == Level(Shifted(s, c, 1), slot);
    }
  }

  lemma BalancesTwice(a: Body, b: Body, c: Body)
    requires Balances(a, b) && Balances(b, c)
    ensures Balances(a, c)
  {
  }

  lemma BalancesSelf(b: Body)
    requires Valid(b)
    ensures Balances(b, b)
  {
  }

  lemma {:induction false} RemovedBalances(b: Body, kind: Kind, id: Option<int>, force: bool, slow: nat -> bool, i: nat,
                                           n: nat)
    requires Valid(b) && i <= |b.conditions|
    ensures Balances(b, Removed(b, kind, id, force, slow, i, n))
    decreases |b.conditions| - i
  {
    hide Balances, Dropped, Hit;
    if i == |b.conditions| {
      BalancesSelf(b);
    } else if !Hit(b.conditions[i], kind, id) {
      RemovedBalances(b, kind, id, force, slow, i + 1, n);
    } else if !force && kind == Paralyze && slow(n) {
      BalancesSelf(b);
    } else {
      DroppedBalances(b, i);
      DroppedIsShorter(b, i);
      BalancedIsValid(b, Dropped(b, i));
      RemovedBalances(Dropped(b, i), kind, id, force, slow, i, n + 1);
      BalancesTwice(b, Dropped(b, i), Removed(Dropped(b, i), kind, id, force, slow, i, n + 1));
    }
  }

  lemma DroppedIsShorter(b: Body, i: nat)
    requires i < |b.conditions|
    ensures |Dropped(b, i).conditions| == |b.conditions| - 1
  {
  }

  lemma BalancedIsValid(b: Body, r: Body)
    requires Balances(b, r)
    ensures Valid(r)
  {
  }

  lemma TickedBalances(b: Body, i: nat, interval: nat)
    requires Valid(b) && i < |b.conditions|
    ensures Balances(b, b.(conditions := b.conditions[i := Ticked(b.conditions[i], interval)]))
  {
    var c := Ticked(b.conditions[i], interval);
    var r := b.(conditions := b.conditions[i := c]);
    assert b.conditions[i] in b.conditions;
    assert Fit(c) && forall slot :: Effect(c, slot, b.player) == Effect(b.conditions[i], slot, b.player);
    hide Ticked, Effect;
    assert Valid(r) by {
      assert forall j | 0 <= j < |r.conditions| :: r.conditions[j].key == b.conditions[j].key;
      assert forall j | 0 <= j < |r.conditions| :: b.conditions[j] in b.conditions && Fit(r.conditions[j]);
    }
    hide Valid;
    assert r.conditions[..i] + r.conditions[i + 1..] == b.conditions[..i] + b.conditions[i + 1..];
    forall slot | 0 <= slot <= MODIFIERS ensures Own(r, slot) == Own(b, slot) {
      SumSplit(b.conditions, i, slot, b.player);
      SumSplit(r.conditions, i, slot, b.player);
    }
  }

  lemma {:induction false} ExecutedBalances(b: Body, interval: nat, now: int, i: nat)
    requires Valid(b) && i <= |b.conditions|
    ensures Balances(b, Executed(b, interval, now, i))
    decreases |b.conditions| - i
  {
    hide Balances, Dropped, Goes, Ticked;
    if i == |b.conditions| {
      BalancesSelf(b);
    } else if Goes(b.conditions[i], now) {
      var r := b.(conditions := b.conditions[i := Ticked(b.conditions[i], interval)]);
      TickedBalances(b, i, interval);
      BalancedIsValid(b, r);
      ExecutedBalances(r, interval, now, i + 1);
      BalancesTwice(b, r, Executed(r, interval, now, i + 1));
    } else {
      DroppedBalances(b, i);
      DroppedIsShorter(b, i);
      BalancedIsValid(b, Dropped(b, i));
      ExecutedBalances(Dropped(b, i), interval, now, i);
      BalancesTwice(b, Dropped(b, i), Executed(Dropped(b, i), interval, now, i));
    }
  }

  /** Adding a condition keeps the books, whether it is refused, taken over, or started and cancels its opposite. */
  lemma AddedBalances(b: Body, c: Cond, t: Situation)
    requires Valid(b) && Fit(c) && |t.resolved| == MODIFIERS
    ensures Balances(b, Added(b, c, t))
  {
    hide Balances, Removed, Appended, Exchanged, Has;
    var i := Find(b.conditions, c.key);
    if !Comes(b, c, t) {
      BalancesSelf(b);
    } else if i >= 0 {
      assert b.conditions[i] in b.conditions;
      ExchangedBalances(b, i, TakenOver(b.conditions[i], c, b.player, t));
    } else {
      var d := Started(c, b.player, t);
      var r := Appended(b, d);
      AppendedBalances(b, d);
      BalancedIsValid(b, r);
      var kind := c.key.kind;
      if IsSpeed(kind) && Has(r.conditions, Opposite(kind), t) {
        RemovedBalances(r, Opposite(kind), None, false, t.slow, 0, 0);
        BalancesTwice(b, r, Cancelled(r, kind, t));
      }
    }
  }

  // ----- Whole runs

  datatype Request =
    | Add(condition: Cond, situation: Situation)
    | Remove(kind: Kind, id: Option<int>, force: bool, slow: nat -> bool)
    | Execute(interval: nat, now: int)

  predicate Proper(r: Request) {
    r.Add? ==> Fit(r.condition) && |r.situation.resolved| == MODIFIERS
  }

  function Handle(b: Body, r: Request): Body
    requires Valid(b) && Proper(r)
  {
    match r
    case Add(c, t) => Added(b, c, t)
    case Remove(kind, id, force, slow) => Removed(b, kind, id, force, slow, 0, 0)
    case Execute(interval, now) => Executed(b, interval, now, 0)
  }

  lemma HandleBalances(b: Body, r: Request)
    requires Valid(b) && Proper(r)
    ensures Balances(b, Handle(b, r)) && Valid(Handle(b, r))
  {
    hide Balances, Added, Removed, Executed;
    match r {
      case Add(c, t) => AddedBalances(b, c, t);
      case Remove(kind, id, force, slow) => RemovedBalances(b, kind, id, force, slow, 0, 0);
      case Execute(interval, now) => ExecutedBalances(b, interval, now, 0);
    }
    BalancedIsValid(b, Handle(b, r));
  }

  ghost function Run(b: Body, rs: seq<Request>): Body
    requires Valid(b) && forall r | r in rs :: Proper(r)
    decreases |rs|
  {
    if rs == [] then b
    else
      HandleBalances(b, rs[0]);
      Run(Handle(b, rs[0]), rs[1..])
  }

  /** Over any run of adding, removing and executing, keys stay unique and no slot's own value changes. */
  lemma {:induction false} RunBalances(b: Body, rs: seq<Request>)
    requires Valid(b) && forall r | r in rs :: Proper(r)
    ensures Balances(b, Run(b, rs))
    decreases |rs|
  {
    hide Balances, Handle, Valid, Proper;
    if rs == [] {
      BalancesSelf(b);
    } else {
      HandleBalances(b, rs[0]);
      RunBalances(Handle(b, rs[0]), rs[1..]);
      BalancesTwice(b, Handle(b, rs[0]), Run(Handle(b, rs[0]), rs[1..]));
    }
  }

  function Newborn(player: bool): Body {
    Body(player, 0, seq(MODIFIERS, i => 0), [])
  }

  /**
   From a creature without conditions on, every value is at all times the sum of what the active conditions add to it.
   */
  lemma LevelsAreSums(player: bool, rs: seq<Request>, slot: nat)
    requires (forall r | r in rs :: Proper(r)) && slot <= MODIFIERS
    ensures Valid(Newborn(player))
    ensures var b := Run(Newborn(player), rs);
            Unique(b.conditions) && Level(b, slot) == SumOf(b.conditions, slot, player)
  {
    RunBalances(Newborn(player), rs);
    hide Run, SumOf;
    assert Own(Newborn(player), slot) == 0 - SumOf([], slot, player);
    EmptySum(slot, player);
  }

  lemma EmptySum(slot: nat, player: bool)
    ensures SumOf([], slot, player) == 0
  {
  }

  // ----- What is left of the list

  /** What a removal that nothing puts off leaves of a list. */
  function Spared(cs: seq<Cond>, kind: Kind, id: Option<int>): seq<Cond> {
    if cs == [] then [] else (if Hit(cs[0], kind, id) then [] else [cs[0]]) + Spared(cs[1..], kind, id)
  }

  /** A removal that nothing puts off takes every condition it is meant for and no other, and keeps the order. */
  lemma {:induction false} RemovedSpares(b: Body, kind: Kind, id: Option<int>, force: bool, slow: nat -> bool, i: nat,
                                         n: nat)
    requires i <= |b.conditions| && (force || kind != Paralyze || forall k :: !slow(k))
    ensures Removed(b, kind, id, force, slow, i, n).conditions
            == b.conditions[..i] + Spared(b.conditions[i..], kind, id)
    decreases |b.conditions| - i
  {
    hide Hit, Dropped, Spared;
    var cs := b.conditions;
    if i < |cs| {
      SparedStep(cs, kind, id, i);
      if Hit(cs[i], kind, id) {
        DroppedParts(b, i);
        RemovedSpares(Dropped(b, i), kind, id, force, slow, i, n + 1);
      } else {
        RemovedSpares(b, kind, id, force, slow, i + 1, n);
      }
    } else {
      SparedEnd(cs, kind, id);
    }
  }

  lemma SparedEnd(cs: seq<Cond>, kind: Kind, id: Option<int>)
    ensures cs[..|cs|] + Spared(cs[|cs|..], kind, id) == cs
  {
  }

  lemma SparedStep(cs: seq<Cond>, kind: Kind, id: Option<int>, i: nat)
    requires i < |cs|
    ensures Hit(cs[i], kind, id) ==> Spared(cs[i..], kind, id) == Spared(cs[i + 1..], kind, id)
    ensures !Hit(cs[i], kind, id) ==>
              cs[..i] + Spared(cs[i..], kind, id) == cs[..i + 1] + Spared(cs[i + 1..], kind, id)
  {
    hide Hit;
    assert cs[i..][0] == cs[i] && cs[i..][1..] == cs[i + 1..];
  }

  lemma DroppedParts(b: Body, i: nat)
    requires i < |b.conditions|
    ensures var d := Dropped(b, i);
            |d.conditions| == |b.conditions| - 1 && d.conditions[..i] == b.conditions[..i]
            && d.conditions[i..] == b.conditions[i + 1..]
  {
  }

  lemma {:induction false} SparedIsFilter(cs: seq<Cond>, kind: Kind, id: Option<int>, c: Cond)
    ensures c in Spared(cs, kind, id) <==> c in cs && !Hit(c, kind, id)
  {
    if cs != [] {
      SparedIsFilter(cs[1..], kind, id, c);
    }
  }

  /** A creature that is hasted while paralysed, or the other way round, has no condition of the opposite kind left. */
  lemma OppositeIsGone(b: Body, c: Cond, t: Situation, x: Cond)
    requires Valid(b) && Fit(c) && |t.resolved| == MODIFIERS && Comes(b, c, t) && IsSpeed(c.key.kind)
    requires Find(b.conditions, c.key) == -1 && Has(b.conditions, Opposite(c.key.kind), t) && forall k :: !t.slow(k)
    ensures x in Added(b, c, t).conditions ==> x.key.kind != Opposite(c.key.kind)
  {
    var kind := Opposite(c.key.kind);
    var d := Appended(b, Started(c, b.player, t));
    assert forall y | y in b.conditions :: y in d.conditions;
    hide Appended, Started, Comes;
    RemovedSpares(d, kind, None, false, t.slow, 0, 0);
    SparedIsFilter(d.conditions, kind, None, x);
    assert d.conditions[..0] + Spared(d.conditions[0..], kind, None) == Spared(d.conditions, kind, None);
  }

  /** The conditions whose time is not over, with their ticks taken down. */
  function Survivors(cs: seq<Cond>, interval: nat, now: int): seq<Cond> {
    if cs == [] then []
    else (if Goes(cs[0], now) then [Ticked(cs[0], interval)] else []) + Survivors(cs[1..], interval, now)
  }

  /** Letting time pass ends exactly the conditions whose time is over and keeps the order of the others. */
  lemma {:induction false} ExecutedKeeps(b: Body, interval: nat, now: int, i: nat)
    requires i <= |b.conditions|
    ensures Executed(b, interval, now, i).conditions == b.conditions[..i] + Survivors(b.conditions[i..], interval, now)
    decreases |b.conditions| - i
  {
    hide Goes, Ticked, Shifted;
    var cs := b.conditions;
    if i < |cs| {
      assert cs[i..][0] == cs[i] && cs[i..][1..] == cs[i + 1..];
      var rest := Survivors(cs[i + 1..], interval, now);
      if Goes(cs[i], now) {
        var c := Ticked(cs[i], interval);
        var d := b.(conditions := cs[i := c]);
        assert d.conditions[..i + 1] == cs[..i] + [c] && d.conditions[i + 1..] == cs[i + 1..];
        ExecutedKeeps(d, interval, now, i + 1);
        assert cs[..i] + [c] + rest == cs[..i] + ([c] + rest);
      } else {
        var d := Dropped(b, i);
        assert d.conditions[..i] == cs[..i] && d.conditions[i..] == cs[i + 1..];
        ExecutedKeeps(d, interval, now, i);
        assert [] + rest == rest;
      }
    } else {
      assert cs[i..] == [] && cs[..i] == cs && cs + [] == cs;
    }
  }
}
