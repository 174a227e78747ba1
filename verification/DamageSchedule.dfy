/**
 Damage over time: a queue of rounds, worked off once a second until the condition ends, or the same again and again.
 */
module DamageSchedules {

  const THINK_INTERVAL := 1000

  datatype Round = Round(timeLeft: int, value: int, interval: int)

  /** Damage dealt again and again, when it is not zero. */
  datatype Period = Period(damage: int, tick: int, interval: int)

  const NO_PERIOD := Period(0, 0, 2000)

  datatype Schedule = Schedule(ticks: int, endTime: int, rounds: seq<Round>, period: Period, delivered: seq<int>)

  // ----- One think

  /**
   What the creature stands in: no field that matters to the condition, one of its own kind, or one of another kind.
   */
  datatype Ground = Clear | SameField | OtherField

  /** Whether a round that is over is taken off the queue. */
  predicate Removes(ticks: int, ground: Ground) {
    match ground
    case Clear => ticks != -1
    case SameField => false
    case OtherField => true
  }

  /** What a think does. */
  function Executed(s: Schedule, interval: nat, ground: Ground): Schedule {
    if s.period.damage != 0 then Waited(Repeats(s, interval), interval)
    else if s.rounds == [] then Waited(s, interval)
    else
      var remove := Removes(s.ticks, ground);
      var t := WorkedOff(s, interval, remove);
      if remove then Waited(t, interval)
      else Waited(if t.ticks > 0 then t.(endTime := t.endTime + interval) else t, 0)
  }

  /** The time passes for the first round; when it is over its value is dealt. */
  function WorkedOff(s: Schedule, interval: nat, remove: bool): Schedule
    requires s.rounds != []
  {
    var front := s.rounds[0].(timeLeft := s.rounds[0].timeLeft - interval);
    if front.timeLeft > 0 then s.(rounds := [front] + s.rounds[1..])
    else if remove then s.(rounds := s.rounds[1..], delivered := s.delivered + [front.value])
    else s.(rounds := [front.(timeLeft := front.interval)] + s.rounds[1..], delivered := s.delivered + [front.value])
  }

  function Repeats(s: Schedule, interval: nat): Schedule {
    var tick := s.period.tick + interval;
    if tick < s.period.interval then s.(period := s.period.(tick := tick))
    else s.(period := s.period.(tick := 0), delivered := s.delivered + [s.period.damage])
  }

  function Waited(s: Schedule, interval: nat): Schedule {
    if s.ticks == -1 then s else s.(ticks := if s.ticks < interval then 0 else s.ticks - interval)
  }

  /**
   What a think does, told from the fields alone. Damage that repeats comes when its interval is over and starts anew.
   Of the rounds only the first moves: when its time is over its value is dealt, and it leaves the queue, unless the
   condition has no end or the creature stands in a field of the same kind: then it starts anew, and the end of the
   condition moves on. A field of another kind always lets it go.
   */
  ghost predicate ThinkLaw(s: Schedule, r: Schedule, interval: nat, ground: Ground) {
    var tick := s.period.tick + interval;
    var leaves := ground == OtherField || (ground == Clear && s.ticks != -1);
    var works := s.period.damage == 0 && s.rounds != [];
    && (s.period.damage != 0 ==>
          && r.rounds == s.rounds && r.endTime == s.endTime
          && r.period.damage == s.period.damage && r.period.interval == s.period.interval
          && r.period.tick == (if tick >= s.period.interval then 0 else tick)
          && r.delivered == s.delivered + (if tick >= s.period.interval then [s.period.damage] else []))
    && (s.period.damage == 0 ==> r.period == s.period)
    && (s.period.damage == 0 && s.rounds == [] ==>
          r.rounds == [] && r.endTime == s.endTime && r.delivered == s.delivered)
    && (works ==>
          var first, rest := s.rounds[0], s.rounds[1..];
          && (first.timeLeft > interval ==>
                && r.delivered == s.delivered
                && r.rounds == [Round(first.timeLeft - interval, first.value, first.interval)] + rest)
          && (first.timeLeft <= interval ==>
                && r.delivered == s.delivered + [first.value]
                && r.rounds == if leaves then rest else [Round(first.interval, first.value, first.interval)] + rest)
          && r.endTime == s.endTime + if !leaves && s.ticks > 0 then interval else 0)
    && (s.ticks >= -1 ==>
          r.ticks == if s.ticks == -1 || (works && !leaves) then s.ticks
                     else if s.ticks > interval then s.ticks - interval else 0)
  }

  lemma ThinkIsLawful(s: Schedule, interval: nat, ground: Ground)
    ensures ThinkLaw(s, Executed(s, interval, ground), interval, ground)
  {
    assert s.delivered + [] == s.delivered;
  }

  predicate Goes(s: Schedule, now: int) {
    s.ticks == -1 || s.endTime >= now
  }

  class ConditionDamage {
    var ticks: int
    var endTime: int
    var damageList: seq<Round>
    var periodDamage: int
    var periodDamageTick: int
    var tickInterval: int
    ghost var delivered: seq<int>

    constructor ()
      ensures State() == Schedule(0, 0, [], NO_PERIOD, [])
    {
      ticks, endTime, damageList, delivered := 0, 0, [], [];
      periodDamage, periodDamageTick, tickInterval := 0, 0, 2000;
    }

    ghost function State(): Schedule
      reads this
    {
      Schedule(ticks, endTime, damageList, Period(periodDamage, periodDamageTick, tickInterval), delivered)
    }

    method SetTicks(newTicks: int, now: int)
      modifies this`ticks, this`endTime
      ensures ticks == newTicks && endTime == newTicks + now
    {
      ticks := newTicks;
      endTime := ticks + now;
    }

    /**
     Queues rounds of the same value, or with -1 rounds starts to repeat the value without end. Nothing comes faster
     than the thinks do. The refusal for a condition that repeats is there for positive values only.
     */
    method AddDamage(rounds: int, time: int, value: int, now: int) returns (ok: bool)
      requires ticks >= -1
      modifies this`ticks, this`endTime, this`damageList, this`periodDamage, this`tickInterval
      ensures ok <==> rounds == -1 || old(periodDamage) <= 0
      ensures State() == AfterAdding(old(State()), rounds, if time < THINK_INTERVAL then THINK_INTERVAL
                                     else time, value, now)
      ensures rounds == -1 ==>
                && ticks == -1 && periodDamage == value && tickInterval == (if time < 1000 then 1000 else time)
                && damageList == old(damageList)
      ensures rounds != -1 && ok ==>
                var t, n := if time < 1000 then 1000 else time, if rounds < 0 then 0 else rounds;
                && periodDamage == old(periodDamage) && |damageList| == |old(damageList)| + n
                && damageList[..|old(damageList)|] == old(damageList)
                && (forall i | |old(damageList)| <= i < |damageList| :: damageList[i] == Round(t, value, t))
                && ticks == (if old(ticks) == -1 then -1 else old(ticks) + n * t)
                && (n > 0 && ticks != -1 ==> endTime == ticks + now)
    {
      var t := if time < THINK_INTERVAL then THINK_INTERVAL else time;
      if rounds == -1 {
        periodDamage := value;
        tickInterval := t;
        ticks := -1;
        return true;
      }
      if periodDamage > 0 {
        return false;
      }
      var i := 0;
      while i < rounds
        invariant 0 <= i && (rounds > 0 ==> i <= rounds) && (rounds <= 0 ==> i == 0)
        invariant State() == Queued(old(State()), i, t, value, now)
      {
        damageList := damageList + [Round(t, value, t)];
        MoreRounds(i, t);
        if ticks != -1 {
          SetTicks(ticks + t, now);
        }
        i := i + 1;
      }
      return true;
    }

    method StartCondition(now: int)
      modifies this`endTime
      ensures State() == old(State()).(endTime := if old(ticks) > 0 then old(ticks) + now else old(endTime))
    {
      if ticks > 0 {
        endTime := ticks + now;
      }
    }

    method WorkOff(interval: nat, remove: bool)
      requires damageList != []
      modifies this`damageList, this`delivered
      ensures State() == WorkedOff(old(State()), interval, remove)
    {
      var front := damageList[0].(timeLeft := damageList[0].timeLeft - interval);
      damageList := damageList[0 := front];
      if front.timeLeft <= 0 {
        if remove {
          damageList := damageList[1..];
        } else {
          damageList := damageList[0 := front.(timeLeft := front.interval)];
        }
        delivered := delivered + [front.value];
      }
    }

    method Wait(interval: nat, now: int) returns (goes: bool)
      modifies this`ticks
      ensures State() == Waited(old(State()), interval) && goes == Goes(State(), now)
    {
      if ticks == -1 {
        return true;
      }
      ticks := if ticks < interval then 0 else ticks - interval;
      goes := endTime >= now;
    }

    /** One think: the repeated damage, or the first round, and then the time of the condition itself. */
    method ExecuteCondition(interval: nat, now: int, ground: Ground) returns (goes: bool)
      modifies this
      ensures State() == Executed(old(State()), interval, ground) && goes == Goes(State(), now)
      ensures ThinkLaw(old(State()), State(), interval, ground) && (goes <==> ticks == -1 || endTime >= now)
    {
      hide WorkedOff, ThinkLaw;
      ThinkIsLawful(State(), interval, ground);
      var wait := interval;
      if periodDamage != 0 {
        periodDamageTick := periodDamageTick + interval;
        if periodDamageTick >= tickInterval {
          periodDamageTick := 0;
          delivered := delivered + [periodDamage];
        }
      } else if damageList != [] {
        var remove := ticks != -1;
        match ground {
          case Clear =>
          case SameField => remove := false;
          case OtherField => remove := true;
        }
        WorkOff(interval, remove);
        if !remove {
          if ticks > 0 {
            endTime := endTime + interval;
          }
          wait := 0;
        }
      }
      goes := Wait(wait, now);
    }
  }

  /** A condition to which `n` rounds have been added. */
  function Queued(s: Schedule, n: nat, time: nat, value: int, now: int): Schedule {
    var r := s.(rounds := s.rounds + Repeated(Round(time, value, time), n));
    if s.ticks == -1 || n == 0 then r else r.(ticks := s.ticks + n * time, endTime := s.ticks + n * time + now)
  }

  function AfterAdding(s: Schedule, rounds: int, time: nat, value: int, now: int): Schedule {
    if rounds == -1 then s.(ticks := -1, period := s.period.(damage := value, interval := time))
    else if rounds < 0 || s.period.damage > 0 then s
    else Queued(s, rounds, time, value, now)
  }

  function Repeated(r: Round, n: nat): (rs: seq<Round>)
    ensures |rs| == n && forall i | 0 <= i < n :: rs[i] == r
  {
    seq(n, i => r)
  }

  lemma MoreRounds(i: nat, t: int)
    ensures (i + 1) * t == i * t + t
  {
  }

  // ----- A run of thinks, one a second, with no field underfoot

  /** The state after `k` thinks. */
  function After(s: Schedule, k: nat): Schedule
    decreases k
  {
    if k == 0 then s else After(Executed(s, THINK_INTERVAL, Clear), k - 1)
  }

  /** The thinks that a round takes. */
  function Thinks(r: Round): int {
    (r.timeLeft + THINK_INTERVAL - 1) / THINK_INTERVAL
  }

  function TotalThinks(rs: seq<Round>): int {
    if rs == [] then 0 else Thinks(rs[0]) + TotalThinks(rs[1..])
  }

  function TotalTime(rs: seq<Round>): int {
    if rs == [] then 0 else rs[0].timeLeft + TotalTime(rs[1..])
  }

  function Values(rs: seq<Round>): (vs: seq<int>)
    ensures |vs| == |rs| && forall i | 0 <= i < |rs| :: vs[i] == rs[i].value
  {
    seq(|rs|, i requires 0 <= i < |rs| => rs[i].value)
  }

  predicate Positive(rs: seq<Round>) {
    forall r | r in rs :: r.timeLeft > 0
  }

  /** How many rounds are over after `k` thinks: as many as those thinks can pay for. */
  function Delivered(rs: seq<Round>, k: nat): (n: nat)
    ensures n <= |rs|
  {
    if rs == [] || Thinks(rs[0]) > k || Thinks(rs[0]) < 0 then 0 else 1 + Delivered(rs[1..], k - Thinks(rs[0]))
  }

  lemma {:induction false} DeliveredIs(rs: seq<Round>, k: nat)
    requires Positive(rs)
    ensures var n := Delivered(rs, k);
            && n <= |rs| && TotalThinks(rs[..n]) <= k && (n < |rs| ==> TotalThinks(rs[..n + 1]) > k)
            && (n == |rs| <==> TotalThinks(rs) <= k)
    decreases |rs|
  {
    var n := Delivered(rs, k);
    if rs != [] {
      assert rs[0] in rs;
      NonNegativeThinks(rs[1..]);
      if Thinks(rs[0]) <= k {
        DeliveredIs(rs[1..], k - Thinks(rs[0]));
        assert rs[..n][0] == rs[0] && rs[..n][1..] == rs[1..][..n - 1];
        if n < |rs| {
          assert rs[..n + 1][0] == rs[0] && rs[..n + 1][1..] == rs[1..][..n];
        }
      } else {
        assert rs[..1] == [rs[0]] && [rs[0]][1..] == [];
      }
    }
  }

  lemma {:induction false} NonNegativeThinks(rs: seq<Round>)
    requires Positive(rs)
    ensures TotalThinks(rs) >= 0
  {
    if rs != [] {
      assert rs[0] in rs;
      NonNegativeThinks(rs[1..]);
    }
  }

  /** After any number of thinks the values delivered are those of the rounds that are over, each once and in order. */
  lemma {:induction false} ThinksDeliver(s: Schedule, k: nat)
    requires Positive(s.rounds) && s.ticks != -1 && s.period.damage == 0
    ensures var t := After(s, k);
            && t.delivered == s.delivered + Values(s.rounds)[..Delivered(s.rounds, k)]
            && |t.rounds| == |s.rounds| - Delivered(s.rounds, k) && t.endTime == s.endTime && t.ticks != -1
    decreases k
  {
    hide Executed, Values, Delivered, Thinks;
    if k > 0 {
      var u := Executed(s, THINK_INTERVAL, Clear);
      OneThink(s, k);
      ThinksDeliver(u, k - 1);
      Appended(s.delivered, u.delivered[|s.delivered|..], Values(u.rounds)[..Delivered(u.rounds, k - 1)]);
    } else {
      NoThinks(s.rounds);
      assert s.delivered + [] == s.delivered;
    }
  }

  lemma Appended(a: seq<int>, b: seq<int>, c: seq<int>)
    ensures a + b + c == a + (b + c)
  {
  }

  lemma NoThinks(rs: seq<Round>)
    requires Positive(rs)
    ensures Delivered(rs, 0) == 0 && Values(rs)[..0] == []
  {
    if rs != [] {
      assert rs[0] in rs;
    }
  }

  /** One think works on the first round: it delivers that round, or brings it one think closer. */
  lemma OneThink(s: Schedule, k: nat)
    requires Positive(s.rounds) && s.ticks != -1 && s.period.damage == 0 && k > 0
    ensures var u := Executed(s, THINK_INTERVAL, Clear);
            && Positive(u.rounds) && u.ticks != -1 && u.endTime == s.endTime && u.period == s.period
            && s.delivered <= u.delivered && u.delivered == s.delivered + u.delivered[|s.delivered|..]
            && u.delivered[|s.delivered|..] + Values(u.rounds)[..Delivered(u.rounds, k - 1)]
               == Values(s.rounds)[..Delivered(s.rounds, k)]
            && |u.rounds| - Delivered(u.rounds, k - 1) == |s.rounds| - Delivered(s.rounds, k)
  {
    if s.rounds != [] {
      assert s.rounds[0] in s.rounds;
      if s.rounds[0].timeLeft > THINK_INTERVAL {
        ThinkOn(s, k);
      } else {
        ThinkOver(s, k);
      }
    }
  }

  lemma ThinkOn(s: Schedule, k: nat)
    requires Positive(s.rounds) && s.ticks != -1 && s.period.damage == 0 && k > 0
    requires s.rounds != [] && s.rounds[0].timeLeft > THINK_INTERVAL
    ensures var u := Executed(s, THINK_INTERVAL, Clear);
            && Positive(u.rounds) && u.ticks != -1 && u.endTime == s.endTime && u.period == s.period
            && u.delivered == s.delivered && Values(u.rounds) == Values(s.rounds)
            && Delivered(u.rounds, k - 1) == Delivered(s.rounds, k)
  {
    var u := Executed(s, THINK_INTERVAL, Clear);
    assert u.rounds[0] == s.rounds[0].(timeLeft := s.rounds[0].timeLeft - THINK_INTERVAL);
    assert u.rounds[1..] == s.rounds[1..];
    assert Thinks(u.rounds[0]) == Thinks(s.rounds[0]) - 1;
    assert Values(u.rounds) == Values(s.rounds);
  }

  lemma ThinkOver(s: Schedule, k: nat)
    requires Positive(s.rounds) && s.ticks != -1 && s.period.damage == 0 && k > 0
    requires s.rounds != [] && s.rounds[0].timeLeft <= THINK_INTERVAL
    ensures var u := Executed(s, THINK_INTERVAL, Clear);
            && Positive(u.rounds) && u.ticks != -1 && u.endTime == s.endTime && u.period == s.period
            && u.rounds == s.rounds[1..] && u.delivered == s.delivered + [s.rounds[0].value]
            && Values(s.rounds) == [s.rounds[0].value] + Values(u.rounds)
            && Delivered(s.rounds, k) == 1 + Delivered(u.rounds, k - 1)
  {
    assert s.rounds[0] in s.rounds;
    assert Thinks(s.rounds[0]) == 1;
  }

  /** The think at which the condition ends, when the first think is `delay` after the start. */
  function LastThink(total: nat, delay: int): nat
    requires 0 < delay <= THINK_INTERVAL
  {
    if total < delay then 1 else (total - delay) / THINK_INTERVAL + 2
  }

  /** Whether the condition goes on after its `k`-th think, the first of them at `now`. */
  predicate GoesAfter(s: Schedule, now: int, k: nat) {
    Goes(After(s, k), now + THINK_INTERVAL * (k - 1))
  }

  /**
   A condition started at `begin` and thought of at `first` for the first time goes on through every think before its
   last and ends there; by then all values have been delivered exactly if the rounds, each rounded up to whole thinks,
   fit.
   */
  lemma EndsOnTime(s: Schedule, begin: int, first: int)
    requires Positive(s.rounds) && s.ticks == TotalTime(s.rounds) >= 0 && s.endTime == begin + s.ticks
             && 0 < first - begin <= THINK_INTERVAL && s.period.damage == 0
    ensures var last := LastThink(s.ticks, first - begin);
            && (forall k | 1 <= k < last :: GoesAfter(s, first, k)) && !GoesAfter(s, first, last)
            && (After(s, last).delivered == s.delivered + Values(s.rounds) <==> TotalThinks(s.rounds) <= last)
  {
    var last := LastThink(s.ticks, first - begin);
    forall k | 1 <= k < last
      ensures GoesAfter(s, first, k)
    {
      ThinksDeliver(s, k);
    }
    ThinksDeliver(s, last);
    DeliveredIs(s.rounds, last);
    var n := Delivered(s.rounds, last);
    var all := Values(s.rounds);
    if n < |all| {
      assert |s.delivered + all[..n]| < |s.delivered + all|;
    } else {
      assert all[..n] == all;
    }
  }

  /** Rounds of whole seconds always fit: every value is delivered, the last at the latest one think before the end. */
  lemma {:induction false} WholeSecondsFit(rs: seq<Round>)
    requires Positive(rs) && forall r | r in rs :: r.timeLeft % THINK_INTERVAL == 0
    ensures THINK_INTERVAL * TotalThinks(rs) == TotalTime(rs) && TotalTime(rs) >= 0
  {
    if rs != [] {
      assert rs[0] in rs;
      WholeSecondsFit(rs[1..]);
    }
  }

  lemma WholeSecondsDelivered(s: Schedule, begin: int, delay: int)
    requires Positive(s.rounds) && (forall r | r in s.rounds :: r.timeLeft % THINK_INTERVAL == 0) && s.rounds != []
    requires s.ticks == TotalTime(s.rounds) && s.endTime == begin + s.ticks && 0 < delay <= THINK_INTERVAL
    requires s.period.damage == 0
    ensures s.ticks >= 0 && TotalThinks(s.rounds) == LastThink(s.ticks, delay) - 1
    ensures After(s, LastThink(s.ticks, delay)).delivered == s.delivered + Values(s.rounds)
  {
    WholeSecondsFit(s.rounds);
    assert s.rounds[0] in s.rounds;
    WholeSecondsFit(s.rounds[1..]);
    EndsOnTime(s, begin, begin + delay);
  }

  /**
   Three rounds of one and a half seconds take six thinks; the condition ends with the fifth and the last value is lost.
   */
  lemma LastRoundLost(value: int)
    ensures var round := Round(1500, value, 1500);
            var s := Schedule(4500, 4500, [round, round, round], NO_PERIOD, []);
            && Positive(s.rounds) && s.ticks == TotalTime(s.rounds)
            && TotalThinks(s.rounds) == 6 && LastThink(s.ticks, 1000) == 5
            && !GoesAfter(s, 1000, 5) && After(s, 5).delivered == [value, value]
  {
    hide After, Delivered, Executed;
    var round := Round(1500, value, 1500);
    var s := Schedule(4500, 4500, [round, round, round], NO_PERIOD, []);
    ThreeRounds(round);
    EndsOnTime(s, 0, 1000);
    ThinksDeliver(s, 5);
    DeliveredIs(s.rounds, 5);
    TwoOfThree(round);
    assert Values(s.rounds)[..2] == [value, value];
  }

  lemma ThreeRounds(round: Round)
    requires round.timeLeft == 1500
    ensures TotalTime([round, round, round]) == 4500 && TotalThinks([round, round, round]) == 6
  {
    assert [round, round, round][1..] == [round, round] && [round, round][1..] == [round] && [round][1..] == [];
    assert Thinks(round) == 2;
    assert TotalTime([round]) == 1500 && TotalTime([round, round]) == 3000;
    assert TotalThinks([round]) == 2 && TotalThinks([round, round]) == 4;
  }

  lemma TwoOfThree(round: Round)
    requires round.timeLeft == 1500
    ensures Delivered([round, round, round], 5) == 2
  {
    assert [round, round, round][1..] == [round, round] && [round, round][1..] == [round];
    assert Delivered([round], 1) == 0;
    assert Delivered([round, round], 3) == 1;
  }

  // ----- Damage without end

  /** The thinks between two hits. */
  function Every(interval: int): int {
    (interval + THINK_INTERVAL - 1) / THINK_INTERVAL
  }

  /** How often a repeated damage has hit after `k` thinks, the first hit being `first` thinks away. */
  function Hits(k: nat, first: int, every: int): int
    requires every > 0
  {
    if k < first then 0 else 1 + (k - first) / every
  }

  function Same(value: int, n: nat): seq<int> {
    seq(n, i => value)
  }

  /** Repeated damage hits at the same distance for ever: as often as whole intervals, in thinks, have passed. */
  lemma PeriodicDelivers(s: Schedule, k: nat)
    requires s.ticks == -1 && s.period.damage != 0 && s.period.tick == 0 && s.period.interval > 0
    ensures var n := k / Every(s.period.interval);
            && n >= 0 && After(s, k).delivered == s.delivered + Same(s.period.damage, n)
            && After(s, k).rounds == s.rounds && (k > 0 ==> forall now :: GoesAfter(s, now, k))
  {
    var every := Every(s.period.interval);
    PeriodicHits(s, k);
    if k < every {
      SmallQuotient(k, every);
    } else {
      OneLess(k, every);
    }
  }

  lemma {:induction false} PeriodicHits(s: Schedule, k: nat)
    requires s.ticks == -1 && s.period.damage != 0 && 0 <= s.period.tick < s.period.interval
    ensures var n := Hits(k, Every(s.period.interval - s.period.tick), Every(s.period.interval));
            && n >= 0 && After(s, k).delivered == s.delivered + Same(s.period.damage, n)
            && After(s, k).rounds == s.rounds && After(s, k).ticks == -1
    decreases k
  {
    var every, first := Every(s.period.interval), Every(s.period.interval - s.period.tick);
    if k == 0 {
      assert s.delivered + [] == s.delivered;
    } else {
      var u := Executed(s, THINK_INTERVAL, Clear);
      PeriodicHits(u, k - 1);
      hide After, Executed;
      if first == 1 {
        HitsAgain(k, every);
        SameMore(s.delivered, s.period.damage, Hits(k - 1, every, every));
      } else {
        assert Hits(k, first, every) == Hits(k - 1, first - 1, every);
      }
    }
  }

  lemma SameMore(xs: seq<int>, value: int, n: nat)
    ensures xs + [value] + Same(value, n) == xs + Same(value, n + 1)
  {
  }

  lemma HitsAgain(k: nat, every: int)
    requires k > 0 && every > 0
    ensures Hits(k, 1, every) == 1 + Hits(k - 1, every, every)
  {
    if k - 1 < every {
      SmallQuotient(k - 1, every);
    } else {
      OneLess(k - 1, every);
    }
  }

  lemma SmallQuotient(a: nat, n: int)
    requires a < n
    ensures a / n == 0
  {
  }

  lemma OneLess(a: nat, n: int)
    requires 0 < n <= a
    ensures a / n == 1 + (a - n) / n
  {
    var p, q := a / n, (a - n) / n;
    assert a % n - (a - n) % n == (q + 1 - p) * n;
    if q + 1 - p >= 1 {
      AtLeast(q + 1 - p, n);
    } else if q + 1 - p <= -1 {
      AtLeast(p - q - 1, n);
    }
  }

  lemma {:induction false} AtLeast(d: nat, n: nat)
    requires d > 0
    ensures d * n >= n
  {
    if d > 1 {
      AtLeast(d - 1, n);
    }
  }
}
