/** Paying with the coins a player carries: finding them, spending the smallest stacks first, getting change. */
module Money {
  import opened Sums
  import opened Totals
  import opened Coins

  const FULL_STACK: nat := 100

  /** A stack of coins; with no coins left it has been removed. */
  class Stack {
    const unit: nat
    var count: nat

    constructor (unit: nat, count: nat)
      ensures this.unit == unit && this.count == count
    {
      this.unit, this.count := unit, count;
    }

    function Worth(): nat
      reads this
    {
      unit * count
    }

    /** The worth as an unsigned 32-bit number. */
    function GetWorth(): nat
      reads this
    {
      (unit * count) % WORD32
    }

    ghost predicate Genuine()
      reads this
    {
      0 < unit && unit * FULL_STACK < WORD32 && 1 <= count <= FULL_STACK
    }
  }

  lemma WorthFits(unit: nat, count: nat)
    requires 0 < unit && unit * FULL_STACK < WORD32 && 1 <= count <= FULL_STACK
    ensures 0 < unit * count < WORD32 && (unit * count) / count == unit
  {
    assert unit * count <= unit * FULL_STACK;
    assert (unit * count) / count == unit;
  }

  /** What lies in a cylinder: coins, containers, and things without worth. */
  datatype Thing = Plain | Coin(stack: Stack) | Box(contents: seq<Thing>)

  ghost function StacksIn(things: seq<Thing>): multiset<Stack>
    decreases things
  {
    if things == [] then multiset{}
    else
      StacksIn(things[1..]) +
      match things[0]
      case Plain => multiset{}
      case Coin(s) => multiset{s}
      case Box(contents) => StacksIn(contents)
  }

  ghost function Size(things: seq<Thing>): nat
    decreases things
  {
    if things == [] then 0
    else Size(things[1..]) + (if things[0].Box? then 1 + Size(things[0].contents) else 0)
  }

  ghost function AllStacks(queue: seq<seq<Thing>>): multiset<Stack> {
    if queue == [] then multiset{} else StacksIn(queue[0]) + AllStacks(queue[1..])
  }

  ghost function AllSizes(queue: seq<seq<Thing>>): nat {
    if queue == [] then 0 else 1 + Size(queue[0]) + AllSizes(queue[1..])
  }

  lemma {:induction false} QueueGrows(queue: seq<seq<Thing>>, c: seq<Thing>)
    ensures AllStacks(queue + [c]) == AllStacks(queue) + StacksIn(c)
    ensures AllSizes(queue + [c]) == AllSizes(queue) + 1 + Size(c)
  {
    if queue == [] {
      assert queue + [c] == [c];
      assert [c][1..] == [];
    } else {
      assert (queue + [c])[1..] == queue[1..] + [c];
      QueueGrows(queue[1..], c);
    }
  }

  // ----- The list of stacks by worth

  datatype Entry = Entry(worth: nat, stack: Stack)

  predicate Ascending(m: seq<Entry>) {
    forall i, j | 0 <= i < j < |m| :: m[i].worth <= m[j].worth
  }

  function StacksOf(m: seq<Entry>): (r: seq<Stack>)
    ensures |r| == |m| && forall i | 0 <= i < |m| :: r[i] == m[i].stack
  {
    if m == [] then [] else [m[0].stack] + StacksOf(m[1..])
  }

  /** A new entry goes behind all entries that are worth no more. */
  function Emplace(m: seq<Entry>, e: Entry): (r: seq<Entry>)
    requires Ascending(m)
    ensures |r| == |m| + 1 && Ascending(r) && r[0] == if m == [] || m[0].worth > e.worth then e else m[0]
  {
    if m == [] then [e]
    else if m[0].worth > e.worth then [e] + m
    else [m[0]] + Emplace(m[1..], e)
  }

  lemma {:induction false} EmplaceKeeps(m: seq<Entry>, e: Entry)
    requires Ascending(m)
    ensures forall x :: x in Emplace(m, e) <==> x in m || x == e
  {
    if m != [] && m[0].worth <= e.worth {
      EmplaceKeeps(m[1..], e);
      assert m == [m[0]] + m[1..];
    }
  }

  lemma StacksCons(e: Entry, m: seq<Entry>)
    ensures StacksOf([e] + m) == [e.stack] + StacksOf(m)
  {
    assert ([e] + m)[1..] == m;
  }

  lemma {:induction false} EmplaceStacks(m: seq<Entry>, e: Entry)
    requires Ascending(m)
    ensures multiset(StacksOf(Emplace(m, e))) == multiset(StacksOf(m)) + multiset{e.stack}
  {
    hide StacksOf;
    StacksCons(e, m);
    if m == [] {
      NoStacks();
    } else if m[0].worth <= e.worth {
      EmplaceStacks(m[1..], e);
      StacksCons(m[0], m[1..]);
      StacksCons(m[0], Emplace(m[1..], e));
      assert [m[0]] + m[1..] == m;
    }
  }

  lemma NoStacks()
    ensures StacksOf([]) == [] && forall e :: StacksOf([e]) == [e.stack]
  {
    forall e ensures StacksOf([e]) == [e.stack] {
      assert [e][1..] == [];
    }
  }

  function SumEntries(m: seq<Entry>): nat {
    if m == [] then 0 else m[0].worth + SumEntries(m[1..])
  }

  lemma {:induction false} EmplaceSum(m: seq<Entry>, e: Entry)
    requires Ascending(m)
    ensures SumEntries(Emplace(m, e)) == SumEntries(m) + e.worth
  {
    if m != [] && m[0].worth <= e.worth {
      EmplaceSum(m[1..], e);
      assert Emplace(m, e)[1..] == Emplace(m[1..], e);
    } else {
      assert ([e] + m)[1..] == m;
    }
  }

  // ----- The worth of all stacks together

  ghost function Worths(S: set<Stack>): map<Stack, int>
    reads S
  {
    map s | s in S :: s.Worth()
  }

  lemma {:induction false} ListTotal(worths: map<Stack, int>, m: seq<Entry>)
    requires (forall s :: s in worths <==> s in StacksOf(m)) && Distinct(StacksOf(m))
    requires forall e | e in m :: e.stack in worths && worths[e.stack] == e.worth
    ensures Total(worths) == SumEntries(m)
    decreases m
  {
    hide StacksOf, Distinct;
    StacksTail(m);
    if m == [] {
      assert worths == map[];
    } else {
      var s := m[0].stack;
      assert m[0] in m;
      TotalSplit(worths, s);
      ListTotal(worths - {s}, m[1..]);
    }
  }

  lemma StacksTail(m: seq<Entry>)
    requires Distinct(StacksOf(m))
    ensures m == [] ==> StacksOf(m) == []
    ensures m != [] ==>
              && Distinct(StacksOf(m[1..])) && m[0].stack !in StacksOf(m[1..])
              && (forall s :: s in StacksOf(m) <==> s == m[0].stack || s in StacksOf(m[1..]))
              && (forall e | e in m[1..] :: e in m && e.stack in StacksOf(m[1..]))
  {
    hide StacksOf;
    NoStacks();
    if m != [] {
      StacksCons(m[0], m[1..]);
      assert [m[0]] + m[1..] == m;
      TailOfDistinct(m[0].stack, StacksOf(m[1..]));
      var ys := StacksOf(m[1..]);
      forall e | e in m[1..] ensures e in m && e.stack in ys {
        var i :| 0 <= i < |m[1..]| && m[1..][i] == e;
        assert ys[i] == e.stack;
      }
    }
  }

  lemma TailOfDistinct(s: Stack, ys: seq<Stack>)
    requires Distinct([s] + ys)
    ensures Distinct(ys) && s !in ys
  {
    var xs := [s] + ys;
    assert forall i | 0 <= i < |ys| :: ys[i] == xs[i + 1];
    forall i | 0 <= i < |ys| ensures ys[i] != s {
      assert ys[i] == xs[i + 1] && s == xs[0];
    }
  }

  /** Every entry says what its stack is worth. */
  ghost predicate Priced(m: seq<Entry>)
    reads set e | e in m :: e.stack
  {
    forall e | e in m :: e.worth == e.stack.Worth()
  }

  lemma PricedMore(m: seq<Entry>, e: Entry)
    requires Ascending(m) && Priced(m) && e.worth == e.stack.Worth()
    ensures Priced(Emplace(m, e))
  {
    EmplaceKeeps(m, e);
  }

  /** A cylinder with what it holds, and the coins it or the ground below it was given as change. */
  class Cylinder {
    const things: seq<Thing>
    const storeInbox: seq<Thing>
    var change: seq<Payment>
    ghost const stash: set<Stack>

    constructor (things: seq<Thing>, storeInbox: seq<Thing>)
      ensures this.things == things && this.storeInbox == storeInbox && change == [] && Known()
    {
      this.things, this.storeInbox, change := things, storeInbox, [];
      stash := set s | s in StacksIn(things) + StacksIn(storeInbox);
    }

    ghost function Held(): multiset<Stack> {
      StacksIn(things) + StacksIn(storeInbox)
    }

    ghost predicate Known() {
      stash == set s | s in Held()
    }

    /** Every stack lies in one place and is worth something. */
    ghost predicate Stocked()
      reads stash
    {
      Known() && forall s | s in stash :: Held()[s] == 1 && s.Genuine()
    }

    /** All the money: what is carried and what was paid out. */
    ghost function Value(): int
      reads this, stash
    {
      Total(Worths(stash)) + Paid(change)
    }

    /** Looks through one list: containers are put off, coins are counted. */
    method Scan(list: seq<Thing>, containers: seq<seq<Thing>>, moneyMap: seq<Entry>, moneyCount: nat,
                ghost i: nat, ghost all: multiset<Stack>, ghost size: nat)
      returns (containers': seq<seq<Thing>>, moneyMap': seq<Entry>, moneyCount': nat)
      requires i <= |containers| && Counting(containers[i..], moneyMap, moneyCount, list, all, size)
      requires Stocked() && all <= Held()
      requires Priced(moneyMap)
      ensures Stocked() && all <= Held()
      ensures |containers| <= |containers'| && Counting(containers'[i..], moneyMap', moneyCount', [], all, size)
      ensures Priced(moneyMap')
    {
      hide Counting, Emplace, Ascending, SumEntries, StacksOf;
      containers', moneyMap', moneyCount' := containers, moneyMap, moneyCount;
      assert list[0..] == list;
      for j := 0 to |list|
        invariant |containers| <= |containers'| && Stocked()
        invariant Counting(containers'[i..], moneyMap', moneyCount', list[j..], all, size)
        invariant Priced(moneyMap')
      {
        assert list[j..][1..] == list[j + 1..] && list[j..][0] == list[j];
        CountsNext(containers'[i..], moneyMap', moneyCount', list[j..], all, size);
        match list[j]
        case Plain =>
        case Box(contents) =>
          assert (containers' + [contents])[i..] == containers'[i..] + [contents];
          containers' := containers' + [contents];
        case Coin(s) =>
          assert all[s] > 0 && Held()[s] > 0 && s in stash;
          WorthFits(s.unit, s.count);
          var worth := s.GetWorth();
          if worth != 0 {
            CountsCoin(containers'[i..], moneyMap', moneyCount', list[j..], all, size, worth);
            PricedMore(moneyMap', Entry(worth, s));
            moneyCount' := moneyCount' + worth;
            moneyMap' := Emplace(moneyMap', Entry(worth, s));
          }
      }
      assert list[|list|..] == [];
    }

    /** Finds all coins, in containers at every depth, and their total worth. */
    method CountMoney() returns (moneyMap: seq<Entry>, moneyCount: nat)
      requires Stocked()
      ensures Ascending(moneyMap) && multiset(StacksOf(moneyMap)) == Held()
      ensures Priced(moneyMap)
      ensures moneyCount == SumEntries(moneyMap)
    {
      hide Counting, StacksIn, Size;
      var containers: seq<seq<Thing>> := [];
      moneyMap, moneyCount := [], 0;
      ghost var all := Held();
      CountingStarts(things, storeInbox);
      assert containers[0..] == [];
      containers, moneyMap, moneyCount :=
          Scan(things, containers, moneyMap, moneyCount, 0, StacksIn(things), Size(things));
      assert containers[0..] == containers;
      CountingInbox(containers, moneyMap, moneyCount, StacksIn(things), Size(things), storeInbox);
      containers := containers + [storeInbox];
      ghost var size := Size(things) + 1 + Size(storeInbox);
      var i := 0;
      assert containers[0..] == containers;
      while i < |containers|
        invariant 0 <= i <= |containers| && 0 <= size && Stocked() && all <= Held()
        invariant Counting(containers[i..], moneyMap, moneyCount, [], all, size)
        invariant Priced(moneyMap)
        decreases size
      {
        assert containers[i..][1..] == containers[i + 1..] && containers[i..][0] == containers[i];
        CountsOpen(containers[i..], moneyMap, moneyCount, all, size);
        size := size - 1;
        var container := containers[i];
        i := i + 1;
        containers, moneyMap, moneyCount := Scan(container, containers, moneyMap, moneyCount, i, all, size);
      }
      CountingEnds(containers[i..], moneyMap, moneyCount, all, size);
    }

    /** Takes coins from one stack. */
    method Take(stack: Stack, n: nat)
      requires stack in stash && n <= stack.count
      modifies stack
      ensures stack.count == old(stack.count) - n && Value() == old(Value()) - stack.unit * n
    {
      hide Total, Paid, Held;
      ghost var S, before := stash, Worths(stash);
      LessWorth(stack.unit, stack.count, n);
      stack.count := stack.count - n;
      assert Worths(S) == before[stack := stack.Worth()];
      TotalUpdate(before, stack, stack.Worth());
    }

    /** Pays as much of a sum as goes into coins of one worth. */
    method PayIn(worth: nat, money: nat) returns (left: nat)
      requires worth > 0
      modifies this`change
      ensures left <= money && left == money - CoinsFor(money, worth) * worth
      ensures old(change) <= change && Paid(change) == Paid(old(change)) + money - left
      ensures forall p | p in change[|old(change)|..] :: p.unit == worth && worth <= money && 1 <= p.count <= FULL_STACK
    {
      hide Paid;
      CoinsFit(money, worth);
      var currencyCoins := CoinsFor(money, worth);
      AtLeastOne(money, worth);
      hide CoinsFor;
      left := money;
      if currencyCoins > 0 {
        left := money - currencyCoins * worth;
        PayOut(worth, currencyCoins);
      }
    }

    method PayOut(worth: nat, coins: nat)
      modifies this`change
      ensures old(change) <= change && Paid(change) == Paid(old(change)) + coins * worth
      ensures forall p | p in change[|old(change)|..] :: p.unit == worth && 1 <= p.count <= FULL_STACK
    {
      var left: nat := coins;
      while left > 0
        invariant left <= coins && old(change) <= change
        invariant Paid(change) == Paid(old(change)) + (coins - left) * worth
        invariant forall p | p in change[|old(change)|..] :: p.unit == worth && 1 <= p.count <= FULL_STACK
      {
        var count := if left < FULL_STACK then left else FULL_STACK;
        PaidOneMore(change, worth, count);
        change := change + [Payment(worth, count)];
        MoreCoins(coins - left, count, worth);
        left := left - count;
      }
    }

    /** Pays out with the largest coins first, a full stack at a time. */
    method AddMoney(money: nat, currency: seq<nat>)
      requires Descending(currency)
      modifies this`change
      ensures old(change) <= change && Value() == old(Value()) + money - Unpaid(money, currency)
      ensures forall p | p in change[|old(change)|..] ::
                p.unit in currency && p.unit <= money && 1 <= p.count <= FULL_STACK
    {
      if money == 0 {
        NothingUnpaid(currency);
        return;
      }
      hide Unpaid, CoinsFor, Paid, Descending;
      var left := money;
      assert currency[0..] == currency;
      for k := 0 to |currency|
        invariant 0 <= left <= money && Descending(currency[k..])
                  && Unpaid(left, currency[k..]) == Unpaid(money, currency)
        invariant old(change) <= change && Paid(change) == Paid(old(change)) + money - left
        invariant forall p | p in change[|old(change)|..] ::
                    p.unit in currency && p.unit <= money && 1 <= p.count <= FULL_STACK
      {
        var worth := currency[k];
        UnpaidStep(left, currency, k);
        ghost var before := change;
        left := PayIn(worth, left);
        PrefixTwice(old(change), before, change);
      }
      UnpaidEnd(left);
      assert currency[|currency|..] == [];
    }

    /** What spending leaves: stacks before `k` are gone, stacks behind it are untouched. */
    ghost predicate SpentTo(m: seq<Entry>, k: nat)
      reads set e | e in m :: e.stack
    {
      && k <= |m| && (forall j | 0 <= j < k :: m[j].stack.count == 0)
    }

    /** The entries from `k` on still have their coins. */
    ghost predicate Untouched(m: seq<Entry>, k: nat)
      reads set e | e in m :: e.stack
    {
      forall j | k <= j < |m| :: m[j].stack.Genuine() && m[j].worth == m[j].stack.Worth()
    }

    /**
     Takes money from a list of stacks that is worth enough: whole stacks, and part of the last one against change.
     */
    method Spend(m: seq<Entry>, money: nat, currency: seq<nat>) returns (ghost k: nat, ghost back: nat)
      requires 0 < money <= SumEntries(m) && Descending(currency)
      requires Distinct(StacksOf(m)) && (forall e | e in m :: e.stack in stash) && Untouched(m, 0)
      modifies this`change, stash
      ensures k < |m| && SpentTo(m, k) && Untouched(m, k + 1)
      ensures back < m[k].stack.unit < WORD32
      ensures Value() == old(Value()) - money - Unpaid(back, currency)
      ensures old(change) <= change && forall p | p in change[|old(change)|..] ::
                p.unit < m[k].stack.unit && p.unit in currency
    {
      hide Value, Descending, Unpaid, Paid, Total, StacksOf, SumEntries, SpentTo, Untouched;
      var left: nat := money;
      var i := 0;
      NothingUnpaid(currency);
      NoneSpent(m);
      while i < |m|
        invariant 0 <= i <= |m| && 0 < left <= SumEntries(m[i..]) && SpentTo(m, i) && Untouched(m, i)
        invariant change == old(change) && Value() == old(Value()) - (money - left)
      {
        var item := m[i].stack;
        SumFrom(m, i);
        GenuineAt(m, i);
        WorthFits(item.unit, item.count);
        if m[i].worth < left {
          TakeEntry(m, i, item.count);
          left := left - m[i].worth;
        } else if m[i].worth > left {
          var worth := m[i].worth / item.count;
          var removeCount := (left + worth - 1) / worth;
          RoundsUp(left, worth, item.count);
          back := worth * removeCount - left;
          AddMoney(worth * removeCount - left, currency);
          TakeEntry(m, i, removeCount);
          k := i;
          return;
        } else {
          TakeEntry(m, i, item.count);
          k, back := i, 0;
          return;
        }
        i := i + 1;
      }
      SumFromEnd(m);
      assert false;
    }

    method TakeEntry(m: seq<Entry>, i: nat, n: nat)
      requires i < |m| && Distinct(StacksOf(m)) && m[i].stack in stash && n <= m[i].stack.count
      requires SpentTo(m, i) && Untouched(m, i)
      modifies m[i].stack
      ensures Value() == old(Value()) - m[i].stack.unit * n
      ensures SpentTo(m, i) && Untouched(m, i + 1) && (n == old(m[i].stack.count) ==> SpentTo(m, i + 1))
    {
      hide Value, Total, StacksOf;
      OthersDiffer(m, i);
      Take(m[i].stack, n);
    }

    lemma NoneSpent(m: seq<Entry>)
      ensures SpentTo(m, 0) && m[0..] == m
    {
    }

    lemma GenuineAt(m: seq<Entry>, i: nat)
      requires i < |m| && Untouched(m, i)
      ensures m[i].stack.Genuine() && m[i].worth == m[i].stack.Worth() && m[i] in m
    {
    }

    /** Pays if what is carried is worth enough, and then by exactly the price, but for change no coin can give. */
    method RemoveMoney(money: nat, currency: seq<nat>)
      returns (ok: bool, ghost m: seq<Entry>, ghost k: nat, ghost back: nat)
      requires Stocked() && Descending(currency)
      modifies this`change, stash
      ensures ok <==> old(Total(Worths(stash))) >= money
      ensures !ok || money == 0 ==> change == old(change) && forall s | s in stash :: s.count == old(s.count)
      ensures ok && money > 0 ==>
                && Ascending(m) && multiset(StacksOf(m)) == Held()
                && k < |m| && SpentTo(m, k) && Untouched(m, k + 1) && back < m[k].stack.unit < WORD32
                && old(change) <= change && (forall p | p in change[|old(change)|..] :: p.unit < m[k].stack.unit)
                && Value() == old(Value()) - money - Unpaid(back, currency)
      ensures ok && currency != [] && currency[|currency| - 1] == 1 && currency[0] <= WORD32 ==>
                Value() == old(Value()) - money
    {
      hide *;
      m, k, back := [], 0, 0;
      WorthIsNatural();
      if money == 0 {
        return true, m, k, back;
      }
      var moneyMap, moneyCount := CountMoney();
      CountIsTotal(moneyMap);
      if moneyCount < money {
        return false, m, k, back;
      }
      m := moneyMap;
      k, back := SpendExactly(moneyMap, money, currency);
      return true, m, k, back;
    }

    lemma WorthIsNatural()
      ensures Total(Worths(stash)) >= 0
    {
      hide Total;
      TotalNonNegative(Worths(stash));
    }

    /** With a coin of worth one in the table, the change is exact. */
    method SpendExactly(m: seq<Entry>, money: nat, currency: seq<nat>) returns (ghost k: nat, ghost back: nat)
      requires 0 < money <= SumEntries(m) && Descending(currency)
      requires Distinct(StacksOf(m)) && (forall e | e in m :: e.stack in stash) && Untouched(m, 0)
      modifies this`change, stash
      ensures k < |m| && SpentTo(m, k) && Untouched(m, k + 1) && back < m[k].stack.unit < WORD32
      ensures Value() == old(Value()) - money - Unpaid(back, currency)
      ensures old(change) <= change && forall p | p in change[|old(change)|..] :: p.unit < m[k].stack.unit
      ensures currency != [] && currency[|currency| - 1] == 1 && currency[0] <= WORD32 ==>
                Value() == old(Value()) - money
    {
      hide *;
      k, back := Spend(m, money, currency);
      if currency != [] && currency[|currency| - 1] == 1 && currency[0] <= WORD32 {
        ChangeIsExact(back, m[k].stack.unit, currency);
      }
    }

    lemma CountIsTotal(m: seq<Entry>)
      requires Stocked() && multiset(StacksOf(m)) == Held() && Priced(m)
      ensures SumEntries(m) == Total(Worths(stash)) && Distinct(StacksOf(m))
      ensures (forall e | e in m :: e.stack in stash) && Untouched(m, 0)
    {
      var xs := StacksOf(m);
      forall s ensures s in stash <==> s in xs {
        assert s in xs <==> multiset(xs)[s] > 0;
      }
      OnceEach(xs, stash);
      forall e | e in m ensures e.stack in stash {
        var i :| 0 <= i < |m| && m[i] == e;
        assert xs[i] in xs;
      }
      ListTotal(Worths(stash), m);
    }
  }

  lemma SumFrom(m: seq<Entry>, i: nat)
    requires i < |m|
    ensures SumEntries(m[i..]) == m[i].worth + SumEntries(m[i + 1..])
  {
    assert m[i..][1..] == m[i + 1..];
  }

  lemma SumFromEnd(m: seq<Entry>)
    ensures SumEntries(m[|m|..]) == 0
  {
  }

  /** A list in which nothing occurs twice has its elements once each. */
  lemma OnceEach(xs: seq<Stack>, S: set<Stack>)
    requires (forall x | x in xs :: x in S) && forall x | x in S :: multiset(xs)[x] == 1
    ensures Distinct(xs)
  {
    forall i, j | 0 <= i < j < |xs| ensures xs[i] != xs[j] {
      Twice(xs, i, j);
      assert xs[i] in xs;
    }
  }

  lemma Twice(xs: seq<Stack>, i: nat, j: nat)
    requires i < j < |xs|
    ensures xs[i] == xs[j] ==> multiset(xs)[xs[i]] >= 2
  {
    assert xs == xs[..j] + xs[j..];
    assert xs[i] == xs[..j][i] && xs[j] == xs[j..][0];
    assert multiset(xs[..j])[xs[i]] >= 1 && multiset(xs[j..])[xs[j]] >= 1;
  }

  lemma OthersDiffer(m: seq<Entry>, i: nat)
    requires Distinct(StacksOf(m)) && i < |m|
    ensures forall j | 0 <= j < |m| && j != i :: m[j].stack != m[i].stack
  {
    hide StacksOf;
    var xs := StacksOf(m);
    forall j | 0 <= j < |m| && j != i ensures m[j].stack != m[i].stack {
      assert xs[j] != xs[i] by {
        if j < i {
          assert xs[j] != xs[i];
        } else {
          assert xs[i] != xs[j];
        }
      }
      hide Distinct;
      assert xs[j] == m[j].stack && xs[i] == m[i].stack;
    }
  }

  /** Enough coins of a stack to cover a price below its worth, and less than one coin too much. */
  lemma RoundsUp(price: nat, unit: nat, count: nat)
    requires 0 < unit && 0 < price < unit * count
    ensures var n := (price + unit - 1) / unit;
            0 < n <= count && 0 <= unit * n - price < unit
  {
    var n := (price + unit - 1) / unit;
    assert price + unit - 1 == n * unit + (price + unit - 1) % unit;
    CancelFactor(n - 1, count, unit);
    assert (n - 1) * unit == n * unit - unit;
  }

  /** With a coin of worth one all change can be given. */
  lemma ChangeIsExact(back: nat, unit: nat, currency: seq<nat>)
    requires back < unit < WORD32 && Descending(currency)
    requires currency != [] && currency[|currency| - 1] == 1 && currency[0] <= WORD32
    ensures Unpaid(back, currency) == 0
  {
    QuotientFits(back, currency[0]);
    PaysExactlyIff(back, currency);
  }

  lemma LessWorth(unit: nat, count: nat, n: nat)
    requires n <= count
    ensures unit * (count - n) == unit * count - unit * n
  {
  }

  lemma MoreCoins(a: int, b: int, worth: nat)
    ensures (a + b) * worth == a * worth + worth * b
  {
  }

  lemma PaidOneMore(ps: seq<Payment>, worth: nat, count: nat)
    ensures Paid(ps + [Payment(worth, count)]) == Paid(ps) + worth * count
  {
    assert (ps + [Payment(worth, count)])[..|ps|] == ps;
  }

  lemma AtLeastOne(money: nat, worth: nat)
    requires worth > 0
    ensures CoinsFor(money, worth) > 0 ==> worth <= money
  {
    if money < worth {
      assert money / worth == 0;
    }
  }

  lemma PrefixTwice<T>(a: seq<T>, b: seq<T>, c: seq<T>)
    requires a <= b <= c
    ensures a <= c && c[|a|..] == b[|a|..] + c[|b|..]
  {
  }

  lemma UnpaidStep(money: nat, currency: seq<nat>, k: nat)
    requires k < |currency| && Descending(currency[k..])
    ensures var worth := currency[k];
            && worth > 0 && CoinsFor(money, worth) * worth <= money && Descending(currency[k + 1..])
            && Unpaid(money, currency[k..]) == Unpaid(money - CoinsFor(money, worth) * worth, currency[k + 1..])
  {
    hide CoinsFor;
    assert currency[k..][0] == currency[k] && currency[k..][1..] == currency[k + 1..];
    CoinsFit(money, currency[k]);
  }

  lemma UnpaidEnd(money: nat)
    ensures Descending([]) && Unpaid(money, []) == money
  {
  }

  lemma {:induction false} NothingUnpaid(currency: seq<nat>)
    requires Descending(currency)
    ensures Unpaid(0, currency) == 0
  {
    if currency != [] {
      NothingUnpaid(currency[1..]);
      CoinsFit(0, currency[0]);
    }
  }

  // ----- Where the count stands

  /** `queue` and `rest` are still to be looked through; all that is in them or in the list is `all`. */
  ghost predicate Counting(queue: seq<seq<Thing>>, m: seq<Entry>, count: nat, rest: seq<Thing>, all: multiset<Stack>,
                           size: nat) {
    && Ascending(m) && count == SumEntries(m)
    && AllStacks(queue) + multiset(StacksOf(m)) + StacksIn(rest) == all
    && AllSizes(queue) + Size(rest) == size
  }

  lemma CountsNext(queue: seq<seq<Thing>>, m: seq<Entry>, count: nat, rest: seq<Thing>, all: multiset<Stack>, size: nat)
    requires Counting(queue, m, count, rest, all, size) && rest != []
    ensures rest[0].Plain? ==> Counting(queue, m, count, rest[1..], all, size)
    ensures rest[0].Box? ==> Counting(queue + [rest[0].contents], m, count, rest[1..], all, size)
    ensures rest[0].Coin? ==> rest[0].stack in all
  {
    if rest[0].Box? {
      QueueGrows(queue, rest[0].contents);
    }
    if rest[0].Coin? {
      assert StacksIn(rest)[rest[0].stack] > 0;
    }
  }

  lemma CountsCoin(queue: seq<seq<Thing>>, m: seq<Entry>, count: nat, rest: seq<Thing>, all: multiset<Stack>, size: nat,
                   worth: nat)
    requires Counting(queue, m, count, rest, all, size) && rest != [] && rest[0].Coin?
    ensures var e := Entry(worth, rest[0].stack);
            && Ascending(m)
            && Counting(queue, Emplace(m, e), count + worth, rest[1..], all, size)
  {
    hide Emplace, StacksOf, SumEntries, Size, AllSizes, AllStacks, Ascending, StacksIn;
    var e := Entry(worth, rest[0].stack);
    EmplaceAll(m, e);
    CoinFirst(rest);
  }

  lemma CoinFirst(rest: seq<Thing>)
    requires rest != [] && rest[0].Coin?
    ensures StacksIn(rest) == multiset{rest[0].stack} + StacksIn(rest[1..]) && Size(rest) == Size(rest[1..])
  {
  }

  lemma EmplaceAll(m: seq<Entry>, e: Entry)
    requires Ascending(m)
    ensures var r := Emplace(m, e);
            && Ascending(r) && SumEntries(r) == SumEntries(m) + e.worth
            && multiset(StacksOf(r)) == multiset(StacksOf(m)) + multiset{e.stack}
  {
    hide *;
    EmplaceStacks(m, e);
    EmplaceSum(m, e);
  }

  lemma CountingStarts(things: seq<Thing>, storeInbox: seq<Thing>)
    ensures Counting([], [], 0, things, StacksIn(things), Size(things))
  {
  }

  lemma CountingInbox(queue: seq<seq<Thing>>, m: seq<Entry>, count: nat, all: multiset<Stack>, size: nat,
                      inbox: seq<Thing>)
    requires Counting(queue, m, count, [], all, size)
    ensures Counting(queue + [inbox], m, count, [], all + StacksIn(inbox), size + 1 + Size(inbox))
  {
    QueueGrows(queue, inbox);
  }

  lemma CountsOpen(queue: seq<seq<Thing>>, m: seq<Entry>, count: nat, all: multiset<Stack>, size: nat)
    requires Counting(queue, m, count, [], all, size) && queue != []
    ensures size > 0 && Counting(queue[1..], m, count, queue[0], all, size - 1)
  {
  }

  lemma CountingEnds(queue: seq<seq<Thing>>, m: seq<Entry>, count: nat, all: multiset<Stack>, size: nat)
    requires Counting(queue, m, count, [], all, size) && queue == []
    ensures Ascending(m) && count == SumEntries(m) && multiset(StacksOf(m)) == all
  {
  }
}
