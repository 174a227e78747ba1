/** Market escrow: what creating, cancelling, accepting and expiring an offer do to money and goods. */
module MarketLedger {
  import opened Totals

  const MAX_AMOUNT: nat := 64000
  const MAX_PRICE: nat := 999999999999
  const WORD64: nat := 0x1_0000_0000_0000_0000

  /** What is traded: a ware of one tier. */
  datatype Ware = Ware(id: nat, tier: nat)

  /** What a player owns: the worth of the coins carried, the bank balance and the goods in depot and inbox. */
  datatype Purse = Purse(cash: nat, bank: nat, stock: map<Ware, nat>)

  datatype Offer = Offer(owner: nat, sale: bool, ware: Ware, amount: nat, price: nat)

  datatype World = World(purses: map<nat, Purse>, offers: map<nat, Offer>, next: nat, fees: nat)

  function Holds(stock: map<Ware, nat>, w: Ware): nat {
    if w in stock then stock[w] else 0
  }

  function Stocked(p: Purse, w: Ware, diff: int): Purse
    requires Holds(p.stock, w) + diff >= 0
  {
    p.(stock := p.stock[w := Holds(p.stock, w) + diff])
  }

  /** Coins first, the bank for the rest. */
  function Debit(p: Purse, price: nat): Purse
    requires price <= p.cash + p.bank
  {
    var debitCash := if p.cash <= price then p.cash else price;
    p.(cash := p.cash - debitCash, bank := p.bank - (price - debitCash))
  }

  function Fee(raw: nat, minFee: nat, maxFee: nat): nat {
    if raw < minFee then minFee else if raw > maxFee then maxFee else raw
  }

  // ----- The requests

  predicate MayCreate(w: World, player: nat, sale: bool, ware: Ware, amount: nat, price: nat, fee: nat) {
    && 1 <= amount <= MAX_AMOUNT && 1 <= price <= MAX_PRICE && player in w.purses
    && var p := w.purses[player];
    && (if sale then fee <= p.cash + p.bank && amount <= Holds(p.stock, ware)
        else price * amount + fee <= p.cash + p.bank)
  }

  function Create(w: World, player: nat, sale: bool, ware: Ware, amount: nat, price: nat, fee: nat): World {
    if !MayCreate(w, player, sale, ware, amount, price, fee) then w
    else
      var p := w.purses[player];
      var paid := if sale then Debit(Stocked(p, ware, 0 - amount), fee) else Debit(p, price * amount + fee);
      World(w.purses[player := paid], w.offers[w.next := Offer(player, sale, ware, amount, price)], w.next + 1,
            w.fees + fee)
  }

  function Refunded(p: Purse, o: Offer): Purse {
    if o.sale then Stocked(p, o.ware, o.amount) else p.(bank := p.bank + o.price * o.amount)
  }

  function Cancel(w: World, player: nat, id: nat): World {
    if id in w.offers && w.offers[id].owner == player && player in w.purses
    then w.(purses := w.purses[player := Refunded(w.purses[player], w.offers[id])], offers := w.offers - {id})
    else w
  }

  predicate MayAccept(w: World, account: map<nat, nat>, player: nat, id: nat, amount: nat) {
    && 1 <= amount <= MAX_AMOUNT && player in w.purses && id in w.offers
    && var o := w.offers[id];
    && o.owner in w.purses && player in account && o.owner in account && account[o.owner] != account[player]
    && amount <= o.amount
    && var p := w.purses[player];
    && (if o.sale then o.price * amount <= p.cash + p.bank else amount <= Holds(p.stock, o.ware))
  }

  function Accept(w: World, account: map<nat, nat>, player: nat, id: nat, amount: nat): World {
    if !MayAccept(w, account, player, id, amount) then w
    else
      var o := w.offers[id];
      var p, q := w.purses[player], w.purses[o.owner];
      var total := o.price * amount;
      var left := if amount == o.amount then w.offers - {id} else w.offers[id := o.(amount := o.amount - amount)];
      var p', q' :=
        if o.sale then Stocked(Debit(p, total), o.ware, amount)
            else Stocked(p, o.ware, 0 - amount).(bank := p.bank + total),
        if o.sale then q.(bank := q.bank + total) else Stocked(q, o.ware, amount);
      w.(purses := w.purses[player := p'][o.owner := q'], offers := left)
  }

  /**
   Ends an offer whose time is over. The row `seen` was read earlier: the offer must still exist, but what is
   given back is what the row says.
   */
  function Expire(w: World, id: nat, seen: Offer): World {
    if id in w.offers && seen.owner in w.purses
    then w.(purses := w.purses[seen.owner := Refunded(w.purses[seen.owner], seen)], offers := w.offers - {id})
    else w
  }

  // ----- What is conserved

  ghost function Coins(purses: map<nat, Purse>): map<nat, int> {
    map p | p in purses :: purses[p].cash + purses[p].bank
  }

  ghost function Stakes(offers: map<nat, Offer>): map<nat, int> {
    map i | i in offers :: if offers[i].sale then 0 else offers[i].price * offers[i].amount
  }

  ghost function Stocks(purses: map<nat, Purse>, ware: Ware): map<nat, int> {
    map p | p in purses :: Holds(purses[p].stock, ware)
  }

  ghost function Deposits(offers: map<nat, Offer>, ware: Ware): map<nat, int> {
    map i | i in offers :: if offers[i].sale && offers[i].ware == ware then offers[i].amount else 0
  }

  /** All money: carried, in banks, staked in buy offers, and taken as fees. */
  ghost function Money(w: World): int {
    Total(Coins(w.purses)) + Total(Stakes(w.offers)) + w.fees
  }

  /** All goods of a ware and tier: owned and deposited in sell offers. */
  ghost function Goods(w: World, ware: Ware): int {
    Total(Stocks(w.purses, ware)) + Total(Deposits(w.offers, ware))
  }

  predicate SoundOffer(o: Offer) {
    1 <= o.amount <= MAX_AMOUNT && 1 <= o.price <= MAX_PRICE
  }

  ghost predicate Sound(w: World) {
    && (forall i | i in w.offers :: i < w.next && w.offers[i].owner in w.purses && SoundOffer(w.offers[i]))
    && Money(w) < WORD64
  }

  ghost predicate Conserves(w: World, v: World) {
    Money(v) == Money(w) && forall ware :: Goods(v, ware) == Goods(w, ware)
  }

  // ----- How the totals move

  function Wealth(p: Purse): nat {
    p.cash + p.bank
  }

  function Stake(o: Offer): nat {
    if o.sale then 0 else o.price * o.amount
  }

  function Deposit(o: Offer, ware: Ware): nat {
    if o.sale && o.ware == ware then o.amount else 0
  }

  lemma PurseChange(purses: map<nat, Purse>, p: nat, x: Purse, ware: Ware)
    requires p in purses
    ensures Total(Coins(purses[p := x])) == Total(Coins(purses)) + Wealth(x) - Wealth(purses[p])
    ensures Total(Stocks(purses[p := x], ware))
            == Total(Stocks(purses, ware)) + Holds(x.stock, ware) - Holds(purses[p].stock, ware)
  {
    assert Coins(purses[p := x]) == Coins(purses)[p := Wealth(x)];
    TotalUpdate(Coins(purses), p, Wealth(x));
    assert Stocks(purses[p := x], ware) == Stocks(purses, ware)[p := Holds(x.stock, ware)];
    TotalUpdate(Stocks(purses, ware), p, Holds(x.stock, ware));
  }

  lemma OfferPut(offers: map<nat, Offer>, i: nat, o: Offer, ware: Ware)
    ensures Total(Stakes(offers[i := o]))
            == Total(Stakes(offers)) + Stake(o) - (if i in offers then Stake(offers[i]) else 0)
    ensures Total(Deposits(offers[i := o], ware)) ==
            Total(Deposits(offers, ware)) + Deposit(o, ware) - (if i in offers then Deposit(offers[i], ware) else 0)
  {
    assert Stakes(offers[i := o]) == Stakes(offers)[i := Stake(o)];
    TotalUpdate(Stakes(offers), i, Stake(o));
    assert Deposits(offers[i := o], ware) == Deposits(offers, ware)[i := Deposit(o, ware)];
    TotalUpdate(Deposits(offers, ware), i, Deposit(o, ware));
  }

  lemma OfferGone(offers: map<nat, Offer>, i: nat, ware: Ware)
    requires i in offers
    ensures Total(Stakes(offers - {i})) == Total(Stakes(offers)) - Stake(offers[i])
    ensures Total(Deposits(offers - {i}, ware)) == Total(Deposits(offers, ware)) - Deposit(offers[i], ware)
  {
    assert Stakes(offers - {i}) == Stakes(offers) - {i};
    TotalRemove(Stakes(offers), i);
    assert Deposits(offers - {i}, ware) == Deposits(offers, ware) - {i};
    TotalRemove(Deposits(offers, ware), i);
  }

  lemma CreateTotals(w: World, player: nat, sale: bool, ware: Ware, amount: nat, price: nat, fee: nat, any: Ware)
    requires MayCreate(w, player, sale, ware, amount, price, fee) && w.next !in w.offers
    ensures var v := Create(w, player, sale, ware, amount, price, fee);
            Money(v) == Money(w) && Goods(v, any) == Goods(w, any)
  {
    hide Coins, Stakes, Stocks, Deposits;
    var v := Create(w, player, sale, ware, amount, price, fee);
    PurseChange(w.purses, player, v.purses[player], any);
    OfferPut(w.offers, w.next, Offer(player, sale, ware, amount, price), any);
  }

  lemma CancelTotals(w: World, player: nat, id: nat, any: Ware)
    requires id in w.offers && w.offers[id].owner == player && player in w.purses
    ensures Money(Cancel(w, player, id)) == Money(w) && Goods(Cancel(w, player, id), any) == Goods(w, any)
  {
    hide Coins, Stakes, Stocks, Deposits;
    PurseChange(w.purses, player, Cancel(w, player, id).purses[player], any);
    OfferGone(w.offers, id, any);
  }

  lemma AcceptTotals(w: World, account: map<nat, nat>, player: nat, id: nat, amount: nat, any: Ware)
    requires MayAccept(w, account, player, id, amount)
    ensures var v := Accept(w, account, player, id, amount);
            Money(v) == Money(w) && Goods(v, any) == Goods(w, any)
  {
    hide Coins, Stakes, Stocks, Deposits;
    var v := Accept(w, account, player, id, amount);
    var o := w.offers[id];
    var mid := w.purses[player := v.purses[player]];
    PurseChange(w.purses, player, v.purses[player], any);
    PurseChange(mid, o.owner, v.purses[o.owner], any);
    assert v.purses == mid[o.owner := v.purses[o.owner]];
    OfferGone(w.offers, id, any);
    OfferPut(w.offers, id, o.(amount := o.amount - amount), any);
    PartOf(o, amount);
  }

  /** A part of an offer and what is left of it are the whole offer. */
  lemma PartOf(o: Offer, amount: nat)
    requires amount <= o.amount
    ensures o.price * amount + o.price * (o.amount - amount) == o.price * o.amount
  {
  }

  lemma ExpireTotals(w: World, id: nat, seen: Offer, any: Ware)
    requires id in w.offers && seen.owner in w.purses
    ensures var v := Expire(w, id, seen);
            && Money(v) == Money(w) + Stake(seen) - Stake(w.offers[id])
            && Goods(v, any) == Goods(w, any) + Deposit(seen, any) - Deposit(w.offers[id], any)
  {
    hide Coins, Stakes, Stocks, Deposits;
    PurseChange(w.purses, seen.owner, Expire(w, id, seen).purses[seen.owner], any);
    OfferGone(w.offers, id, any);
  }

  // ----- Conservation over requests and runs

  /**
   An expiry gives back exactly what is in escrow precisely when no part of the offer was accepted since it was read.
   */
  lemma ExpireConservesIff(w: World, id: nat, seen: Offer)
    requires Sound(w) && id in w.offers && seen == w.offers[id].(amount := seen.amount)
    ensures Conserves(w, Expire(w, id, seen)) <==> seen.amount == w.offers[id].amount
  {
    hide Money, Goods;
    var v, o := Expire(w, id, seen), w.offers[id];
    forall any ensures Money(v) == Money(w) + Stake(seen) - Stake(o)
      ensures Goods(v, any) == Goods(w, any) + Deposit(seen, any) - Deposit(o, any)
    {
      ExpireTotals(w, id, seen, any);
    }
    assert Goods(v, o.ware) == Goods(w, o.ware) + Deposit(seen, o.ware) - Deposit(o, o.ware);
    if !o.sale && o.price * seen.amount == o.price * o.amount {
      SamePrice(o.price, seen.amount, o.amount);
    }
  }

  lemma SamePrice(price: nat, a: nat, b: nat)
    requires price > 0 && price * a == price * b
    ensures a == b
  {
    assert price * (a - b) == 0;
  }

  datatype Request =
    | Place(player: nat, sale: bool, ware: Ware, amount: nat, price: nat, fee: nat)
    | Withdraw(player: nat, id: nat)
    | Take(player: nat, id: nat, amount: nat)

  function Handle(w: World, account: map<nat, nat>, r: Request): World {
    match r
    case Place(player, sale, ware, amount, price, fee) => Create(w, player, sale, ware, amount, price, fee)
    case Withdraw(player, id) => Cancel(w, player, id)
    case Take(player, id, amount) => Accept(w, account, player, id, amount)
  }

  function Run(w: World, account: map<nat, nat>, rs: seq<Request>): World
    decreases |rs|
  {
    if rs == [] then w else Run(Handle(w, account, rs[0]), account, rs[1..])
  }

  lemma HandleTotals(w: World, account: map<nat, nat>, r: Request, any: Ware)
    requires Sound(w)
    ensures var v := Handle(w, account, r);
            Money(v) == Money(w) && Goods(v, any) == Goods(w, any)
  {
    hide Money, Goods;
    match r
    case Place(player, sale, ware, amount, price, fee) =>
      if MayCreate(w, player, sale, ware, amount, price, fee) {
        CreateTotals(w, player, sale, ware, amount, price, fee, any);
      }
    case Withdraw(player, id) =>
      if id in w.offers && w.offers[id].owner == player && player in w.purses {
        CancelTotals(w, player, id, any);
      }
    case Take(player, id, amount) =>
      if MayAccept(w, account, player, id, amount) {
        AcceptTotals(w, account, player, id, amount, any);
      }
  }

  lemma HandleKeepsSound(w: World, account: map<nat, nat>, r: Request)
    requires Sound(w)
    ensures Sound(Handle(w, account, r)) && Conserves(w, Handle(w, account, r))
  {
    hide Money, Goods;
    var v := Handle(w, account, r);
    HandleTotals(w, account, r, Ware(0, 0));
    forall any ensures Goods(v, any) == Goods(w, any) {
      HandleTotals(w, account, r, any);
    }
  }

  /** Over any run of requests no money and no goods of any ware and tier appear or vanish. */
  lemma {:induction false} RunConserves(w: World, account: map<nat, nat>, rs: seq<Request>)
    requires Sound(w)
    ensures Sound(Run(w, account, rs)) && Conserves(w, Run(w, account, rs))
    decreases |rs|
  {
    hide Sound, Money, Goods;
    if rs != [] {
      HandleKeepsSound(w, account, rs[0]);
      RunConserves(Handle(w, account, rs[0]), account, rs[1..]);
    }
  }

  /** An offer with a number keeps everything but its amount, which never grows; numbers are not used again. */
  lemma OfferOnlyShrinks(w: World, account: map<nat, nat>, r: Request, id: nat)
    requires id < w.next
    ensures var v := Handle(w, account, r);
            && w.next <= v.next
            && (id in v.offers ==>
                  && id in w.offers && v.offers[id].amount <= w.offers[id].amount
                  && v.offers[id] == w.offers[id].(amount := v.offers[id].amount))
  {
  }

  lemma {:induction false} OffersOnlyShrink(w: World, account: map<nat, nat>, rs: seq<Request>, id: nat)
    requires id < w.next
    ensures var v := Run(w, account, rs);
            id in v.offers ==>
              && id in w.offers && v.offers[id].amount <= w.offers[id].amount
              && v.offers[id] == w.offers[id].(amount := v.offers[id].amount)
    decreases |rs|
  {
    if rs != [] {
      OfferOnlyShrinks(w, account, rs[0], id);
      OffersOnlyShrink(Handle(w, account, rs[0]), account, rs[1..], id);
    }
  }

  predicate TakesFrom(w: World, account: map<nat, nat>, r: Request, id: nat) {
    r.Take? && r.id == id && MayAccept(w, account, r.player, r.id, r.amount)
  }

  /** No request of a run accepts a part of the offer. */
  predicate NoneTaken(w: World, account: map<nat, nat>, rs: seq<Request>, id: nat)
    decreases |rs|
  {
    rs != [] ==> !TakesFrom(w, account, rs[0], id) && NoneTaken(Handle(w, account, rs[0]), account, rs[1..], id)
  }

  lemma AmountAfterOne(w: World, account: map<nat, nat>, r: Request, id: nat)
    requires id < w.next && id in Handle(w, account, r).offers
    ensures id in w.offers
    ensures TakesFrom(w, account, r, id) ==> Handle(w, account, r).offers[id].amount < w.offers[id].amount
    ensures !TakesFrom(w, account, r, id) ==> Handle(w, account, r).offers[id].amount == w.offers[id].amount
  {
  }

  /** The amount of an offer that is still there is the old one exactly if no part of it was accepted. */
  lemma {:induction false} AmountUnchangedIff(w: World, account: map<nat, nat>, rs: seq<Request>, id: nat)
    requires id < w.next && id in Run(w, account, rs).offers
    ensures id in w.offers
    ensures Run(w, account, rs).offers[id].amount == w.offers[id].amount <==> NoneTaken(w, account, rs, id)
    decreases |rs|
  {
    if rs != [] {
      var v := Handle(w, account, rs[0]);
      OfferOnlyShrinks(w, account, rs[0], id);
      OffersOnlyShrink(v, account, rs[1..], id);
      AmountAfterOne(w, account, rs[0], id);
      AmountUnchangedIff(v, account, rs[1..], id);
    }
  }

  /**
   An offer that is read, then expired after other requests, gives back what is in escrow exactly if none of those
   requests accepted a part of it.
   */
  lemma ExpiryAfterRun(w: World, account: map<nat, nat>, rs: seq<Request>, id: nat)
    requires Sound(w) && id in w.offers
    ensures var v := Run(w, account, rs);
            id in v.offers ==> (Conserves(v, Expire(v, id, w.offers[id])) <==> NoneTaken(w, account, rs, id))
  {
    hide Conserves, Expire;
    RunConserves(w, account, rs);
    OffersOnlyShrink(w, account, rs, id);
    var v := Run(w, account, rs);
    if id in v.offers {
      ExpireConservesIff(v, id, w.offers[id]);
      AmountUnchangedIff(w, account, rs, id);
    }
  }

  const WARE := Ware(1, 0)

  /** Player 1 wants two pieces at ten each; player 2 has one. */
  const BEFORE := World(map[1 := Purse(0, 0, map[]), 2 := Purse(0, 0, map[WARE := 1])],
                        map[0 := Offer(1, false, WARE, 2, 10)], 1, 0)

  lemma BeforeIsSound()
    ensures Sound(BEFORE)
  {
    hide Money;
    MoneyBefore();
  }

  lemma MoneyBefore()
    ensures Money(BEFORE) == 20
  {
    hide Total;
    var coins, stakes := Coins(BEFORE.purses), Stakes(BEFORE.offers);
    TotalOfOne(stakes, 0);
    TotalSplit(coins, 1);
    TotalOfOne(coins - {1}, 2);
  }

  lemma TotalOfOne(m: map<nat, int>, k: nat)
    requires m.Keys == {k}
    ensures Total(m) == m[k]
  {
    TotalSplit(m, k);
    assert m - {k} == map[];
  }

  /** One piece is sold while the offer waits to be expired: the buyer then gets back the price of two. */
  lemma ExpiryCanFail()
    ensures Sound(BEFORE)
    ensures var v := Run(BEFORE, map[1 := 1, 2 := 2], [Take(2, 0, 1)]);
            0 in v.offers && !Conserves(v, Expire(v, 0, BEFORE.offers[0]))
  {
    BeforeIsSound();
    var account: map<nat, nat>, r := map[1 := 1, 2 := 2], Take(2, 0, 1);
    assert MayAccept(BEFORE, account, 2, 0, 1);
    assert [r][1..] == [];
    assert Run(BEFORE, account, [r]) == Run(Handle(BEFORE, account, r), account, []);
    assert !NoneTaken(BEFORE, account, [r], 0);
    hide Conserves, Expire, Sound;
    ExpiryAfterRun(BEFORE, account, [r], 0);
  }

  /** In a sound world no sum of money a request forms reaches 64 bits. */
  lemma NoOverflow(w: World, p: nat, id: nat)
    requires Sound(w) && p in w.purses
    ensures w.purses[p].cash + w.purses[p].bank < WORD64
    ensures id in w.offers && !w.offers[id].sale ==>
              w.purses[p].cash + w.purses[p].bank + w.offers[id].price * w.offers[id].amount < WORD64
    ensures id in w.offers && w.offers[id].owner != p ==>
              var q := w.purses[w.offers[id].owner];
              w.purses[p].cash + w.purses[p].bank + q.cash + q.bank < WORD64
  {
    var coins, stakes := Coins(w.purses), Stakes(w.offers);
    TotalBounds(coins, p);
    TotalNonNegative(stakes);
    if id in w.offers {
      TotalBounds(stakes, id);
      var q := w.offers[id].owner;
      if q != p {
        TotalSplit(coins, p);
        TotalBounds(coins - {p}, q);
      }
    }
  }

  /** The price of a whole offer and its fee fit 64 bits. */
  lemma PriceFits(amount: nat, price: nat, fee: nat)
    requires amount <= MAX_AMOUNT && price <= MAX_PRICE && fee < WORD64 / 2
    ensures price * amount + fee < WORD64
  {
    ProductGrows(price, amount, MAX_PRICE, MAX_AMOUNT);
  }

  lemma ProductGrows(a: nat, b: nat, c: nat, d: nat)
    requires a <= c && b <= d
    ensures a * b <= c * d
  {
    assert c * d == a * b + a * (d - b) + (c - a) * d;
  }
}
