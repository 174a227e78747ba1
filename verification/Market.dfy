/** The market's requests on the players and offers they change, in 64-bit arithmetic. */
module Markets {
  import opened Totals
  import opened MarketLedger
  import opened MarketLaws

  function Wrap(n: int): (r: nat)
    ensures 0 <= n < WORD64 ==> r == n
  {
    n % WORD64
  }

  const STACK: nat := 100

  class Player {
    const guid: nat
    const accountId: nat
    var money: nat
    var bankBalance: nat
    var stock: map<Ware, nat>

    constructor (guid: nat, accountId: nat)
      ensures this.guid == guid && this.accountId == accountId && Purse() == MarketLedger.Purse(0, 0, map[])
    {
      this.guid, this.accountId, money, bankBalance, stock := guid, accountId, 0, 0, map[];
    }

    function Purse(): Purse
      reads this
    {
      MarketLedger.Purse(money, bankBalance, stock)
    }

    /** Pays with coins first and with the bank balance for the rest. */
    method Pay(price: nat)
      requires money + bankBalance < WORD64 && price <= money + bankBalance
      modifies this
      ensures Purse() == Debit(old(Purse()), price)
    {
      var debitCash := if money <= price then money else price;
      var debitBank := price - debitCash;
      money := money - debitCash;
      bankBalance := Wrap(bankBalance - debitBank);
    }

    /** Puts goods into the inbox, a full stack at a time. */
    method Deliver(ware: Ware, amount: nat, stackable: bool)
      modifies this
      ensures Purse() == Stocked(old(Purse()), ware, amount)
    {
      var had := Holds(stock, ware);
      if stackable {
        var tmpAmount := amount;
        stock := stock[ware := had];
        while tmpAmount > 0
          invariant 0 <= tmpAmount <= amount
          invariant Purse() == Stocked(old(Purse()), ware, amount - tmpAmount)
        {
          var stackCount := if tmpAmount < STACK then tmpAmount else STACK;
          stock := stock[ware := stock[ware] + stackCount];
          tmpAmount := tmpAmount - stackCount;
        }
      } else {
        stock := stock[ware := had];
        for i := 0 to amount
          invariant Purse() == Stocked(old(Purse()), ware, i)
        {
          stock := stock[ware := stock[ware] + 1];
        }
      }
    }

    method TakeAway(ware: Ware, amount: nat)
      requires amount <= Holds(stock, ware)
      modifies this
      ensures Purse() == Stocked(old(Purse()), ware, 0 - amount)
    {
      stock := stock[ware := Holds(stock, ware) - amount];
    }
  }

  class Market {
    const players: map<nat, Player>
    var offers: map<nat, Offer>
    var next: nat
    ghost var fees: nat

    ghost predicate Known()
      reads this, players.Values
    {
      forall p | p in players :: players[p].guid == p
    }

    ghost function World(): World
      reads this, players.Values
    {
      MarketLedger.World(map p | p in players :: players[p].Purse(), offers, next, fees)
    }

    ghost function Accounts(): map<nat, nat>
      reads players.Values
    {
      map p | p in players :: players[p].accountId
    }

    lemma WorldIs(p: nat)
      requires Known()
      ensures p in players <==> p in World().purses
      ensures p in players ==>
                World().purses[p] == players[p].Purse() && p in Accounts() && Accounts()[p] == players[p].accountId
      ensures World().offers == offers && World().next == next && World().fees == fees
    {
    }

    method AddOffer(o: Offer, fee: nat)
      requires Known()
      modifies this
      ensures Known()
      ensures var w := old(World());
              World() == MarketLedger.World(w.purses, w.offers[w.next := o], w.next + 1, w.fees + fee)
    {
      offers := offers[next := o];
      next := next + 1;
      fees := fees + fee;
    }

    method ReduceOffer(id: nat, amount: nat)
      requires Known() && id in offers && amount <= offers[id].amount
      modifies this
      ensures Known()
      ensures var w := old(World());
              && id in w.offers && amount <= w.offers[id].amount
              && World() == w.(offers := if w.offers[id].amount == amount then w.offers - {id}
                                         else w.offers[id := w.offers[id].(amount := w.offers[id].amount - amount)])
    {
      if offers[id].amount == amount {
        offers := offers - {id};
      } else {
        offers := offers[id := offers[id].(amount := offers[id].amount - amount)];
      }
    }

    method DropOffer(id: nat)
      requires Known()
      modifies this
      ensures Known() && World() == old(World()).(offers := old(World()).offers - {id})
    {
      offers := offers - {id};
    }

    method Charge(p: nat, price: nat)
      requires Known() && p in players
      requires Wealth(players[p].Purse()) < WORD64 && price <= Wealth(players[p].Purse())
      modifies players[p]
      ensures var w, was := old(World()), old(players[p].Purse());
              Known() && World() == w.(purses := w.purses[p := Debit(was, price)])
    {
      players[p].Pay(price);
    }

    method Credit(p: nat, sum: nat)
      requires Known() && p in players && players[p].bankBalance + sum < WORD64
      modifies players[p]
      ensures var was := old(players[p].Purse());
              Known() && World() == old(World()).(purses := old(World()).purses[p := was.(bank := was.bank + sum)])
    {
      players[p].bankBalance := Wrap(players[p].bankBalance + sum);
    }

    method Deliver(p: nat, ware: Ware, amount: nat, stackable: bool)
      requires Known() && p in players
      modifies players[p]
      ensures var w, was := old(World()), old(players[p].Purse());
              Known() && World() == w.(purses := w.purses[p := Stocked(was, ware, amount)])
    {
      players[p].Deliver(ware, amount, stackable);
    }

    method TakeAway(p: nat, ware: Ware, amount: nat)
      requires Known() && p in players && amount <= Holds(players[p].stock, ware)
      modifies players[p]
      ensures var taken := Stocked(old(players[p].Purse()), ware, 0 - amount);
              Known() && World() == old(World()).(purses := old(World()).purses[p := taken])
    {
      players[p].TakeAway(ware, amount);
    }

    /** `permitted` stands for the checks of place, account, item and number of offers. */
    method PlayerCreateMarketOffer(playerId: nat, sale: bool, ware: Ware, amount: nat, price: nat, raw: nat,
                                   minFee: nat, maxFee: nat, permitted: bool)
      requires Known() && Sound(World()) && minFee < WORD64 / 2 && maxFee < WORD64 / 2
      modifies this, players.Values
      ensures Known()
      ensures World() == if permitted then Create(old(World()), playerId, sale, ware, amount, price,
                                                  Fee(raw, minFee, maxFee))
                         else old(World())
      ensures var fee := if raw < minFee then minFee else if raw > maxFee then maxFee else raw;
              permitted ==> CreateLaw(old(World()), World(), playerId, sale, ware, amount, price, fee)
    {
      hide Known, World, Sound, Holds, Stocked, Debit, Wrap, CreateLaw;
      CreateIsLawful(World(), playerId, sale, ware, amount, price, Fee(raw, minFee, maxFee));
      WorldIs(playerId);
      if amount == 0 || amount > MAX_AMOUNT || price == 0 || price > MAX_PRICE || playerId !in players || !permitted {
        return;
      }
      var fee := Fee(raw, minFee, maxFee);
      NoOverflow(World(), playerId, next);
      PriceFits(amount, price, fee);
      var player := players[playerId];
      if sale {
        if fee > Wrap(player.money + player.bankBalance) || amount > Holds(player.stock, ware) {
          return;
        }
        StockedKeepsMoney(player.Purse(), ware, 0 - amount);
        TakeAway(playerId, ware, amount);
        WorldIs(playerId);
        Charge(playerId, fee);
      } else {
        var totalPrice := Wrap(Wrap(price * amount) + fee);
        if totalPrice > Wrap(player.money + player.bankBalance) {
          return;
        }
        Charge(playerId, totalPrice);
      }
      AddOffer(Offer(playerId, sale, ware, amount, price), fee);
    }

    /** Gives back what an offer holds in escrow, to its owner. */
    method GiveBack(o: Offer, stackable: bool)
      requires Known() && o.owner in players
      requires !o.sale ==> players[o.owner].bankBalance + o.price * o.amount < WORD64
      modifies players[o.owner]
      ensures Known()
      ensures var w, was := old(World()), old(players[o.owner].Purse());
              World() == w.(purses := w.purses[o.owner := Refunded(was, o)])
    {
      if o.sale {
        Deliver(o.owner, o.ware, o.amount, stackable);
      } else {
        Credit(o.owner, Wrap(o.price * o.amount));
      }
    }

    method PlayerCancelMarketOffer(playerId: nat, id: nat, stackable: bool)
      requires Known() && Sound(World())
      modifies this, players.Values
      ensures Known() && World() == Cancel(old(World()), playerId, id)
      ensures CancelLaw(old(World()), World(), playerId, id)
    {
      hide Known, World, Sound, CancelLaw;
      CancelIsLawful(World(), playerId, id);
      WorldIs(playerId);
      if playerId !in players || id !in offers || offers[id].owner != playerId {
        return;
      }
      NoOverflow(World(), playerId, id);
      GiveBack(offers[id], stackable);
      DropOffer(id);
    }

    method BuyFrom(playerId: nat, offer: Offer, amount: nat, totalPrice: nat, stackable: bool)
      requires Known() && playerId in players && offer.owner in players && playerId != offer.owner
      requires Wealth(players[playerId].Purse()) < WORD64 && totalPrice <= Wealth(players[playerId].Purse())
      requires players[offer.owner].bankBalance + totalPrice < WORD64
      modifies players.Values
      ensures Known()
      ensures var p, q := old(players[playerId].Purse()), old(players[offer.owner].Purse());
              var paid := Stocked(Debit(p, totalPrice), offer.ware, amount);
              var w, banked := old(World()), q.(bank := q.bank + totalPrice);
              World() == w.(purses := w.purses[playerId := paid][offer.owner := banked])
    {
      hide Known, World, Holds, Stocked, Debit;
      WorldIs(playerId);
      WorldIs(offer.owner);
      Charge(playerId, totalPrice);
      WorldIs(playerId);
      Deliver(playerId, offer.ware, amount, stackable);
      WorldIs(offer.owner);
      Credit(offer.owner, totalPrice);
    }

    method SellTo(playerId: nat, offer: Offer, amount: nat, totalPrice: nat, stackable: bool)
      requires Known() && playerId in players && offer.owner in players && playerId != offer.owner
      requires amount <= Holds(players[playerId].stock, offer.ware)
      requires players[playerId].bankBalance + totalPrice < WORD64
      modifies players.Values
      ensures Known()
      ensures var p, q := old(players[playerId].Purse()), old(players[offer.owner].Purse());
              var sold := Stocked(p, offer.ware, 0 - amount).(bank := p.bank + totalPrice);
              var w, stocked := old(World()), Stocked(q, offer.ware, amount);
              World() == w.(purses := w.purses[playerId := sold][offer.owner := stocked])
    {
      hide Known, World, Holds, Stocked;
      WorldIs(playerId);
      WorldIs(offer.owner);
      StockedKeepsMoney(players[playerId].Purse(), offer.ware, 0 - amount);
      TakeAway(playerId, offer.ware, amount);
      WorldIs(playerId);
      Credit(playerId, totalPrice);
      WorldIs(offer.owner);
      Deliver(offer.owner, offer.ware, amount, stackable);
    }

    method PlayerAcceptMarketOffer(playerId: nat, id: nat, amount: nat, stackable: bool)
      requires Known() && Sound(World())
      modifies this, players.Values
      ensures Known() && World() == Accept(old(World()), old(Accounts()), playerId, id, amount)
      ensures AcceptLaw(old(World()), World(), old(Accounts()), playerId, id, amount)
    {
      hide Known, World, Sound, Holds, Stocked, Debit, Wrap, Accounts, AcceptLaw;
      AcceptIsLawful(World(), Accounts(), playerId, id, amount);
      WorldIs(playerId);
      if amount == 0 || amount > MAX_AMOUNT || playerId !in players || id !in offers {
        return;
      }
      var offer := offers[id];
      WorldIs(offer.owner);
      if offer.owner !in players || players[offer.owner].accountId == players[playerId].accountId
          || amount > offer.amount {
        return;
      }
      var totalPrice := Wrap(offer.price * amount);
      NoOverflow(World(), playerId, id);
      NoOverflow(World(), offer.owner, id);
      OfferIsSound(World(), id);
      PartFits(offer, amount);
      if offer.sale {
        if totalPrice > Wrap(players[playerId].money + players[playerId].bankBalance) {
          return;
        }
        BuyFrom(playerId, offer, amount, totalPrice, stackable);
      } else {
        if amount > Holds(players[playerId].stock, offer.ware) {
          return;
        }
        PartPaid(World(), playerId, id, amount);
        SellTo(playerId, offer, amount, totalPrice, stackable);
      }
      WorldIs(playerId);
      ReduceOffer(id, amount);
    }

    /**
     Ends an expired offer: what is given back is taken from the row that was read when the expired offers were listed.
     */
    method ProcessExpiredOffer(id: nat, seen: Offer, stackable: bool)
      requires Known() && seen.owner in players
      requires !seen.sale ==> players[seen.owner].bankBalance + seen.price * seen.amount < WORD64
      modifies this, players.Values
      ensures Known() && World() == Expire(old(World()), id, seen)
      ensures ExpireLaw(old(World()), World(), id, seen)
    {
      hide Known, World, ExpireLaw;
      ExpireIsLawful(World(), id, seen);
      WorldIs(seen.owner);
      if id !in offers {
        return;
      }
      DropOffer(id);
      WorldIs(seen.owner);
      GiveBack(seen, stackable);
    }
  }

  lemma StockedKeepsMoney(p: Purse, ware: Ware, diff: int)
    requires Holds(p.stock, ware) + diff >= 0
    ensures Stocked(p, ware, diff).cash == p.cash && Stocked(p, ware, diff).bank == p.bank
  {
  }

  lemma OfferIsSound(w: World, id: nat)
    requires Sound(w) && id in w.offers
    ensures SoundOffer(w.offers[id])
  {
  }

  /** What a buy offer has in escrow can be added to any balance. */
  lemma PartPaid(w: World, p: nat, id: nat, amount: nat)
    requires Sound(w) && p in w.purses && id in w.offers && !w.offers[id].sale && amount <= w.offers[id].amount
    ensures w.purses[p].bank + w.offers[id].price * amount < WORD64
  {
    NoOverflow(w, p, id);
    PartFits(w.offers[id], amount);
  }

  lemma PartFits(o: Offer, amount: nat)
    requires SoundOffer(o) && amount <= o.amount
    ensures 0 <= o.price * amount <= o.price * o.amount < WORD64
  {
    PartOf(o, amount);
    PriceFits(o.amount, o.price, 0);
  }
}
