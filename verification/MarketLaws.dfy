/** Who gives and who gets what on the market, told in terms of purses and offers alone. */
module MarketLaws {
  import opened MarketLedger

  /** A price is paid with coins first; the bank pays only what the coins do not cover. */
  predicate PaysCoinsFirst(was: Purse, now: Purse, price: nat) {
    && now.cash == (if price <= was.cash then was.cash - price else 0)
    && now.cash + now.bank == was.cash + was.bank - price
  }

  /** A sum goes to the bank; the coins stay. */
  predicate Banks(was: Purse, now: Purse, sum: nat) {
    now.cash == was.cash && now.bank == was.bank + sum
  }

  /** The pieces of one ware change by `n`, those of no other. */
  ghost predicate Gets(was: Purse, now: Purse, ware: Ware, n: int) {
    forall x :: Holds(now.stock, x) == Holds(was.stock, x) + (if x == ware then n else 0)
  }

  /** No other purse is touched, and no other offer. */
  ghost predicate OthersStay(w: World, v: World, who: set<nat>, id: nat) {
    && v.purses.Keys == w.purses.Keys && (forall p | p in w.purses && p !in who :: v.purses[p] == w.purses[p])
    && (forall i | i != id :: i in v.offers <==> i in w.offers)
    && (forall i | i in w.offers && i != id :: i in v.offers && v.offers[i] == w.offers[i])
  }

  // ----- Creating

  /**
   Who sells puts the goods in escrow and pays the fee; who buys pays for the whole offer and the fee; without enough of
   either, or outside the limits, nothing happens.
   */
  ghost predicate CreateLaw(w: World, v: World, player: nat, sale: bool, ware: Ware, amount: nat, price: nat, fee: nat)
  {
    if player in w.purses && 1 <= amount <= 64000 && 1 <= price <= 999999999999
       && (if sale then fee else price * amount + fee) <= w.purses[player].cash + w.purses[player].bank
       && (sale ==> amount <= Holds(w.purses[player].stock, ware))
    then
      && OthersStay(w, v, {player}, w.next) && v.next == w.next + 1 && v.fees == w.fees + fee
      && player in v.purses && w.next in v.offers && v.offers[w.next] == Offer(player, sale, ware, amount, price)
      && PaysCoinsFirst(w.purses[player], v.purses[player], if sale then fee else price * amount + fee)
      && Gets(w.purses[player], v.purses[player], ware, if sale then 0 - amount else 0)
    else v == w
  }

  lemma CreateIsLawful(w: World, player: nat, sale: bool, ware: Ware, amount: nat, price: nat, fee: nat)
    ensures CreateLaw(w, Create(w, player, sale, ware, amount, price, fee), player, sale, ware, amount, price, fee)
  {
  }

  // ----- Giving back

  /** The owner gets back what an offer has in escrow: goods for a sale, money in the bank for a purchase. */
  ghost predicate GivenBack(w: World, v: World, id: nat, o: Offer)
    requires o.owner in w.purses
  {
    && OthersStay(w, v, {o.owner}, id) && id !in v.offers && v.next == w.next && v.fees == w.fees
    && o.owner in v.purses
    && Banks(w.purses[o.owner], v.purses[o.owner], if o.sale then 0 else o.price * o.amount)
    && Gets(w.purses[o.owner], v.purses[o.owner], o.ware, if o.sale then o.amount else 0)
  }

  /** Only the owner can cancel an offer. */
  ghost predicate CancelLaw(w: World, v: World, player: nat, id: nat) {
    if player in w.purses && id in w.offers && w.offers[id].owner == player then GivenBack(w, v, id, w.offers[id])
    else v == w
  }

  lemma CancelIsLawful(w: World, player: nat, id: nat)
    ensures CancelLaw(w, Cancel(w, player, id), player, id)
  {
  }

  /** An offer that is still there ends; its owner gets back what the row says. */
  ghost predicate ExpireLaw(w: World, v: World, id: nat, seen: Offer) {
    if id in w.offers && seen.owner in w.purses then GivenBack(w, v, id, seen) else v == w
  }

  lemma ExpireIsLawful(w: World, id: nat, seen: Offer)
    ensures ExpireLaw(w, Expire(w, id, seen), id, seen)
  {
  }

  // ----- Accepting

  /**
   Who accepts a sale pays, coins first, and gets the goods, and the seller gets the money in the bank; who accepts a
   purchase gives the goods and gets the money in the bank, and the buyer gets the goods. The offer loses the pieces,
   and goes with the last one. Nobody accepts an offer of the own account, or more than there is, or without the means.
   */
  ghost predicate AcceptLaw(w: World, v: World, account: map<nat, nat>, player: nat, id: nat, amount: nat) {
    if player in w.purses && id in w.offers && w.offers[id].owner in w.purses && player in account
       && w.offers[id].owner in account && account[w.offers[id].owner] != account[player]
       && 1 <= amount <= 64000 && amount <= w.offers[id].amount
       && (if w.offers[id].sale then w.offers[id].price * amount <= w.purses[player].cash + w.purses[player].bank
           else amount <= Holds(w.purses[player].stock, w.offers[id].ware))
    then
      var o := w.offers[id];
      && OthersStay(w, v, {player, o.owner}, id) && v.next == w.next && v.fees == w.fees
      && player in v.purses && o.owner in v.purses && (id in v.offers <==> amount < o.amount)
      && (id in v.offers ==> v.offers[id] == o.(amount := o.amount - amount))
      && var was, now, ownerWas, ownerNow :=
           w.purses[player], v.purses[player], w.purses[o.owner], v.purses[o.owner];
         (if o.sale then
            && PaysCoinsFirst(was, now, o.price * amount) && Gets(was, now, o.ware, amount)
            && Banks(ownerWas, ownerNow, o.price * amount) && Gets(ownerWas, ownerNow, o.ware, 0)
          else
            && Banks(was, now, o.price * amount) && Gets(was, now, o.ware, 0 - amount)
            && Banks(ownerWas, ownerNow, 0) && Gets(ownerWas, ownerNow, o.ware, amount))
    else v == w
  }

  lemma AcceptIsLawful(w: World, account: map<nat, nat>, player: nat, id: nat, amount: nat)
    ensures AcceptLaw(w, Accept(w, account, player, id, amount), account, player, id, amount)
  {
  }

  // ----- The laws leave nothing open

  /** The same purses, up to wares that are not held. */
  ghost predicate SameWorld(u: World, v: World) {
    && u.offers == v.offers && u.next == v.next && u.fees == v.fees && u.purses.Keys == v.purses.Keys
    && (forall p | p in u.purses :: u.purses[p].cash == v.purses[p].cash && u.purses[p].bank == v.purses[p].bank)
    && forall p, x | p in u.purses :: Holds(u.purses[p].stock, x) == Holds(v.purses[p].stock, x)
  }

  lemma AcceptIsDecided(w: World, u: World, v: World, account: map<nat, nat>, player: nat, id: nat, amount: nat)
    requires AcceptLaw(w, u, account, player, id, amount) && AcceptLaw(w, v, account, player, id, amount)
    ensures SameWorld(u, v)
  {
    SameOffers(w, u, v, id);
  }

  lemma SameOffers(w: World, u: World, v: World, id: nat)
    requires forall i | i != id :: (i in u.offers <==> i in w.offers) && (i in v.offers <==> i in w.offers)
    requires forall i | i in w.offers && i != id :: u.offers[i] == w.offers[i] && v.offers[i] == w.offers[i]
    requires (id in u.offers <==> id in v.offers) && (id in u.offers ==> u.offers[id] == v.offers[id])
    ensures u.offers == v.offers
  {
  }
}
