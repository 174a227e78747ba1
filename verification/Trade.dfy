/** Players who trade, and the requests that start, accept and close a trade. */
module Trades {
  import opened Options
  import opened Ancestry
  import opened ItemHeap
  import opened Items
  import opened ContainerIterators
  import opened TradeProtocol
  import opened TradeLaws

  class Player {
    const id: nat
    var tradeState: TradeState
    var tradePartner: Player?
    var tradeItem: Item?

    constructor (id: nat)
      ensures this.id == id && Sitting() == Seat(Idle, None, None)
    {
      this.id := id;
      tradeState, tradePartner, tradeItem := Idle, null, null;
    }

    ghost function Sitting(): Seat<Item>
      reads this
    {
      Seat(tradeState, if tradePartner == null then None else Some(tradePartner.id), Optional(tradeItem))
    }
  }

  class Game {
    const players: map<nat, Player>
    var tradeItems: map<Item, nat>
    ghost var held: multiset<Item>

    ghost predicate Known()
      reads this, players.Values
    {
      forall p | p in players ::
        && players[p].id == p
        && (players[p].tradePartner != null ==>
              players[p].tradePartner.id in players && players[players[p].tradePartner.id] == players[p].tradePartner)
    }

    ghost function Desk(): Desk<Item>
      reads this, players.Values
    {
      TradeProtocol.Desk(map p | p in players :: players[p].Sitting(), tradeItems, held)
    }

    method Sit(player: Player, state: TradeState, partner: Player?, item: Item?)
      requires Known() && player in players.Values && (partner != null ==> partner in players.Values)
      modifies player
      ensures Known() && player.id in old(Desk()).seats
      ensures player.tradeState == state && player.tradePartner == partner && player.tradeItem == item
      ensures var seat := Seat(state, if partner == null then None else Some(partner.id), Optional(item));
              Desk() == old(Desk()).(seats := old(Desk()).seats[player.id := seat])
    {
      player.tradeState := state;
      player.tradePartner := partner;
      player.tradeItem := item;
      ghost var seat := Seat(state, if partner == null then None else Some(partner.id), Optional(item));
      assert player.Sitting() == seat;
      assert Desk().seats == old(Desk()).seats[player.id := seat];
    }

    /** Gives an item back: off the table, and its reference released. */
    method ReleaseOffer(item: Item?)
      requires Known()
      modifies this
      ensures Known() && Desk() == Release(old(Desk()), Optional(item))
    {
      if item != null {
        var i: Item := item;
        if i in tradeItems {
          held := held - multiset{i};
          tradeItems := tradeItems - {i};
        }
      }
    }

    ghost predicate Seats(player: Player)
      reads this, players.Values
      requires Known() && player in players.Values
    {
      && player.id in Desk().seats && Desk().seats[player.id] == player.Sitting()
      && (player.tradePartner != null ==>
            player.tradePartner in players.Values && player.tradePartner.id in Desk().seats
            && Desk().seats[player.tradePartner.id] == player.tradePartner.Sitting())
    }

    lemma SeatsAre(player: Player)
      requires Known() && player in players.Values
      ensures Seats(player)
    {
    }

    lemma SameId(player: Player, other: Player?)
      requires Known() && player in players.Values && (other != null ==> other in players.Values)
      ensures other != null ==> (other.id == player.id <==> other == player)
    {
    }

    /** Whether the item is being traded already, by itself, with something inside it or with what it lies in. */
    method IsInTrade(tradeItem: Item, ghost S: set<Item>) returns (taken: bool)
      requires tradeItem in S && tradeItems.Keys <= S && Valid(HeapOf(S))
      ensures taken <==> !Free(HeapOf(S), tradeItems, tradeItem)
    {
      hide Valid, HeapOf, Within, Free;
      var rest := tradeItems.Keys;
      ghost var h := HeapOf(S);
      while rest != {}
        invariant HeapOf(S) == h && rest <= tradeItems.Keys
        invariant forall x | x in tradeItems && x !in rest :: Clear(h, x, tradeItem)
      {
        var item :| item in rest;
        FreeMeansClear(h, tradeItems, tradeItem, item);
        if tradeItem == item {
          return true;
        }
        HoldsNothing(S, tradeItem);
        HoldsNothing(S, item);
        if tradeItem.isContainer {
          var holding := IsHoldingItem(tradeItem, item, S);
          if holding {
            return true;
          }
        }
        if item.isContainer {
          var holding := IsHoldingItem(item, tradeItem, S);
          if holding {
            return true;
          }
        }
        rest := rest - {item};
      }
      ClearMeansFree(h, tradeItems, tradeItem);
      taken := false;
    }

    lemma SeatOf(p: nat)
      requires Known()
      ensures p in players <==> p in Desk().seats
      ensures p in players ==> players[p].id == p && players[p] in players.Values
      ensures Desk().offers == tradeItems
    {
    }

    /**
     A player asks another to trade for an item; `proper` and `allowed` stand for the checks of place, item and scripts.
     */
    method PlayerRequestTrade(playerId: nat, tradePlayerId: nat, tradeItem: Item?, proper: bool, allowed: bool,
                              ghost S: set<Item>)
      requires Known() && tradeItems.Keys <= S && Valid(HeapOf(S)) && (tradeItem != null ==> tradeItem in S)
      modifies this, players.Values
      ensures Known()
      ensures Desk() == Handle(HeapOf(S), old(Desk()),
                               Ask(playerId, tradePlayerId, Optional(tradeItem), proper, allowed))
      ensures RequestLaw(old(HeapOf(S)), old(Desk()), Desk(), playerId, tradePlayerId, Optional(tradeItem),
                         proper && allowed)
    {
      hide Valid, HeapOf, Within, Start, Free, Handle, Desk, Known, RequestLaw;
      RequestIsLawful(HeapOf(S), Desk(), playerId, tradePlayerId, Optional(tradeItem), proper, allowed);
      SeatOf(playerId);
      SeatOf(tradePlayerId);
      AskedFor(HeapOf(S), Desk(), playerId, tradePlayerId, Optional(tradeItem), proper, allowed);
      if playerId !in players || tradePlayerId !in players || playerId == tradePlayerId || tradeItem == null
          || !proper {
        return;
      }
      var item: Item := tradeItem;
      var taken := IsInTrade(item, S);
      if taken {
        return;
      }
      HoldsNothing(S, item);
      if item.isContainer {
        var count := GetItemHoldingCount(item, S);
        if count + 1 > TRADE_LIMIT {
          return;
        }
      }
      if !allowed {
        return;
      }
      InTheHeap(S, item);
      var started := InternalStartTrade(players[playerId], players[tradePlayerId], item);
    }

    method InternalStartTrade(player: Player, tradePartner: Player, tradeItem: Item) returns (started: bool)
      requires Known() && player in players.Values && tradePartner in players.Values && player != tradePartner
      modifies this, player, tradePartner
      ensures Known()
      ensures player.id in old(Desk()).seats && tradePartner.id in old(Desk()).seats
      ensures started == MayStart(old(Desk()), player.id, tradePartner.id)
      ensures Desk() == Start(old(Desk()), player.id, tradePartner.id, tradeItem)
    {
      hide Known, Desk;
      SeatsAre(player);
      SeatsAre(tradePartner);
      SameId(player, tradePartner);
      SameId(tradePartner, player.tradePartner);
      SameId(player, tradePartner.tradePartner);
      if player.tradeState != Idle && !(player.tradeState == Acknowledge && player.tradePartner == tradePartner) {
        return false;
      } else if tradePartner.tradeState != Idle && tradePartner.tradePartner != player {
        return false;
      }
      Sit(player, Initiated, tradePartner, tradeItem);
      PutOnTable(tradeItem, player);
      SeatsAre(tradePartner);
      if tradePartner.tradeState == Idle {
        Sit(tradePartner, Acknowledge, player, tradePartner.tradeItem);
      }
      return true;
    }

    method PutOnTable(item: Item, owner: Player)
      requires Known()
      modifies this
      ensures var d := old(Desk());
              Known() && Desk() == d.(offers := d.offers[item := owner.id], held := d.held + multiset{item})
    {
      held := held + multiset{item};
      tradeItems := tradeItems[item := owner.id];
    }

    /** The flags stand for line of sight and for scripts; the two item moves are not part of the desk. */
    method PlayerAcceptTrade(playerId: nat, canThrow: bool, allowed: bool) returns (ghost out: Outcome<Item>)
      requires Known()
      modifies this, players.Values
      ensures Known()
      ensures playerId in players ==>
                playerId in old(Desk()).seats && out == AcceptOutcome(old(Desk()), playerId, canThrow, allowed)
      ensures Desk() == Handle(map[], old(Desk()), Agree(playerId, canThrow, allowed))
      ensures playerId in players ==>
                playerId in old(Desk()).seats && AcceptLaw(old(Desk()), Desk(), playerId, canThrow, allowed, out)
      ensures playerId !in players ==> Desk() == old(Desk())
    {
      if playerId !in players {
        return Ignored;
      }
      hide AcceptLaw, Accepted, AcceptOutcome;
      ghost var d := Desk();
      out := Accepts(players[playerId], canThrow, allowed);
      AcceptIsLawful(d, playerId, canThrow, allowed);
    }

    method Accepts(player: Player, canThrow: bool, allowed: bool) returns (ghost out: Outcome<Item>)
      requires Known() && player in players.Values
      modifies this, players.Values
      ensures Known() && player.id in old(Desk()).seats
      ensures out == AcceptOutcome(old(Desk()), player.id, canThrow, allowed)
      ensures Desk() == Accepted(old(Desk()), player.id, canThrow, allowed)
    {
      hide Known, Desk, Close, Release;
      SeatsAre(player);
      if !(player.tradeState == Acknowledge || player.tradeState == Initiated) {
        return Ignored;
      }
      if player.tradePartner == null {
        return Ignored;
      }
      var tradePartner: Player := player.tradePartner;
      SameId(player, tradePartner);
      Sit(player, Accept, tradePartner, player.tradeItem);
      SeatsAre(tradePartner);
      if tradePartner.tradeState != Accept {
        return Recorded;
      }
      if !canThrow {
        InternalCloseTrade(player);
        return Cancelled;
      }
      var playerTradeItem, partnerTradeItem := player.tradeItem, tradePartner.tradeItem;
      if !allowed {
        InternalCloseTrade(player);
        return Cancelled;
      }
      out := Exchanged(Optional(playerTradeItem), Optional(partnerTradeItem));
      Exchange(player, tradePartner);
    }

    method Exchange(player: Player, tradePartner: Player)
      requires Known() && player in players.Values && tradePartner in players.Values
      modifies this, player, tradePartner
      ensures Known() && player.id in old(Desk()).seats && tradePartner.id in old(Desk()).seats
      ensures var d := old(Desk());
              var r := Release(Release(d, d.seats[player.id].item), d.seats[tradePartner.id].item);
              var idle := Seat(Idle, None, None);
              Desk() == r.(seats := r.seats[player.id := idle][tradePartner.id := idle])
    {
      hide Known, Desk, Release;
      ghost var d := Desk();
      SeatsAre(player);
      SeatsAre(tradePartner);
      var playerTradeItem, partnerTradeItem := player.tradeItem, tradePartner.tradeItem;
      Sit(player, Transfer, tradePartner, playerTradeItem);
      Sit(tradePartner, Transfer, player, partnerTradeItem);
      ghost var moving := Desk().seats;
      ReleaseIgnoresSeats(d, moving, Optional(playerTradeItem), Optional(partnerTradeItem));
      ReleaseOffer(playerTradeItem);
      ReleaseOffer(partnerTradeItem);
      Sit(player, Idle, null, null);
      Sit(tradePartner, Idle, null, null);
      SeatOverwritten(d.seats, player.id, moving[player.id], moving[tradePartner.id], tradePartner.id,
                      Seat(Idle, None, None), Seat(Idle, None, None));
    }

    method PlayerCloseTrade(playerId: nat)
      requires Known()
      modifies this, players.Values
      ensures Known() && Desk() == Handle(map[], old(Desk()), Cancel(playerId))
      ensures playerId in players ==> playerId in old(Desk()).seats && CloseLaw(old(Desk()), Desk(), playerId)
      ensures playerId !in players ==> Desk() == old(Desk())
    {
      if playerId !in players {
        return;
      }
      hide CloseLaw, Close;
      CloseIsLawful(Desk(), playerId);
      InternalCloseTrade(players[playerId]);
    }

    /** Ends a trade for both sides, unless its items are being moved. */
    method InternalCloseTrade(player: Player)
      requires Known() && player in players.Values
      modifies this, players.Values
      ensures Known() && player.id in old(Desk()).seats && Desk() == Close(old(Desk()), player.id)
    {
      hide Known, Desk, Vacate;
      SeatsAre(player);
      var tradePartner := player.tradePartner;
      if (tradePartner != null && tradePartner.tradeState == Transfer) || player.tradeState == Transfer {
        return;
      }
      Leave(player);
      if tradePartner != null {
        Leave(tradePartner);
      }
    }

    method Leave(player: Player)
      requires Known() && player in players.Values
      modifies this, player
      ensures Known() && player.id in old(Desk()).seats && Desk() == Vacate(old(Desk()), player.id)
      ensures Desk().seats.Keys == old(Desk()).seats.Keys
    {
      hide Known, Desk;
      SeatsAre(player);
      if player.tradeItem != null {
        ReleaseOffer(player.tradeItem);
      }
      Sit(player, Idle, null, null);
    }
  }

  /** One item does not stand in the way of trading another. */
  ghost predicate Clear<T>(h: Heap<T>, x: T, item: T) {
    x != item && x !in Within(h, item) && item !in Within(h, x)
  }

  lemma FreeMeansClear<T>(h: Heap<T>, offers: map<T, nat>, item: T, x: T)
    requires x in offers
    ensures Free(h, offers, item) ==> Clear(h, x, item)
  {
    hide Within;
  }

  lemma ClearMeansFree<T>(h: Heap<T>, offers: map<T, nat>, item: T)
    requires forall x | x in offers :: Clear(h, x, item)
    ensures Free(h, offers, item)
  {
    hide Within;
    forall x | x in offers ensures x != item && x !in Within(h, item) && item !in Within(h, x) {
      assert Clear(h, x, item);
    }
  }

  lemma ReleaseIgnoresSeat(d: Desk<Item>, seats: map<nat, Seat<Item>>, x: Option<Item>)
    ensures Release(d.(seats := seats), x) == Release(d, x).(seats := seats) && Release(d, x).seats == d.seats
  {
  }

  lemma ReleaseIgnoresSeats(d: Desk<Item>, seats: map<nat, Seat<Item>>, x: Option<Item>, y: Option<Item>)
    ensures Release(Release(d.(seats := seats), x), y) == Release(Release(d, x), y).(seats := seats)
    ensures Release(Release(d, x), y).seats == d.seats
  {
    hide Release;
    ReleaseIgnoresSeat(d, seats, x);
    ReleaseIgnoresSeat(Release(d, x), seats, y);
  }

  lemma SeatOverwritten(d: map<nat, Seat<Item>>, p: nat, s: Seat<Item>, t: Seat<Item>, q: nat, u: Seat<Item>,
                        v: Seat<Item>)
    requires p in d && q in d
    ensures d[p := s][q := t][p := u][q := v] == d[p := u][q := v]
  {
  }

  lemma HoldsNothing(S: set<Item>, x: Item)
    requires x in S && Valid(HeapOf(S))
    ensures !x.isContainer ==> Within(HeapOf(S), x) == {}
  {
    if !x.isContainer {
      OnlyContainersHold(S, x);
      EmptyHoldsNothing(HeapOf(S), x);
    }
  }

  /** What an offer does, in the order of the checks. */
  lemma AskedFor<T>(h: Heap<T>, d: TradeProtocol.Desk<T>, p: nat, q: nat, item: Option<T>, proper: bool, allowed: bool)
    ensures Handle(h, d, Ask(p, q, item, proper, allowed)) ==
            if proper && allowed && item.Some? && MayOffer(h, d, p, q, item.value) then Start(d, p, q, item.value)
                else d
  {
  }

  lemma InTheHeap(S: set<Item>, x: Item)
    requires x in S
    ensures x in HeapOf(S)
  {
  }

  lemma EmptyHoldsNothing<T>(h: Heap<T>, c: T)
    requires Valid(h) && c in h && h[c].contents == []
    ensures Within(h, c) == {}
  {
    hide Forest, Balanced;
    forall x | x in h && x != c
      ensures !Inside(Parents(h), x, c)
    {
      if Inside(Parents(h), x, c) {
        ChildOnTheWay(h, x, c);
      }
    }
  }

  /** Whatever lies inside a container lies inside one of its direct contents. */
  lemma ChildOnTheWay<T>(h: Heap<T>, x: T, c: T)
    requires Valid(h) && x in h && x != c && Inside(Parents(h), x, c)
    ensures c in h ==> h[c].contents != []
  {
    hide Forest, Balanced;
    var k: nat :| Up(Parents(h), Some(x), k) == Some(c);
    UpCompose(Parents(h), Some(x), k - 1, 1);
  }
}
