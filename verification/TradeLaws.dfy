/** When a trade starts, what an agreement leads to and what closing does, told from the seats and the table alone. */
module TradeLaws {
  import opened Options
  import opened ItemHeap
  import opened ContainerIterators
  import opened TradeProtocol

  /** Two players leave their seats, and what they offered leaves the table with its reference; all else stays. */
  ghost predicate BothLeave<T>(d: Desk<T>, e: Desk<T>, p: nat, q: nat)
    requires p in d.seats && q in d.seats
  {
    && e.seats.Keys == d.seats.Keys && e.seats[p] == Seat(Idle, None, None) && e.seats[q] == Seat(Idle, None, None)
    && (forall x | x in d.seats && x != p && x != q :: e.seats[x] == d.seats[x])
    && TableWithout(d, e, d.seats[p].item, d.seats[q].item)
  }

  /** The table without two items, and without the references it had for those that lay on it. */
  ghost predicate TableWithout<T>(d: Desk<T>, e: Desk<T>, a: Option<T>, b: Option<T>) {
    && (forall x | x in e.offers :: x in d.offers && e.offers[x] == d.offers[x])
    && (forall x | x in d.offers :: x in e.offers <==> Some(x) != a && Some(x) != b)
    && e.held <= d.held
    && (forall x | x in d.held ::
          e.held[x] == d.held[x] - if x in d.offers && (Some(x) == a || Some(x) == b) then 1 else 0)
  }

  // ----- Offering

  /**
   An offer is taken exactly when the player is free or answers this partner, and the partner is free or trades with the
   player. Then the item is on the table with one reference, and a partner who was free has to answer.
   */
  ghost predicate StartLaw<T>(d: Desk<T>, e: Desk<T>, p: nat, q: nat, item: T, started: bool)
    requires p in d.seats && q in d.seats
  {
    && (started <==>
          && (d.seats[p].state == Idle || (d.seats[p].state == Acknowledge && d.seats[p].partner == Some(q)))
          && (d.seats[q].state == Idle || d.seats[q].partner == Some(p)))
    && (!started ==> e == d)
    && (started ==>
          && e.seats.Keys == d.seats.Keys && e.seats[p] == Seat(Initiated, Some(q), Some(item))
          && (forall x | x in d.seats && x != p && x != q :: e.seats[x] == d.seats[x])
          && e.seats[q].item == d.seats[q].item && e.seats[q].partner == Some(p)
          && e.seats[q].state == (if d.seats[q].state == Idle then Acknowledge else d.seats[q].state)
          && e.offers.Keys == d.offers.Keys + {item}
          && (forall x | x in e.offers ::
                if x == item then e.offers[x] == p else (x in d.offers && e.offers[x] == d.offers[x]))
          && e.held == d.held + multiset{item})
  }

  lemma StartIsLawful<T>(d: Desk<T>, p: nat, q: nat, item: T)
    requires p in d.seats && q in d.seats && p != q
    ensures StartLaw(d, Start(d, p, q, item), p, q, item, MayStart(d, p, q))
  {
  }

  /**
   A request to trade is passed on when both players are there, the item is free, it holds at most 99 others and the
   checks allow it. An item is free when nothing on the table is the item, lies in it or holds it.
   */
  ghost predicate RequestLaw<T>(h: Heap<T>, d: Desk<T>, e: Desk<T>, p: nat, q: nat, item: Option<T>, permitted: bool) {
    if permitted && p in d.seats && q in d.seats && p != q && item.Some? && item.value in h
       && (forall x | x in d.offers :: x != item.value && x !in Within(h, item.value) && item.value !in Within(h, x))
       && |Within(h, item.value)| <= 99
    then StartLaw(d, e, p, q, item.value, e != d)
    else e == d
  }

  lemma RequestIsLawful<T>(h: Heap<T>, d: Desk<T>, p: nat, q: nat, item: Option<T>, proper: bool, allowed: bool)
    ensures RequestLaw(h, d, Handle(h, d, Ask(p, q, item, proper, allowed)), p, q, item, proper && allowed)
  {
    hide Within, StartLaw;
    if p in d.seats && q in d.seats && p != q && item.Some? && item.value in h {
      StartIsLawful(d, p, q, item.value);
      if MayStart(d, p, q) {
        StartShows(d, p, q, item.value);
      }
    }
  }

  lemma StartShows<T>(d: Desk<T>, p: nat, q: nat, item: T)
    requires p in d.seats && q in d.seats && p != q && MayStart(d, p, q)
    ensures Start(d, p, q, item) != d
  {
    assert Start(d, p, q, item).held[item] == d.held[item] + 1;
  }

  // ----- Agreeing

  /** Whether a player is asked for an agreement, and has a partner. */
  predicate Asked<T>(d: Desk<T>, p: nat)
    requires p in d.seats
  {
    && d.seats[p].state in {Acknowledge, Initiated}
    && d.seats[p].partner.Some? && d.seats[p].partner.value in d.seats
  }

  /** Whether the partner has agreed before. */
  predicate PartnerAgreed<T>(d: Desk<T>, p: nat)
    requires p in d.seats && Asked(d, p)
  {
    d.seats[p].partner == Some(p) || d.seats[d.seats[p].partner.value].state == Accept
  }

  /**
   The items change hands exactly when a player who is asked agrees, the partner has agreed before, they can throw to
   each other and the scripts allow it. It is cancelled when one of the last two fails, and recorded when the partner
   has not agreed yet.
   */
  ghost predicate AcceptLaw<T>(d: Desk<T>, e: Desk<T>, p: nat, canThrow: bool, allowed: bool, out: Outcome<T>)
    requires p in d.seats
  {
    && (out.Exchanged? <==> Asked(d, p) && PartnerAgreed(d, p) && canThrow && allowed)
    && (out.Cancelled? <==> Asked(d, p) && PartnerAgreed(d, p) && (!canThrow || !allowed))
    && (out.Recorded? <==> Asked(d, p) && !PartnerAgreed(d, p))
    && (out.Exchanged? ==>
          out.mine == d.seats[p].item && out.theirs == d.seats[d.seats[p].partner.value].item)
    && (out.Exchanged? || out.Cancelled? ==> BothLeave(d, e, p, d.seats[p].partner.value))
    && (out.Recorded? ==> e == d.(seats := d.seats[p := Seat(Accept, d.seats[p].partner, d.seats[p].item)]))
    && (out.Ignored? ==> e == d)
  }

  lemma AcceptIsLawful<T>(d: Desk<T>, p: nat, canThrow: bool, allowed: bool)
    requires p in d.seats
    ensures AcceptLaw(d, Accepted(d, p, canThrow, allowed), p, canThrow, allowed,
                      AcceptOutcome(d, p, canThrow, allowed))
  {
    hide BothLeave, Close, Release;
    if Asked(d, p) && PartnerAgreed(d, p) {
      var q := d.seats[p].partner.value;
      var marked := d.(seats := d.seats[p := d.seats[p].(state := Accept)]);
      if canThrow && allowed {
        ReleasedLeave(d, marked, p, q);
      } else {
        ClosedLeave(d, marked, p, q);
      }
    }
  }

  lemma ReleasedLeave<T>(d: Desk<T>, m: Desk<T>, p: nat, q: nat)
    requires p in d.seats && q in d.seats
    requires m == d.(seats := d.seats[p := d.seats[p].(state := Accept)])
    ensures var r := Release(Release(m, d.seats[p].item), d.seats[q].item);
            BothLeave(d, r.(seats := r.seats[p := Seat(Idle, None, None)][q := Seat(Idle, None, None)]), p, q)
  {
    hide Release, TableWithout;
    var s := Release(m, d.seats[p].item);
    var r := Release(s, d.seats[q].item);
    TakenOff(m, d.seats[p].item);
    TakenOff(s, d.seats[q].item);
    WithoutTwice(m, s, r, d.seats[p].item, d.seats[q].item);
    SameTable(m, d, r, r.(seats := r.seats[p := Seat(Idle, None, None)][q := Seat(Idle, None, None)]),
              d.seats[p].item, d.seats[q].item);
  }

  lemma TakenOff<T>(d: Desk<T>, a: Option<T>)
    ensures TableWithout(d, Release(d, a), a, a) && Release(d, a).seats == d.seats
  {
  }

  lemma WithoutTwice<T>(d: Desk<T>, s: Desk<T>, r: Desk<T>, a: Option<T>, b: Option<T>)
    requires TableWithout(d, s, a, a) && TableWithout(s, r, b, b)
    ensures TableWithout(d, r, a, b)
  {
    forall x | x in d.held
      ensures r.held[x] == d.held[x] - if x in d.offers && (Some(x) == a || Some(x) == b) then 1 else 0
    {
      if x !in s.held {
        assert s.held[x] == 0 && r.held[x] <= s.held[x];
      }
    }
  }

  lemma SameTable<T>(d: Desk<T>, d': Desk<T>, e: Desk<T>, e': Desk<T>, a: Option<T>, b: Option<T>)
    requires TableWithout(d, e, a, b) && d'.offers == d.offers && d'.held == d.held
    requires e'.offers == e.offers && e'.held == e.held
    ensures TableWithout(d', e', a, b)
  {
  }

  lemma ClosedLeave<T>(d: Desk<T>, m: Desk<T>, p: nat, q: nat)
    requires p in d.seats && q in d.seats && d.seats[p].partner == Some(q) && (p == q || d.seats[q].state != Transfer)
    requires m == d.(seats := d.seats[p := d.seats[p].(state := Accept)])
    ensures BothLeave(d, Close(m, p), p, q)
  {
    CloseLeaves(m, p);
  }

  // ----- Closing

  /** A trade is closed for both players, unless one of them is being served. */
  ghost predicate CloseLaw<T>(d: Desk<T>, e: Desk<T>, p: nat)
    requires p in d.seats
  {
    var partner := d.seats[p].partner;
    var q := if partner.Some? && partner.value in d.seats then partner.value else p;
    if d.seats[p].state == Transfer || d.seats[q].state == Transfer then e == d else BothLeave(d, e, p, q)
  }

  lemma CloseIsLawful<T>(d: Desk<T>, p: nat)
    requires p in d.seats
    ensures CloseLaw(d, Close(d, p), p)
  {
    if !InTransfer(d, p) {
      CloseLeaves(d, p);
    }
  }

  lemma CloseLeaves<T>(d: Desk<T>, p: nat)
    requires p in d.seats && !InTransfer(d, p)
    ensures var partner := d.seats[p].partner;
            BothLeave(d, Close(d, p), p, if partner.Some? && partner.value in d.seats then partner.value else p)
  {
    hide Release, TableWithout;
    var partner := d.seats[p].partner;
    var r := Release(d, d.seats[p].item);
    var left := Vacate(d, p);
    TakenOff(d, d.seats[p].item);
    SameTable(d, d, r, left, d.seats[p].item, d.seats[p].item);
    if partner.Some? && partner.value in d.seats {
      var q := partner.value;
      var s := Release(left, left.seats[q].item);
      TakenOff(left, left.seats[q].item);
      SameTable(left, left, s, Vacate(left, q), left.seats[q].item, left.seats[q].item);
      WithoutTwice(d, left, Vacate(left, q), d.seats[p].item, left.seats[q].item);
      if p == q {
        NothingMore(d, Vacate(left, q), d.seats[p].item);
      }
    }
  }

  lemma NothingMore<T>(d: Desk<T>, e: Desk<T>, a: Option<T>)
    requires TableWithout(d, e, a, None)
    ensures TableWithout(d, e, a, a)
  {
  }
}
