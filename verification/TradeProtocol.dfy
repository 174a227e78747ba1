/** The trade between two players: what each request does to their seats and to the table of offered items. */
module TradeProtocol {
  import opened Options
  import opened Ancestry
  import opened ItemHeap
  import opened ContainerIterators

  datatype TradeState = Idle | Initiated | Accept | Acknowledge | Transfer

  datatype Seat<T> = Seat(state: TradeState, partner: Option<nat>, item: Option<T>)

  /** The seats by player id, the offered items with their owners, and the references taken on items. */
  datatype Desk<T> = Desk(seats: map<nat, Seat<T>>, offers: map<T, nat>, held: multiset<T>)

  const TRADE_LIMIT := 100

  // ----- The requests

  /** An offered item leaves the table and its reference is given back. */
  function Release<T>(d: Desk<T>, item: Option<T>): Desk<T> {
    if item.Some? && item.value in d.offers
    then d.(offers := d.offers - {item.value}, held := d.held - multiset{item.value})
    else d
  }

  predicate MayStart<T>(d: Desk<T>, p: nat, q: nat)
    requires p in d.seats && q in d.seats
  {
    && (d.seats[p].state == Idle || (d.seats[p].state == Acknowledge && d.seats[p].partner == Some(q)))
    && (d.seats[q].state == Idle || d.seats[q].partner == Some(p))
  }

  function Start<T>(d: Desk<T>, p: nat, q: nat, item: T): Desk<T>
    requires p in d.seats && q in d.seats
  {
    if !MayStart(d, p, q) then d
    else
      var asked := d.seats[p := Seat(Initiated, Some(q), Some(item))];
      var answer := if asked[q].state == Idle then asked[q].(state := Acknowledge, partner := Some(p)) else asked[q];
      Desk(asked[q := answer], d.offers[item := p], d.held + multiset{item})
  }

  /** No offered item is the item, lies inside it or holds it. */
  ghost predicate Free<T>(h: Heap<T>, offers: map<T, nat>, item: T) {
    forall x | x in offers :: x != item && x !in Within(h, item) && item !in Within(h, x)
  }

  ghost predicate MayOffer<T>(h: Heap<T>, d: Desk<T>, p: nat, q: nat, item: T) {
    && p in d.seats && q in d.seats && p != q && item in h
    && Free(h, d.offers, item) && |Within(h, item)| + 1 <= TRADE_LIMIT
  }

  function Vacate<T>(d: Desk<T>, p: nat): Desk<T>
    requires p in d.seats
  {
    var r := Release(d, d.seats[p].item);
    r.(seats := r.seats[p := Seat(Idle, None, None)])
  }

  predicate InTransfer<T>(d: Desk<T>, p: nat)
    requires p in d.seats
  {
    || d.seats[p].state == Transfer
    || (d.seats[p].partner.Some? && d.seats[p].partner.value in d.seats
        && d.seats[d.seats[p].partner.value].state == Transfer)
  }

  function Close<T>(d: Desk<T>, p: nat): Desk<T>
    requires p in d.seats
  {
    if InTransfer(d, p) then d
    else
      var partner := d.seats[p].partner;
      var left := Vacate(d, p);
      if partner.Some? && partner.value in left.seats then Vacate(left, partner.value) else left
  }

  datatype Outcome<T> = Ignored | Recorded | Cancelled | Exchanged(mine: Option<T>, theirs: Option<T>)

  function AcceptOutcome<T>(d: Desk<T>, p: nat, canThrow: bool, allowed: bool): Outcome<T>
    requires p in d.seats
  {
    var mine := d.seats[p];
    if !((mine.state == Acknowledge || mine.state == Initiated) && mine.partner.Some? && mine.partner.value in d.seats)
        then Ignored
    else
      var theirs := d.seats[p := mine.(state := Accept)][mine.partner.value];
      if theirs.state != Accept then Recorded
      else if canThrow && allowed then Exchanged(mine.item, theirs.item)
      else Cancelled
  }

  function Accepted<T>(d: Desk<T>, p: nat, canThrow: bool, allowed: bool): Desk<T>
    requires p in d.seats
  {
    var marked := d.(seats := d.seats[p := d.seats[p].(state := Accept)]);
    match AcceptOutcome(d, p, canThrow, allowed)
    case Ignored => d
    case Recorded => marked
    case Cancelled => Close(marked, p)
    case Exchanged(mine, theirs) =>
      var r := Release(Release(marked, mine), theirs);
      r.(seats := r.seats[p := Seat(Idle, None, None)][d.seats[p].partner.value := Seat(Idle, None, None)])
  }

  // ----- What holds between requests

  predicate SeatFits<T>(s: Seat<T>) {
    && s.state != Transfer && (s.state == Idle <==> s.partner == None)
    && (s.state == Idle || s.state == Acknowledge ==> s.item == None)
    && (s.state == Initiated ==> s.item.Some?)
  }

  /** Partners are never both waiting, never both agreed, and at least one of them offers something. */
  predicate PairFits<T>(s: Seat<T>, t: Seat<T>) {
    && !(s.state == Acknowledge && t.state == Acknowledge)
    && !(s.state == Accept && t.state == Accept)
    && (s.item.Some? || t.item.Some?)
  }

  predicate Paired<T>(seats: map<nat, Seat<T>>, p: nat)
    requires p in seats
  {
    && SeatFits(seats[p])
    && match seats[p].partner
       case None => true
       case Some(q) => q in seats && q != p && seats[q].partner == Some(p) && PairFits(seats[p], seats[q])
  }

  predicate AllPaired<T>(seats: map<nat, Seat<T>>) {
    forall p | p in seats :: Paired(seats, p)
  }

  /** The table holds exactly the offered items, each with its owner and one reference. */
  predicate Booked<T>(d: Desk<T>) {
    && (forall p | p in d.seats && d.seats[p].item.Some? ::
          d.seats[p].item.value in d.offers && d.offers[d.seats[p].item.value] == p)
    && (forall x | x in d.offers :: d.offers[x] in d.seats && d.seats[d.offers[x]].item == Some(x))
    && d.held == multiset(d.offers.Keys)
  }

  /** No offered item lies inside another, and none is too large. */
  ghost predicate Apart<T>(h: Heap<T>, offers: map<T, nat>) {
    forall x | x in offers ::
      x in h && |Within(h, x)| + 1 <= TRADE_LIMIT && forall y | y in offers :: x !in Within(h, y)
  }

  ghost predicate Orderly<T>(h: Heap<T>, d: Desk<T>) {
    AllPaired(d.seats) && Booked(d) && Apart(h, d.offers)
  }

  // ----- Every request keeps it

  lemma PairedAt<T>(seats: map<nat, Seat<T>>, p: nat)
    requires AllPaired(seats) && p in seats
    ensures Paired(seats, p)
  {
  }

  lemma BookedAt<T>(d: Desk<T>, p: nat)
    requires Booked(d) && p in d.seats
    ensures d.seats[p].item.Some? ==>
              d.seats[p].item.value in d.offers && d.offers[d.seats[p].item.value] == p
  {
  }

  lemma VacateKeepsPlayers<T>(d: Desk<T>, p: nat)
    requires p in d.seats
    ensures Vacate(d, p).seats.Keys == d.seats.Keys
  {
  }

  lemma StartPairs<T>(d: Desk<T>, p: nat, q: nat, item: T)
    requires AllPaired(d.seats) && p in d.seats && q in d.seats && p != q
    ensures AllPaired(Start(d, p, q, item).seats)
  {
    if MayStart(d, p, q) {
      var e := Start(d, p, q, item).seats;
      assert Paired(d.seats, p) && Paired(d.seats, q);
      assert e[p].partner == Some(q) && e[q].partner == Some(p);
      assert d.seats[q].partner == None || d.seats[q].partner == Some(p);
      forall x | x in e ensures Paired(e, x) {
        assert Paired(d.seats, x);
        if x != p && x != q {
          assert e[x] == d.seats[x];
        }
      }
    }
  }

  lemma OfferGrows<T>(offers: map<T, nat>, item: T, p: nat)
    requires item !in offers
    ensures multiset(offers[item := p].Keys) == multiset(offers.Keys) + multiset{item}
  {
    assert offers[item := p].Keys == offers.Keys + {item};
  }

  lemma StartBooks<T>(d: Desk<T>, p: nat, q: nat, item: T)
    requires Booked(d) && p in d.seats && q in d.seats && p != q && item !in d.offers
    requires d.seats[p].item.Some? ==> !MayStart(d, p, q)
    ensures Booked(Start(d, p, q, item))
  {
    if MayStart(d, p, q) {
      var e := Start(d, p, q, item);
      OfferGrows(d.offers, item, p);
      assert forall x | x in e.seats && x != p :: e.seats[x].item == d.seats[x].item;
    }
  }

  lemma StartKeepsOrder<T>(h: Heap<T>, d: Desk<T>, p: nat, q: nat, item: T)
    requires Orderly(h, d) && MayOffer(h, d, p, q, item)
    ensures Orderly(h, Start(d, p, q, item))
  {
    hide Within, Booked, AllPaired;
    StartPairs(d, p, q, item);
    PairedAt(d.seats, p);
    assert item !in d.offers;
    StartBooks(d, p, q, item);
    NotInItself(h, item);
    assert forall x | x in Start(d, p, q, item).offers :: x in d.offers || x == item;
  }

  lemma NotInItself<T>(h: Heap<T>, x: T)
    ensures x !in Within(h, x)
  {
  }

  /** The offers of all players but these. */
  function Remaining<T>(offers: map<T, nat>, pair: set<nat>): map<T, nat> {
    map y | y in offers && offers[y] !in pair :: offers[y]
  }

  lemma ReleaseOne<T>(d: Desk<T>, p: nat)
    requires Booked(d) && p in d.seats
    ensures var r := Release(d, d.seats[p].item);
            r == Desk(d.seats, Remaining(d.offers, {p}), multiset(Remaining(d.offers, {p}).Keys))
  {
    var keep := Remaining(d.offers, {p});
    match d.seats[p].item
    case None =>
      assert keep == d.offers;
    case Some(x) =>
      assert keep == d.offers - {x};
      assert keep.Keys == d.offers.Keys - {x};
  }

  /** The desk without the trade of some players. */
  function Cleared<T>(d: Desk<T>, pair: set<nat>): Desk<T> {
    var keep := Remaining(d.offers, pair);
    Desk(map x | x in d.seats :: if x in pair then Seat(Idle, None, None) else d.seats[x], keep, multiset(keep.Keys))
  }

  lemma VacateClears<T>(d: Desk<T>, p: nat)
    requires Booked(d) && p in d.seats
    ensures Vacate(d, p) == Cleared(d, {p}) && Booked(Vacate(d, p))
  {
    ReleaseOne(d, p);
    assert Vacate(d, p).seats == Cleared(d, {p}).seats;
  }

  lemma ClearTwice<T>(d: Desk<T>, p: nat, q: nat)
    requires p in d.seats && q in d.seats
    ensures Cleared(Cleared(d, {p}), {q}) == Cleared(d, {p, q})
  {
    assert Cleared(Cleared(d, {p}), {q}).seats == Cleared(d, {p, q}).seats;
    assert Remaining(Remaining(d.offers, {p}), {q}) == Remaining(d.offers, {p, q});
  }

  /** The players of a trade. */
  function Pair<T>(d: Desk<T>, p: nat): set<nat>
    requires p in d.seats
  {
    {p} + if d.seats[p].partner.Some? then {d.seats[p].partner.value} else {}
  }

  /** Closing a trade empties both seats and takes exactly their items off the table. */
  lemma CloseClears<T>(d: Desk<T>, p: nat)
    requires Booked(d) && p in d.seats && !InTransfer(d, p)
    requires d.seats[p].partner.Some? ==> d.seats[p].partner.value in d.seats
    ensures Close(d, p) == Cleared(d, Pair(d, p))
  {
    hide Booked, Vacate, Cleared;
    VacateClears(d, p);
    VacateKeepsPlayers(d, p);
    match d.seats[p].partner
    case None =>
      assert Pair(d, p) == {p};
    case Some(q) =>
      VacateClears(Vacate(d, p), q);
      ClearTwice(d, p, q);
      assert Pair(d, p) == {p, q};
  }

  lemma ClearedPairs<T>(d: Desk<T>, p: nat)
    requires AllPaired(d.seats) && p in d.seats
    ensures AllPaired(Cleared(d, Pair(d, p)).seats)
  {
    var e := Cleared(d, Pair(d, p)).seats;
    assert Paired(d.seats, p);
    forall x | x in e ensures Paired(e, x) {
      assert Paired(d.seats, x);
      if d.seats[x].partner.Some? {
        assert Paired(d.seats, d.seats[x].partner.value);
      }
    }
  }

  lemma ClearedBooks<T>(d: Desk<T>, pair: set<nat>)
    requires Booked(d)
    ensures Booked(Cleared(d, pair))
  {
  }

  lemma ClearedKeepsOrder<T>(h: Heap<T>, d: Desk<T>, p: nat)
    requires Orderly(h, d) && p in d.seats
    ensures Orderly(h, Cleared(d, Pair(d, p)))
  {
    hide Within, Booked, AllPaired;
    ClearedPairs(d, p);
    ClearedBooks(d, Pair(d, p));
  }

  lemma CloseKeepsOrder<T>(h: Heap<T>, d: Desk<T>, p: nat)
    requires Orderly(h, d) && p in d.seats
    ensures Close(d, p) == Cleared(d, Pair(d, p)) && Orderly(h, Close(d, p))
  {
    hide Booked, Within, Cleared, Close;
    assert Paired(d.seats, p);
    if d.seats[p].partner.Some? {
      assert Paired(d.seats, d.seats[p].partner.value);
    }
    CloseClears(d, p);
    ClearedKeepsOrder(h, d, p);
  }

  function Marked<T>(d: Desk<T>, p: nat): Desk<T>
    requires p in d.seats
  {
    d.(seats := d.seats[p := d.seats[p].(state := Accept)])
  }

  lemma MarkedPairs<T>(d: Desk<T>, p: nat)
    requires AllPaired(d.seats) && p in d.seats && d.seats[p].partner.Some?
    requires d.seats[p].partner.value in d.seats ==> d.seats[d.seats[p].partner.value].state != Accept
    ensures AllPaired(Marked(d, p).seats)
  {
    var e := Marked(d, p).seats;
    assert Paired(d.seats, p);
    forall x | x in e ensures Paired(e, x) {
      assert Paired(d.seats, x);
    }
  }

  lemma MarkedClears<T>(d: Desk<T>, p: nat)
    requires p in d.seats
    ensures Pair(Marked(d, p), p) == Pair(d, p)
    ensures Cleared(Marked(d, p), Pair(d, p)) == Cleared(d, Pair(d, p))
  {
    var a, b := Cleared(Marked(d, p), Pair(d, p)).seats, Cleared(d, Pair(d, p)).seats;
    assert p in Pair(d, p);
    assert a.Keys == d.seats.Keys == b.Keys;
    assert forall x | x in a :: a[x] == b[x];
    assert a == b;
  }

  lemma MarkedBooks<T>(d: Desk<T>, p: nat)
    requires Booked(d) && p in d.seats
    ensures Booked(Marked(d, p))
  {
    var e := Marked(d, p);
    assert forall x | x in e.seats :: e.seats[x].item == d.seats[x].item;
  }

  lemma ExchangeClears<T>(d: Desk<T>, p: nat, q: nat)
    requires Booked(d) && p in d.seats && q in d.seats && p != q && d.seats[p].partner == Some(q)
    ensures var r := Release(Release(d, d.seats[p].item), d.seats[q].item);
            r.(seats := r.seats[p := Seat(Idle, None, None)][q := Seat(Idle, None, None)]) == Cleared(d, Pair(d, p))
  {
    hide Cleared;
    VacateClears(d, p);
    VacateClears(Vacate(d, p), q);
    ClearTwice(d, p, q);
    assert Pair(d, p) == {p, q};
    var r := Release(Release(d, d.seats[p].item), d.seats[q].item);
    assert Vacate(Vacate(d, p), q) == r.(seats := r.seats[p := Seat(Idle, None, None)][q := Seat(Idle, None, None)]);
  }

  /** Agreeing is recorded, or it ends the trade for both: with an exchange only after the partner has agreed too. */
  lemma AcceptKeepsOrder<T>(h: Heap<T>, d: Desk<T>, p: nat, canThrow: bool, allowed: bool)
    requires Orderly(h, d) && p in d.seats
    ensures Orderly(h, Accepted(d, p, canThrow, allowed))
    ensures match AcceptOutcome(d, p, canThrow, allowed)
            case Ignored => Accepted(d, p, canThrow, allowed) == d
            case Recorded => Accepted(d, p, canThrow, allowed) == Marked(d, p)
            case Cancelled => Accepted(d, p, canThrow, allowed) == Cleared(d, Pair(d, p))
            case Exchanged(mine, theirs) =>
              && Accepted(d, p, canThrow, allowed) == Cleared(d, Pair(d, p))
              && mine == d.seats[p].item && d.seats[p].partner.Some?
              && var q := d.seats[p].partner.value;
              && d.seats[q].state == Accept && theirs == d.seats[q].item
              && (mine.Some? ==> mine.value in d.offers && d.offers[mine.value] == p)
              && (theirs.Some? ==> theirs.value in d.offers && d.offers[theirs.value] == q)
              && (mine.Some? || theirs.Some?) && (mine.Some? && theirs.Some? ==> mine != theirs)
  {
    hide Within, Cleared, Close, Booked, AllPaired;
    var out := AcceptOutcome(d, p, canThrow, allowed);
    PairedAt(d.seats, p);
    MarkedClears(d, p);
    MarkedBooks(d, p);
    if out == Recorded {
      MarkedPairs(d, p);
    } else if out != Ignored {
      ClearedKeepsOrder(h, d, p);
      var q := d.seats[p].partner.value;
      PairedAt(d.seats, q);
      if out == Cancelled {
        CloseClears(Marked(d, p), p);
      } else {
        ExchangeClears(Marked(d, p), p, q);
        BookedAt(d, p);
        BookedAt(d, q);
      }
    }
  }

  /** The stages a trade between two players can be in, seen from the one or the other. */
  lemma TradeStages<T>(h: Heap<T>, d: Desk<T>, p: nat)
    requires Orderly(h, d) && p in d.seats && d.seats[p].partner.Some?
    ensures var s, t := d.seats[p], d.seats[d.seats[p].partner.value];
            || (s.state == Initiated && t.state in {Initiated, Acknowledge, Accept})
            || (t.state == Initiated && s.state in {Initiated, Acknowledge, Accept})
            || (s.state == Accept && s.item.Some? && t.state == Acknowledge)
            || (t.state == Accept && t.item.Some? && s.state == Acknowledge)
  {
    assert Paired(d.seats, p) && Paired(d.seats, d.seats[p].partner.value);
  }

  // ----- Whole runs

  /** What a player asks for; the flags are what range checks, item checks and scripts decide. */
  datatype Request<T> =
    | Ask(player: nat, partner: nat, item: Option<T>, proper: bool, allowed: bool)
    | Agree(player: nat, canThrow: bool, allowed: bool)
    | Cancel(player: nat)

  ghost function Handle<T>(h: Heap<T>, d: Desk<T>, r: Request<T>): Desk<T> {
    match r
    case Ask(p, q, item, proper, allowed) =>
      if proper && allowed && item.Some? && MayOffer(h, d, p, q, item.value) then Start(d, p, q, item.value) else d
    case Agree(p, canThrow, allowed) =>
      if p in d.seats then Accepted(d, p, canThrow, allowed) else d
    case Cancel(p) =>
      if p in d.seats then Close(d, p) else d
  }

  ghost function Run<T>(h: Heap<T>, d: Desk<T>, rs: seq<Request<T>>): Desk<T>
    decreases |rs|
  {
    if rs == [] then d else Run(h, Handle(h, d, rs[0]), rs[1..])
  }

  function NoTrades<T>(players: set<nat>): Desk<T> {
    Desk(map p | p in players :: Seat(Idle, None, None), map[], multiset{})
  }

  lemma HandleKeepsOrder<T>(h: Heap<T>, d: Desk<T>, r: Request<T>)
    requires Orderly(h, d)
    ensures Orderly(h, Handle(h, d, r))
  {
    hide Orderly, MayOffer, Start, Accepted, Close;
    match r
    case Ask(p, q, item, proper, allowed) =>
      if proper && allowed && item.Some? && MayOffer(h, d, p, q, item.value) {
        StartKeepsOrder(h, d, p, q, item.value);
      }
    case Agree(p, canThrow, allowed) =>
      if p in d.seats {
        AcceptKeepsOrder(h, d, p, canThrow, allowed);
      }
    case Cancel(p) =>
      if p in d.seats {
        CloseKeepsOrder(h, d, p);
      }
  }

  lemma {:induction false} RunKeepsOrder<T>(h: Heap<T>, d: Desk<T>, rs: seq<Request<T>>)
    requires Orderly(h, d)
    ensures Orderly(h, Run(h, d, rs))
    decreases |rs|
  {
    if rs != [] {
      HandleKeepsOrder(h, d, rs[0]);
      RunKeepsOrder(h, Handle(h, d, rs[0]), rs[1..]);
    }
  }

  /** From the start of the server on, every state between two requests is orderly. */
  lemma EveryRunIsOrderly<T>(h: Heap<T>, players: set<nat>, rs: seq<Request<T>>)
    ensures Orderly(h, Run(h, NoTrades(players), rs))
  {
    RunKeepsOrder(h, NoTrades(players), rs);
  }

  // ----- What a player has agreed to

  /**
   What a player saw when agreeing: what the partner had on the table,
   and whether the partner was still waiting to answer.
   */
  datatype Consent<T> = Consent(shown: Option<T>, waiting: bool)

  /** Records an agreement when it is given. */
  function Witnessed<T>(d: Desk<T>, cs: map<nat, Consent<T>>, r: Request<T>): map<nat, Consent<T>> {
    if r.Agree? && r.player in d.seats && AcceptOutcome(d, r.player, r.canThrow, r.allowed) != Ignored then
      var q := d.seats[r.player].partner.value;
      cs[r.player := Consent(d.seats[q].item, d.seats[q].state == Acknowledge)]
    else cs
  }

  /** The agreements given during a run. */
  ghost function Consents<T>(h: Heap<T>, d: Desk<T>, cs: map<nat, Consent<T>>, rs: seq<Request<T>>)
    : map<nat, Consent<T>>
    decreases |rs|
  {
    if rs == [] then cs else Consents(h, Handle(h, d, rs[0]), Witnessed(d, cs, rs[0]), rs[1..])
  }

  /** Whoever has agreed saw what lies there now, unless the partner had not answered yet. */
  predicate ConsentStands<T>(d: Desk<T>, cs: map<nat, Consent<T>>, q: nat)
    requires q in d.seats
  {
    d.seats[q].state == Accept && d.seats[q].partner.Some? && d.seats[q].partner.value in d.seats ==>
      && q in cs
      && var t := d.seats[d.seats[q].partner.value];
      && (t.state == Acknowledge ==> cs[q].waiting)
      && cs[q].shown == if cs[q].waiting then None else t.item
  }

  predicate ConsentsStand<T>(d: Desk<T>, cs: map<nat, Consent<T>>) {
    forall q | q in d.seats :: ConsentStands(d, cs, q)
  }

  lemma StartKeepsConsents<T>(d: Desk<T>, cs: map<nat, Consent<T>>, p: nat, q: nat, item: T)
    requires AllPaired(d.seats) && ConsentsStand(d, cs) && p in d.seats && q in d.seats && p != q
    ensures ConsentsStand(Start(d, p, q, item), cs)
  {
    if MayStart(d, p, q) {
      var e := Start(d, p, q, item);
      assert Paired(d.seats, p) && Paired(d.seats, q);
      forall x | x in e.seats ensures ConsentStands(e, cs, x) {
        assert Paired(d.seats, x) && ConsentStands(d, cs, x);
      }
    }
  }

  lemma ClearedKeepsConsents<T>(d: Desk<T>, cs: map<nat, Consent<T>>, p: nat, cs': map<nat, Consent<T>>)
    requires AllPaired(d.seats) && ConsentsStand(d, cs) && p in d.seats
    requires forall x | x in cs && x != p :: x in cs' && cs'[x] == cs[x]
    ensures ConsentsStand(Cleared(d, Pair(d, p)), cs')
  {
    var e := Cleared(d, Pair(d, p));
    assert Paired(d.seats, p);
    forall x | x in e.seats ensures ConsentStands(e, cs', x) {
      assert Paired(d.seats, x) && ConsentStands(d, cs, x);
      if d.seats[x].partner.Some? {
        assert Paired(d.seats, d.seats[x].partner.value);
      }
    }
  }

  lemma MarkedKeepsConsents<T>(d: Desk<T>, cs: map<nat, Consent<T>>, p: nat, q: nat)
    requires AllPaired(d.seats) && ConsentsStand(d, cs) && p in d.seats && d.seats[p].partner == Some(q) && q in d.seats
    requires d.seats[q].state != Accept
    ensures ConsentsStand(Marked(d, p), cs[p := Consent(d.seats[q].item, d.seats[q].state == Acknowledge)])
  {
    var e := Marked(d, p);
    var cs' := cs[p := Consent(d.seats[q].item, d.seats[q].state == Acknowledge)];
    assert Paired(d.seats, p) && Paired(d.seats, q);
    forall x | x in e.seats ensures ConsentStands(e, cs', x) {
      assert Paired(d.seats, x) && ConsentStands(d, cs, x);
    }
  }

  lemma HandleKeepsConsents<T>(h: Heap<T>, d: Desk<T>, cs: map<nat, Consent<T>>, r: Request<T>)
    requires Orderly(h, d) && ConsentsStand(d, cs)
    ensures ConsentsStand(Handle(h, d, r), Witnessed(d, cs, r))
  {
    hide Free, Within, Start, Close, Accepted, Cleared, Booked, Apart, AllPaired, ConsentsStand;
    match r
    case Ask(p, q, item, proper, allowed) =>
      if proper && allowed && item.Some? && MayOffer(h, d, p, q, item.value) {
        StartKeepsConsents(d, cs, p, q, item.value);
      }
    case Agree(p, canThrow, allowed) =>
      if p in d.seats {
        AcceptKeepsOrder(h, d, p, canThrow, allowed);
        if AcceptOutcome(d, p, canThrow, allowed).Recorded? {
          PairedAt(d.seats, p);
          MarkedKeepsConsents(d, cs, p, d.seats[p].partner.value);
        } else if AcceptOutcome(d, p, canThrow, allowed) != Ignored {
          ClearedKeepsConsents(d, cs, p, Witnessed(d, cs, r));
        }
      }
    case Cancel(p) =>
      if p in d.seats {
        CloseKeepsOrder(h, d, p);
        ClearedKeepsConsents(d, cs, p, cs);
      }
  }

  lemma {:induction false} RunKeepsConsents<T>(h: Heap<T>, d: Desk<T>, cs: map<nat, Consent<T>>, rs: seq<Request<T>>)
    requires Orderly(h, d) && ConsentsStand(d, cs)
    ensures Orderly(h, Run(h, d, rs)) && ConsentsStand(Run(h, d, rs), Consents(h, d, cs, rs))
    decreases |rs|
  {
    hide Orderly, Handle, Witnessed, ConsentsStand;
    if rs != [] {
      HandleKeepsOrder(h, d, rs[0]);
      HandleKeepsConsents(h, d, cs, rs[0]);
      RunKeepsConsents(h, Handle(h, d, rs[0]), Witnessed(d, cs, rs[0]), rs[1..]);
    }
  }

  /**
   After any run, when an agreement completes a trade: the player who agreed first saw the item that comes, if one
   comes, exactly if the partner was not still waiting to answer when that agreement was given. The one who agrees now
   sees what comes.
   */
  lemma AgreedToWhatComesIff<T>(h: Heap<T>, players: set<nat>, rs: seq<Request<T>>, p: nat, canThrow: bool,
                                allowed: bool)
    requires p in Run(h, NoTrades(players), rs).seats
    ensures var d, cs := Run(h, NoTrades(players), rs), Consents(h, NoTrades(players), map[], rs);
            match AcceptOutcome(d, p, canThrow, allowed)
            case Exchanged(mine, theirs) =>
              && d.seats[p].partner.Some? && d.seats[p].partner.value in d.seats
              && var q := d.seats[p].partner.value;
              && q in cs && (mine.Some? ==> (cs[q].shown == mine <==> !cs[q].waiting))
              && p in Witnessed(d, cs, Agree(p, canThrow, allowed))
              && Witnessed(d, cs, Agree(p, canThrow, allowed))[p].shown == theirs
            case _ => true
  {
    hide Orderly, ConsentsStand, Run, Consents, AcceptOutcome, Witnessed;
    NothingAgreed(h, players);
    RunKeepsConsents(h, NoTrades(players), map[], rs);
    OrderlyPairs(h, Run(h, NoTrades(players), rs));
    ExchangeShows(Run(h, NoTrades(players), rs), Consents(h, NoTrades(players), map[], rs), p, canThrow, allowed);
  }

  lemma NothingAgreed<T>(h: Heap<T>, players: set<nat>)
    ensures Orderly(h, NoTrades<T>(players)) && ConsentsStand(NoTrades<T>(players), map[])
  {
  }

  lemma OrderlyPairs<T>(h: Heap<T>, d: Desk<T>)
    requires Orderly(h, d)
    ensures AllPaired(d.seats)
  {
    hide AllPaired;
  }

  lemma ExchangeShows<T>(d: Desk<T>, cs: map<nat, Consent<T>>, p: nat, canThrow: bool, allowed: bool)
    requires AllPaired(d.seats) && ConsentsStand(d, cs) && p in d.seats
    ensures match AcceptOutcome(d, p, canThrow, allowed)
            case Exchanged(mine, theirs) =>
              && d.seats[p].partner.Some? && d.seats[p].partner.value in d.seats
              && var q := d.seats[p].partner.value;
              && q in cs && (mine.Some? ==> (cs[q].shown == mine <==> !cs[q].waiting))
              && p in Witnessed(d, cs, Agree(p, canThrow, allowed))
              && Witnessed(d, cs, Agree(p, canThrow, allowed))[p].shown == theirs
            case _ => true
  {
    if AcceptOutcome(d, p, canThrow, allowed).Exchanged? {
      PairedAt(d.seats, p);
      var q := d.seats[p].partner.value;
      PairedAt(d.seats, q);
      assert ConsentStands(d, cs, q);
    }
  }

  /**
   It happens: one player asks and agrees at once, the other answers
   with an offer and agrees, and the items change hands.
   */
  lemma EarlyAgreementStands<T>(h: Heap<T>, x: T, y: T)
    requires x in h && y in h && x != y && y !in Within(h, x) && x !in Within(h, y)
    requires |Within(h, x)| + 1 <= TRADE_LIMIT && |Within(h, y)| + 1 <= TRADE_LIMIT
    ensures var rs := [Ask(1, 2, Some(x), true, true), Agree(1, true, true), Ask(2, 1, Some(y), true, true)];
            var d, cs := Run(h, NoTrades({1, 2}), rs), Consents(h, NoTrades({1, 2}), map[], rs);
            && 2 in d.seats && AcceptOutcome(d, 2, true, true) == Exchanged(Some(y), Some(x))
            && 1 in cs && cs[1] == Consent(None, true)
  {
    hide Within, Consents, Run, Witnessed, Handle, Free;
    var d0, none: map<nat, Consent<T>> := NoTrades<T>({1, 2}), map[];
    var r1, r2, r3 := Ask(1, 2, Some(x), true, true), Agree(1, true, true), Ask(2, 1, Some(y), true, true);
    RunOfThree(h, d0, none, r1, r2, r3);
    var d1 := Desk(map[1 := Seat(Initiated, Some(2), Some(x)), 2 := Seat(Acknowledge, Some(1), None)], map[x := 1],
                   multiset{x});
    var d2 := d1.(seats := d1.seats[1 := Seat(Accept, Some(2), Some(x))]);
    FirstOffer(h, d0, x, d1);
    EarlyAgreement(h, d1, none, d2, x);
    LateAnswer(h, d2, x, y);
    OnlyAgreeing(d0, none, r1);
    OnlyAgreeing(d2, none[1 := Consent(None, true)], r3);
  }

  lemma FirstOffer<T>(h: Heap<T>, d: Desk<T>, x: T, d': Desk<T>)
    requires d == NoTrades<T>({1, 2}) && x in h && |Within(h, x)| + 1 <= TRADE_LIMIT
    requires d' == Desk(map[1 := Seat(Initiated, Some(2), Some(x)), 2 := Seat(Acknowledge, Some(1), None)], map[x := 1],
                        multiset{x})
    ensures Handle(h, d, Ask(1, 2, Some(x), true, true)) == d'
  {
    hide Within;
    var e := Start(d, 1, 2, x);
    assert MayOffer(h, d, 1, 2, x);
    assert e.seats == d'.seats && e.offers == d'.offers && e.held == d'.held;
  }

  lemma LateAnswer<T>(h: Heap<T>, d: Desk<T>, x: T, y: T)
    requires d.seats == map[1 := Seat(Accept, Some(2), Some(x)), 2 := Seat(Acknowledge, Some(1), None)]
             && d.offers == map[x := 1]
    requires y in h && x != y && y !in Within(h, x) && x !in Within(h, y) && |Within(h, y)| + 1 <= TRADE_LIMIT
    ensures var e := Handle(h, d, Ask(2, 1, Some(y), true, true));
            2 in e.seats && AcceptOutcome(e, 2, true, true) == Exchanged(Some(y), Some(x))
  {
    hide Within;
    assert MayOffer(h, d, 2, 1, y);
    var e := Start(d, 2, 1, y);
    assert e.seats[1] == Seat(Accept, Some(2), Some(x)) && e.seats[2] == Seat(Initiated, Some(1), Some(y));
  }

  lemma OnlyAgreeing<T>(d: Desk<T>, cs: map<nat, Consent<T>>, r: Request<T>)
    requires !r.Agree?
    ensures Witnessed(d, cs, r) == cs
  {
  }

  lemma EarlyAgreement<T>(h: Heap<T>, d1: Desk<T>, cs: map<nat, Consent<T>>, d2: Desk<T>, x: T)
    requires d1.seats == map[1 := Seat(Initiated, Some(2), Some(x)), 2 := Seat(Acknowledge, Some(1), None)]
    requires d2 == d1.(seats := d1.seats[1 := Seat(Accept, Some(2), Some(x))])
    ensures Handle(h, d1, Agree(1, true, true)) == d2
    ensures Witnessed(d1, cs, Agree(1, true, true)) == cs[1 := Consent(None, true)]
  {
  }

  lemma RunStep<T>(h: Heap<T>, d: Desk<T>, cs: map<nat, Consent<T>>, r: Request<T>, rs: seq<Request<T>>)
    ensures Run(h, d, [r] + rs) == Run(h, Handle(h, d, r), rs)
    ensures Consents(h, d, cs, [r] + rs) == Consents(h, Handle(h, d, r), Witnessed(d, cs, r), rs)
  {
    hide Handle, Witnessed;
    assert ([r] + rs)[1..] == rs;
  }

  lemma RunOfThree<T>(h: Heap<T>, d: Desk<T>, cs: map<nat, Consent<T>>, r1: Request<T>, r2: Request<T>, r3: Request<T>)
    ensures var d1 := Handle(h, d, r1);
            var d2 := Handle(h, d1, r2);
            && Run(h, d, [r1, r2, r3]) == Handle(h, d2, r3)
            && Consents(h, d, cs, [r1, r2, r3]) == Witnessed(d2, Witnessed(d1, Witnessed(d, cs, r1), r2), r3)
  {
    hide Handle, Witnessed;
    var d1, c1 := Handle(h, d, r1), Witnessed(d, cs, r1);
    var d2, c2 := Handle(h, d1, r2), Witnessed(d1, c1, r2);
    RunStep(h, d, cs, r1, [r2, r3]);
    RunStep(h, d1, c1, r2, [r3]);
    RunStep(h, d2, c2, r3, []);
    assert [r1] + [r2, r3] == [r1, r2, r3] && [r2] + [r3] == [r2, r3] && [r3] + [] == [r3];
  }
}
