/** How the order types relate to one another and to plain price-time priority. */
module OrderTypes {
  import opened Types
  import opened Rules
  import opened PriceTimeQueue
  import opened Matching
  import opened Engine
  import opened Invariants

  // ---------------------------------------------------------------- price-time priority

  /** What is done with an order that reaches the book and is not fill-or-kill. */
  lemma ReachingAdd(e: Exchange, orderType: OrderType, id: OrderId, side: Side, price: Price, quantity: Quantity)
    requires Reaches(e, orderType, id, side, price, quantity) && !orderType.FillOrKill?
    ensures var o := Incoming(orderType, id, side, price, quantity);
            var r := MatchIncoming(e.book, side, o);
            AddOrder(e, orderType, id, side, price, quantity) ==
            if !orderType.ImmediateOrCancel? then Added(r.book, Ok(r.trades))
            else if CanMatch(e.book, side, price) then Added(Cancel(r.book, id), Ok(r.trades))
            else Added(e.book, Ok([]))
  {
  }

  lemma ResidueLacks(q: seq<Order>, r: seq<Order>, id: OrderId)
    requires Residue(q, r) && !Holds(q, id)
    ensures !Holds(r, id)
  {
    forall i | 0 <= i < |r| ensures r[i].id != id {
      assert q[|q| - |r| + i] in q;
    }
  }

  /** On any book, an add is every order of its side sweeping the facing queue in turn, the new one in its place. */
  lemma AddIsSweepAll(e: Exchange, orderType: OrderType, id: OrderId, side: Side, price: Price, quantity: Quantity)
    requires Reaches(e, orderType, id, side, price, quantity) && !orderType.FillOrKill?
    ensures var o := Incoming(orderType, id, side, price, quantity);
            var r := SweepAll(side, Insert(side, e.book.Queue(side), o), e.book.Queue(side.Opposite()));
            AddOrder(e, orderType, id, side, price, quantity) ==
            if !orderType.ImmediateOrCancel? then Added(r.book, Ok(r.trades))
            else if CanMatch(e.book, side, price) then Added(Cancel(r.book, id), Ok(r.trades))
            else Added(e.book, Ok([]))
  {
    ReachingAdd(e, orderType, id, side, price, quantity);
    MatchIsSweepAll(side, Insert(side, e.book.Queue(side), Incoming(orderType, id, side, price, quantity)),
                    e.book.Queue(side.Opposite()));
  }

  /**
    On any tidy book, an order that beats its own side sweeps first; if that uses it up, the orders
    behind it trade on with what it left, and otherwise its remainder is queued first or dropped.
   */
  lemma AddAheadOfHead(e: Exchange, orderType: OrderType, id: OrderId, side: Side, price: Price, quantity: Quantity)
    requires Tidy(e.book) && Reaches(e, orderType, id, side, price, quantity) && !orderType.FillOrKill?
    requires var own := e.book.Queue(side);
             own == [] || Better(side, PriceFor(orderType, side, price), own[0].price)
    ensures var o := Incoming(orderType, id, side, price, quantity);
            var own, q := e.book.Queue(side), e.book.Queue(side.Opposite());
            var s := Sweep(PassivePrice, side, q, o);
            && InPriority(PassivePrice, side, q, o, s.trades)
            && Residue(q, s.rest)
            && AddOrder(e, orderType, id, side, price, quantity) ==
               if s.filled then
                 var r := Match(Facing(side, own, s.rest), side);
                 Added(r.book, Ok(s.trades + r.trades))
               else Added(Facing(side, if orderType.ImmediateOrCancel? then own
                                       else [o.(quantity := s.left)] + own, s.rest), Ok(s.trades))
  {
    hide AddOrder, Sweep, Match, InPriority, Residue, Tidy, Sorted, Validates;
    var o := Incoming(orderType, id, side, price, quantity);
    var own, q := e.book.Queue(side), e.book.Queue(side.Opposite());
    var s := Sweep(PassivePrice, side, q, o);
    ReachingAdd(e, orderType, id, side, price, quantity);
    FacingQueues(e.book, side);
    ReachingIsFresh(e, orderType, id, side, price, quantity);
    SweepInPriority(PassivePrice, side, q, o);
    SweepLeavesResidue(PassivePrice, side, q, o);
    SweepRound(PassivePrice, side, q, o);
    MatchFromFront(side, own, q, o);
    assert Insert(side, own, o) == [o] + own;
    LoopForgets(side, own, q, s.rest, id);
    if orderType.ImmediateOrCancel? && !s.filled {
      assert Remove([o.(quantity := s.left)] + own, id) == own;
    }
  }

  /** Neither what the sweep left nor what the loop makes of it knows the incoming order. */
  lemma LoopForgets(side: Side, own: seq<Order>, q: seq<Order>, rest: seq<Order>, id: OrderId)
    requires Residue(q, rest) && !Holds(own, id) && !Holds(q, id)
    ensures Remove(rest, id) == rest
    ensures var b := Match(Facing(side, own, rest), side).book;
            Cancel(b, id) == b
  {
    var i := Facing(side, own, rest);
    var b := Match(i, side).book;
    ResidueLacks(q, rest, id);
    MatchLeavesResidues(i, side);
    ResidueLacks(i.bids, b.bids, id);
    ResidueLacks(i.asks, b.asks, id);
    RemoveAbsent(rest, id);
    RemoveAbsent(b.bids, id);
    RemoveAbsent(b.asks, id);
  }

  /** On any book, an order that does not beat the head of its own side waits: the head trades first. */
  lemma AddBehindHead(e: Exchange, orderType: OrderType, id: OrderId, side: Side, price: Price, quantity: Quantity)
    requires Reaches(e, orderType, id, side, price, quantity) && !orderType.FillOrKill?
    requires var own := e.book.Queue(side);
             own != [] && !Better(side, PriceFor(orderType, side, price), own[0].price)
    ensures var own, q := e.book.Queue(side), e.book.Queue(side.Opposite());
            var trades := AddOrder(e, orderType, id, side, price, quantity).result.trades;
            trades != [] ==>
              q != [] && trades[0] == MakeTrade(side, own[0].id, q[0].id,
                                                PaidPrice(PassivePrice, side, own[0].price, q[0].price),
                                                Min(own[0].quantity, q[0].quantity))
  {
    hide AddOrder, Match;
    var own, q := e.book.Queue(side), e.book.Queue(side.Opposite());
    var o := Incoming(orderType, id, side, price, quantity);
    var r := Insert(side, own[1..], o);
    ReachingAdd(e, orderType, id, side, price, quantity);
    assert Insert(side, own, o) == [own[0]] + r;
    if q == [] || !Takes(PassivePrice, side, own[0].price, q[0].price) {
      MatchStops(Facing(side, [own[0]] + r, q), side);
    } else {
      MatchRound(side, r, q, own[0]);
    }
  }

  /**
    On an uncrossed book, any order that is not fill-or-kill trades with the facing orders strictly
    in priority, whole orders except perhaps the last, and what is left of it is queued last at its
    price, or dropped if it is immediate-or-cancel.
   */
  lemma AddIsSweep(e: Exchange, orderType: OrderType, id: OrderId, side: Side, price: Price, quantity: Quantity)
    requires Tidy(e.book) && Uncrossed(e.book) && Reaches(e, orderType, id, side, price, quantity)
    requires !orderType.FillOrKill?
    ensures var o := Incoming(orderType, id, side, price, quantity);
            var own, q := e.book.Queue(side), e.book.Queue(side.Opposite());
            var s := Sweep(PassivePrice, side, q, o);
            && AddOrder(e, orderType, id, side, price, quantity) ==
               Added(Facing(side, if s.filled || orderType.ImmediateOrCancel? then own
                                  else Insert(side, own, o.(quantity := s.left)), s.rest), Ok(s.trades))
            && InPriority(PassivePrice, side, q, o, s.trades)
            && Residue(q, s.rest)
  {
    hide AddOrder, Sweep, Match, Insert, Cancel, InPriority, Residue, Tidy, Sorted, Validates;
    var o := Incoming(orderType, id, side, price, quantity);
    var own, q := e.book.Queue(side), e.book.Queue(side.Opposite());
    ReachingAdd(e, orderType, id, side, price, quantity);
    FacingQueues(e.book, side);
    TidySorted(e.book, side.Opposite());
    SweepInPriority(PassivePrice, side, q, o);
    SweepLeavesResidue(PassivePrice, side, q, o);
    SweepRound(PassivePrice, side, q, o);
    ReachingIsFresh(e, orderType, id, side, price, quantity);
    CancelRemainder(e.book, side, o);
    MatchIsSweep(side, own, q, o);
  }

  lemma ReachingIsFresh(e: Exchange, orderType: OrderType, id: OrderId, side: Side, price: Price, quantity: Quantity)
    requires Reaches(e, orderType, id, side, price, quantity)
    ensures !e.book.Has(id)
  {
  }

  /**
    A market order takes facing orders whatever their price: it trades the smaller of its quantity
    and everything that faces it, in priority, and what is left rests at the sentinel price. Only a
    leftover market order at the head of the facing queue stops it, and then it rests whole.
   */
  lemma MarketTakesEverything(e: Exchange, id: OrderId, side: Side, price: Price, quantity: Quantity)
    requires Tidy(e.book) && Uncrossed(e.book) && Reaches(e, Market, id, side, price, quantity)
    ensures var a := AddOrder(e, Market, id, side, price, quantity);
            var own, q := e.book.Queue(side), e.book.Queue(side.Opposite());
            var o := Incoming(Market, id, side, price, quantity);
            && a.result.Ok? && InPriority(PassivePrice, side, q, o, a.result.trades)
            && Residue(q, a.book.Queue(side.Opposite()))
            && if q[0].price == MarketPrice(side.Opposite()) then
                 a == Added(Facing(side, Insert(side, own, o), q), Ok([]))
               else
                 && Traded(a.result.trades) == (if Volume(q) < quantity then Volume(q) else quantity)
                 && a.book.Queue(side) == (if Volume(q) < quantity
                                           then Insert(side, own, o.(quantity := quantity - Volume(q))) else own)
                 && (Volume(q) < quantity ==> a.book.Queue(side.Opposite()) == [])
  {
    hide Sweep, AddOrder, InPriority, Residue, Sorted, Tidy, Enters, Volume, Insert, Uncrossed;
    var q := e.book.Queue(side.Opposite());
    var o := Incoming(Market, id, side, price, quantity);
    AddIsSweep(e, Market, id, side, price, quantity);
    TidySorted(e.book, side.Opposite());
    MarketSweep(side, q, o);
    assert o.(quantity := o.quantity) == o;
  }

  /**
    On any tidy book, a market order takes the same share of what faces it, and takes it first, unless
    an older market order stands ahead of it on its own side; that one then trades first.
   */
  lemma MarketOnAnyBook(e: Exchange, id: OrderId, side: Side, price: Price, quantity: Quantity)
    requires Tidy(e.book) && Reaches(e, Market, id, side, price, quantity)
    ensures var a := AddOrder(e, Market, id, side, price, quantity);
            var own, q := e.book.Queue(side), e.book.Queue(side.Opposite());
            var o := Incoming(Market, id, side, price, quantity);
            var s := Sweep(PassivePrice, side, q, o);
            var left := Match(Facing(side, own, s.rest), side);
            && a.result.Ok?
            && if q[0].price == MarketPrice(side.Opposite()) then
                 a == Added(Facing(side, Insert(side, own, o), q), Ok([]))
               else if own != [] && own[0].price == MarketPrice(side) then
                 a.result.trades != []
                 && a.result.trades[0] == MakeTrade(side, own[0].id, q[0].id, q[0].price,
                                                    Min(own[0].quantity, q[0].quantity))
               else
                 && InPriority(PassivePrice, side, q, o, s.trades) && Residue(q, s.rest)
                 && Traded(s.trades) == (if Volume(q) < quantity then Volume(q) else quantity)
                 && a == if Volume(q) < quantity
                         then Added(Facing(side, [o.(quantity := quantity - Volume(q))] + own, []), Ok(s.trades))
                         else Added(left.book, Ok(s.trades + left.trades))
  {
    hide Sweep, AddOrder, Match, InPriority, Residue, Sorted, Unique, Tidy, Validates, Volume, Insert;
    var own, q := e.book.Queue(side), e.book.Queue(side.Opposite());
    var o := Incoming(Market, id, side, price, quantity);
    ReachingAdd(e, Market, id, side, price, quantity);
    TidySorted(e.book, side.Opposite());
    MarketSweep(side, q, o);
    InsertLeads(side, own, o);
    var i := Insert(side, own, o);
    if q[0].price == MarketPrice(side.Opposite()) {
      MatchStops(Facing(side, i, q), side);
    } else if own != [] && own[0].price == MarketPrice(side) {
      AddBehindHead(e, Market, id, side, price, quantity);
      assert i == [i[0]] + i[1..];
      MatchRound(side, i[1..], q, i[0]);
    } else {
      AddAheadOfHead(e, Market, id, side, price, quantity);
    }
  }

  lemma MarketSweep(side: Side, q: seq<Order>, o: Order)
    requires Sorted(side.Opposite(), q) && q != [] && o.price == MarketPrice(side)
    ensures var s := Sweep(PassivePrice, side, q, o);
            if q[0].price == MarketPrice(side.Opposite()) then s == Swept(q, o.quantity, false, [])
            else
              && Traded(s.trades) == (if Volume(q) < o.quantity then Volume(q) else o.quantity)
              && s.left == o.quantity - Traded(s.trades)
              && (s.filled <==> Volume(q) >= o.quantity)
              && (!s.filled ==> s.rest == [])
  {
    hide Sweep, Sorted;
    SweepRound(PassivePrice, side, q, o);
    if q[0].price != MarketPrice(side.Opposite()) {
      MarketTakesAny(side, q);
      SweepConserves(PassivePrice, side, q, o);
      SweepStops(PassivePrice, side, q, o);
      SweepEndsFilled(side, q, o);
    }
  }

  /** Behind a head that is not a market order, every facing order is there to be taken. */
  lemma MarketTakesAny(side: Side, q: seq<Order>)
    requires Sorted(side.Opposite(), q) && q != [] && q[0].price != MarketPrice(side.Opposite())
    ensures forall i | 0 <= i < |q| :: Takes(PassivePrice, side, MarketPrice(side), q[i].price)
  {
    assert forall i | 0 < i < |q| :: !Better(side.Opposite(), q[i].price, q[0].price);
  }

  /** A sweep that meets an order it may take and reaches zero has been filled. */
  lemma {:induction false} SweepEndsFilled(side: Side, q: seq<Order>, o: Order)
    requires o.quantity > 0 || (q != [] && Takes(PassivePrice, side, o.price, q[0].price))
    ensures Sweep(PassivePrice, side, q, o).left == 0 ==> Sweep(PassivePrice, side, q, o).filled
  {
    if q != [] && o.quantity > q[0].quantity {
      SweepEndsFilled(side, q[1..], o.(quantity := o.quantity - q[0].quantity));
    }
  }

  // ---------------------------------------------------------------- fill or kill

  /** All or nothing, decided by the unbounded depth within the limit; the order never rests. */
  lemma FillOrKillExactly(e: Exchange, id: OrderId, side: Side, price: Price, quantity: Quantity)
    requires Tidy(e.book) && Enters(e, id, price, quantity)
    ensures var o := Order(id, price, FillOrKill, quantity);
            var own, q := e.book.Queue(side), e.book.Queue(side.Opposite());
            var a := AddOrder(e, FillOrKill, id, side, price, quantity);
            && a.result.Ok? && a.book.Queue(side) == own
            && Residue(q, a.book.Queue(side.Opposite()))
            && InPriority(MakerPrice, side, q, o, a.result.trades)
            && (DepthWithin(side, q, price) >= quantity ==> Traded(a.result.trades) == quantity)
            && (DepthWithin(side, q, price) < quantity ==> a == Added(e.book, Ok([])))
            && (quantity > 0 ==> (a.result.trades != [] <==> DepthWithin(side, q, price) >= quantity))
  {
    hide Sweep, InPriority, Residue, DepthWithin, Validates, Tidy;
    var o := Order(id, price, FillOrKill, quantity);
    var q := e.book.Queue(side.Opposite());
    NothingSwept(side, q, o);
    SweepInPriority(MakerPrice, side, q, o);
    SweepLeavesResidue(MakerPrice, side, q, o);
    SweepConserves(MakerPrice, side, q, o);
    SweepStops(MakerPrice, side, q, o);
    TidySorted(e.book, side.Opposite());
    if quantity > 0 {
      SweepFills(side, q, o);
    }
  }

  lemma TidySorted(b: Book, side: Side)
    requires Tidy(b)
    ensures Sorted(side, b.Queue(side)) && Unique(b.Queue(side))
  {
  }

  lemma NothingSwept(side: Side, q: seq<Order>, o: Order)
    ensures InPriority(MakerPrice, side, q, o, []) && Residue(q, q) && Traded([]) == 0
  {
  }

  /** Only a maker that rests at its own side's sentinel price separates the two price rules. */
  predicate PricingsAgree(side: Side, q: seq<Order>, price: Price) {
    q == [] || q[0].price != MarketPrice(side.Opposite()) || price == q[0].price
  }

  /**
    The resting side sets every price exactly when no market order heads the facing queue, or the
    limit equals its price, or the incoming order is priced as a market order itself.
   */
  lemma AddPaysMakersExactly(e: Exchange, orderType: OrderType, id: OrderId, side: Side, price: Price,
                             quantity: Quantity)
    requires Tidy(e.book) && Uncrossed(e.book) && Reaches(e, orderType, id, side, price, quantity)
    requires !orderType.FillOrKill?
    ensures var q := e.book.Queue(side.Opposite());
            var trades := AddOrder(e, orderType, id, side, price, quantity).result.trades;
            var limit := PriceFor(orderType, side, price);
            && |trades| <= |q|
            && ((forall i | 0 <= i < |trades| :: trades[i].price == q[i].price)
                <==> limit == MarketPrice(side) || PricingsAgree(side, q, limit))
  {
    hide AddOrder, Sweep, Match, Insert, Reaches, Tidy, Residue, Sorted;
    var q := e.book.Queue(side.Opposite());
    var o := Incoming(orderType, id, side, price, quantity);
    AddIsSweep(e, orderType, id, side, price, quantity);
    TidySorted(e.book, side.Opposite());
    SweepRound(PassivePrice, side, q, o);
    HeadIsBest(side.Opposite(), q);
    var trades := AddOrder(e, orderType, id, side, price, quantity).result.trades;
    assert forall i | 0 <= i < |trades| :: trades[i].price == PaidPrice(PassivePrice, side, o.price, q[i].price);
    if o.price != MarketPrice(side) && !PricingsAgree(side, q, o.price) {
      assert trades[0].price == o.price;
    }
  }

  lemma HeadIsBest(side: Side, q: seq<Order>)
    requires Sorted(side, q)
    ensures forall i | 0 < i < |q| :: !Better(side, q[i].price, q[0].price)
  {
  }

  /** The trade is at the price its maker, one of the queue, is stored with. */
  ghost predicate PaysMaker(side: Side, q: seq<Order>, t: Trade) {
    exists j :: 0 <= j < |q| && q[j].price == t.price && q[j].id == if side.Buy? then t.askOrderId else t.bidOrderId
  }

  /** The best price on the order's side once it is queued. */
  function LeadPrice(side: Side, own: seq<Order>, limit: Price): Price {
    if own == [] || Better(side, limit, own[0].price) then limit else own[0].price
  }

  /**
    On any tidy book, whoever on the order's side trades, all trades are at the makers' stored prices
    exactly when this holds of the best price there.
   */
  lemma AddPaysStoredPricesExactly(e: Exchange, orderType: OrderType, id: OrderId, side: Side, price: Price,
                                   quantity: Quantity)
    requires Tidy(e.book) && Reaches(e, orderType, id, side, price, quantity) && !orderType.FillOrKill?
    ensures var own, q := e.book.Queue(side), e.book.Queue(side.Opposite());
            var trades := AddOrder(e, orderType, id, side, price, quantity).result.trades;
            var lead := LeadPrice(side, own, PriceFor(orderType, side, price));
            (forall t | t in trades :: PaysMaker(side, q, t))
            <==> lead == MarketPrice(side) || PricingsAgree(side, q, lead)
  {
    hide AddOrder, Insert, Match, Tidy, Sorted, Unique, PaysMaker, DuePrice, Validates;
    var o := Incoming(orderType, id, side, price, quantity);
    var own, q := e.book.Queue(side), e.book.Queue(side.Opposite());
    var i := Insert(side, own, o);
    ReachingAdd(e, orderType, id, side, price, quantity);
    ReachingIsFresh(e, orderType, id, side, price, quantity);
    TidySorted(e.book, side);
    TidySorted(e.book, side.Opposite());
    InsertKeeps(side, own, o);
    InsertLeads(side, own, o);
    var lead := LeadPrice(side, own, o.price);
    if lead == MarketPrice(side) || PricingsAgree(side, q, lead) {
      LoopPaysMakers(side, i, q);
    } else {
      LeadPaysItself(side, i, q);
    }
  }

  lemma InsertLeads(side: Side, own: seq<Order>, o: Order)
    ensures Insert(side, own, o) != [] && Insert(side, own, o)[0].price == LeadPrice(side, own, o.price)
  {
  }

  lemma LoopPaysMakers(side: Side, own: seq<Order>, q: seq<Order>)
    requires Sorted(side, own) && Sorted(side.Opposite(), q) && own != []
    requires own[0].price == MarketPrice(side) || PricingsAgree(side, q, own[0].price)
    ensures forall t | t in Match(Facing(side, own, q), side).trades :: PaysMaker(side, q, t)
  {
    hide Match;
    var b := Facing(side, own, q);
    if Settled(b) {
      MatchStops(b, side);
    } else {
      MatchPaysDuePrices(side, own, q);
      forall t | t in Match(b, side).trades ensures PaysMaker(side, q, t) {
        assert DuePrice(side, own, q, t);
        var i, j :| 0 <= i < |own| && 0 <= j < |q|
          && t == MakeTrade(side, own[i].id, q[j].id, PaidPrice(PassivePrice, side, own[i].price, q[j].price),
                            t.quantity);
        assert i > 0 ==> !Better(side, own[i].price, own[0].price);
        assert j > 0 ==> !Better(side.Opposite(), q[j].price, q[0].price);
        assert q[j].price == t.price;
      }
    }
  }

  /** An order that takes a leftover market order trades at its own price. */
  lemma LeadPaysItself(side: Side, own: seq<Order>, q: seq<Order>)
    requires Unique(q) && own != []
    requires own[0].price != MarketPrice(side) && !PricingsAgree(side, q, own[0].price)
    ensures exists t :: t in Match(Facing(side, own, q), side).trades && !PaysMaker(side, q, t)
  {
    hide Match;
    var trades := Match(Facing(side, own, q), side).trades;
    assert own == [own[0]] + own[1..];
    MatchRound(side, own[1..], q, own[0]);
    assert trades[0] in trades;
    assert !PaysMaker(side, q, trades[0]);
  }

  // ---------------------------------------------------------------- immediate or cancel

  /** Two queues that differ at most in the type of the orders under one id. */
  ghost predicate SameButType(q: seq<Order>, r: seq<Order>, id: OrderId) {
    && |q| == |r|
    && forall i | 0 <= i < |q| :: r[i] == q[i].(orderType := r[i].orderType) && (q[i].id != id ==> r[i] == q[i])
  }

  lemma ConsumeSameButType(q: seq<Order>, r: seq<Order>, id: OrderId, n: Quantity)
    requires SameButType(q, r, id) && q != [] && n <= q[0].quantity
    ensures SameButType(Consume(q, n), Consume(r, n), id)
  {
  }

  lemma {:induction false} MatchSameButType(b: Book, c: Book, id: OrderId, aggressor: Side)
    requires SameButType(b.bids, c.bids, id) && SameButType(b.asks, c.asks, id)
    ensures Match(b, aggressor).trades == Match(c, aggressor).trades
    ensures SameButType(Match(b, aggressor).book.bids, Match(c, aggressor).book.bids, id)
    ensures SameButType(Match(b, aggressor).book.asks, Match(c, aggressor).book.asks, id)
    decreases b.Count()
  {
    if !Settled(b) {
      var n := Min(b.bids[0].quantity, b.asks[0].quantity);
      ConsumeSameButType(b.bids, c.bids, id, n);
      ConsumeSameButType(b.asks, c.asks, id, n);
      MatchSameButType(Book(Consume(b.bids, n), Consume(b.asks, n)), Book(Consume(c.bids, n), Consume(c.asks, n)),
                       id, aggressor);
    }
  }

  lemma {:induction false} RemoveSameButType(q: seq<Order>, r: seq<Order>, id: OrderId)
    requires SameButType(q, r, id) && Unique(q)
    ensures Remove(q, id) == Remove(r, id)
  {
    if q != [] {
      if q[0].id == id {
        assert forall i | 0 <= i < |q[1..]| :: q[1..][i] == r[1..][i] by {
          assert forall i | 1 <= i < |q| :: q[i].id != id;
        }
      } else {
        RemoveSameButType(q[1..], r[1..], id);
      }
    }
  }

  lemma {:induction false} InsertSameButType(side: Side, q: seq<Order>, f: Order, g: Order)
    requires f == g.(orderType := f.orderType)
    ensures SameButType(Insert(side, q, f), Insert(side, q, g), f.id)
  {
    if q != [] {
      InsertSameButType(side, q[1..], f, g);
    }
  }

  lemma SelfSameButType(q: seq<Order>, id: OrderId)
    ensures SameButType(q, q, id)
  {
  }

  /** Whatever the type, matching and then cancelling the same order leaves the same book and trades. */
  lemma MatchThenCancelIgnoresType(b: Book, side: Side, f: Order, g: Order)
    requires Tidy(b) && !b.Has(f.id) && f == g.(orderType := f.orderType)
    ensures MatchIncoming(b, side, f).trades == MatchIncoming(b, side, g).trades
    ensures Cancel(MatchIncoming(b, side, f).book, f.id) == Cancel(MatchIncoming(b, side, g).book, f.id)
  {
    var own, q := b.Queue(side), b.Queue(side.Opposite());
    InsertSameButType(side, own, f, g);
    SelfSameButType(q, f.id);
    MatchSameButType(Facing(side, Insert(side, own, f), q), Facing(side, Insert(side, own, g), q), f.id, side);
    MatchIncomingKeeps(b, side, f);
    var c, d := MatchIncoming(b, side, f).book, MatchIncoming(b, side, g).book;
    RemoveSameButType(c.bids, d.bids, f.id);
    RemoveSameButType(c.asks, d.asks, f.id);
  }

  /** An order that cannot match leaves the heads of the book as they were. */
  lemma BystanderKeepsHeads(b: Book, side: Side, o: Order)
    requires !CanMatch(b, side, o.price)
    ensures Settled(Facing(side, Insert(side, b.Queue(side), o), b.Queue(side.Opposite()))) <==> Settled(b)
  {
  }

  /**
    Immediate-or-cancel is good-till-cancel followed by cancel, from any tidy book, exactly when the
    order can match at once or the book had nothing left to trade; every uncrossed book qualifies.
   */
  lemma ImmediateOrCancelIsAddThenCancel(e: Exchange, id: OrderId, side: Side, price: Price, quantity: Quantity)
    requires Tidy(e.book) && Enters(e, id, price, quantity)
    ensures var ioc, gtc := AddOrder(e, ImmediateOrCancel, id, side, price, quantity),
                            AddOrder(e, GoodTillCancel, id, side, price, quantity);
            ioc == Added(Cancel(gtc.book, id), gtc.result) <==> CanMatch(e.book, side, price) || Settled(e.book)
    ensures Uncrossed(e.book) ==> Settled(e.book)
  {
    var f, g := Order(id, price, ImmediateOrCancel, quantity), Order(id, price, GoodTillCancel, quantity);
    var own, q := e.book.Queue(side), e.book.Queue(side.Opposite());
    FacingQueues(e.book, side);
    if CanMatch(e.book, side, price) {
      MatchThenCancelIgnoresType(e.book, side, f, g);
    } else {
      BystanderKeepsHeads(e.book, side, g);
      if Settled(e.book) {
        InsertThenRemove(side, own, g);
        RemoveAbsent(q, id);
      }
    }
  }

  // ---------------------------------------------------------------- add then cancel

  /** Cancelling an order that rested without trading restores the book. */
  lemma AddThenCancelRestores(e: Exchange, orderType: OrderType, id: OrderId, side: Side, price: Price,
                              quantity: Quantity)
    requires Tidy(e.book) && Enters(e, id, price, quantity)
    requires orderType.GoodTillCancel? || orderType.GoodForDay?
    requires AddOrder(e, orderType, id, side, price, quantity).result == Ok([])
    ensures Cancel(AddOrder(e, orderType, id, side, price, quantity).book, id) == e.book
  {
    var _ := RestsLast(e, orderType, id, side, price, quantity);
    FacingQueues(e.book, side);
    InsertThenRemove(side, e.book.Queue(side), Order(id, price, orderType, quantity));
    RemoveAbsent(e.book.Queue(side.Opposite()), id);
  }

  /** An order that rests without trading stands behind every order at its price or better, before all others. */
  lemma RestsLast(e: Exchange, orderType: OrderType, id: OrderId, side: Side, price: Price, quantity: Quantity)
    returns (k: nat)
    requires Tidy(e.book) && Enters(e, id, price, quantity)
    requires orderType.GoodTillCancel? || orderType.GoodForDay?
    requires AddOrder(e, orderType, id, side, price, quantity).result == Ok([])
    ensures var q := e.book.Queue(side);
            var o := Order(id, price, orderType, quantity);
            var b := AddOrder(e, orderType, id, side, price, quantity).book;
            && k <= |q| && b.Queue(side) == q[..k] + [o] + q[k..] == Insert(side, q, o)
            && b.Queue(side.Opposite()) == e.book.Queue(side.Opposite())
            && (forall i | 0 <= i < k :: !Better(side, price, q[i].price))
            && (forall i | k <= i < |q| :: Better(side, price, q[i].price))
  {
    k := InsertPosition(side, e.book.Queue(side), Order(id, price, orderType, quantity));
  }

  // ---------------------------------------------------------------- modify

  /** Same price: every order keeps its place, and only the named one changes its quantity. */
  lemma ModifyInPlace(e: Exchange, m: OrderModify) returns (k: nat)
    requires Lookup(e.book.Queue(m.side), m.orderId).Some?
    requires Lookup(e.book.Queue(m.side), m.orderId).value.price == m.price
    ensures var q := e.book.Queue(m.side);
            var a := ModifyOrder(e, m);
            && a.result == Ok([])
            && k < |q| && q[k].id == m.orderId
            && a.book.Queue(m.side) == q[k := q[k].(quantity := m.quantity)]
            && a.book.Queue(m.side.Opposite()) == e.book.Queue(m.side.Opposite())
  {
    LookupFinds(e.book.Queue(m.side), m.orderId);
    k := Find(e.book.Queue(m.side), m.orderId);
    SetQuantityAt(e.book.Queue(m.side), k, m.quantity);
  }

  /** A wrong side or an unknown id changes nothing. */
  lemma ModifyNeedsItsSide(e: Exchange, m: OrderModify)
    requires Tidy(e.book) && !Holds(e.book.Queue(m.side), m.orderId)
    ensures ModifyOrder(e, m) == Added(e.book, Ok([]))
  {
    LookupFinds(e.book.Queue(m.side), m.orderId);
  }

  /**
    New price: if validation rejects the new values the order is gone; if it rests without trading
    it stands last at its new price with its type kept.
   */
  lemma ModifyLosesPriority(e: Exchange, m: OrderModify) returns (k: nat)
    requires Sound(e) && Lookup(e.book.Queue(m.side), m.orderId).Some?
    requires Lookup(e.book.Queue(m.side), m.orderId).value.price != m.price
    requires ModifyOrder(e, m).result == Ok([])
    ensures var c := Cancel(e.book, m.orderId);
            var q := c.Queue(m.side);
            var o := Lookup(e.book.Queue(m.side), m.orderId).value.(price := m.price, quantity := m.quantity);
            if !e.rules.Admits(m.price, m.quantity) then ModifyOrder(e, m).book == c
            else && k <= |q| && ModifyOrder(e, m).book.Queue(m.side) == q[..k] + [o] + q[k..]
                 && (forall i | 0 <= i < k :: !Better(m.side, m.price, q[i].price))
                 && (forall i | k <= i < |q| :: Better(m.side, m.price, q[i].price))
  {
    var c := Cancel(e.book, m.orderId);
    var existing := Lookup(e.book.Queue(m.side), m.orderId).value;
    LookupFinds(e.book.Queue(m.side), m.orderId);
    assert existing in e.book.bids || existing in e.book.asks;
    CancelThins(e.book, m.orderId);
    CancelKeeps(e, m.orderId);
    CancelFreesSlot(e, m);
    k := 0;
    if e.rules.Admits(m.price, m.quantity) {
      k := RestsLast(e.(book := c), existing.orderType, m.orderId, m.side, m.price, m.quantity);
    }
  }

  /**
    A valid price change on an uncrossed book trades strictly in priority at its new price, as if it
    had just arrived with its old type, and what is left of it is queued last there.
   */
  lemma ModifyIsSweep(e: Exchange, m: OrderModify)
    requires Sound(e) && Uncrossed(e.book) && e.rules.Admits(m.price, m.quantity)
    requires Lookup(e.book.Queue(m.side), m.orderId).Some?
    requires Lookup(e.book.Queue(m.side), m.orderId).value.price != m.price
    ensures var o := Lookup(e.book.Queue(m.side), m.orderId).value.(price := m.price, quantity := m.quantity);
            var own, q := Remove(e.book.Queue(m.side), m.orderId), e.book.Queue(m.side.Opposite());
            var s := Sweep(PassivePrice, m.side, q, o);
            && ModifyOrder(e, m) ==
               Added(Facing(m.side, if s.filled then own else Insert(m.side, own, o.(quantity := s.left)), s.rest),
                     Ok(s.trades))
            && InPriority(PassivePrice, m.side, q, o, s.trades)
  {
    var c := Cancel(e.book, m.orderId);
    var existing := Lookup(e.book.Queue(m.side), m.orderId).value;
    LookupFinds(e.book.Queue(m.side), m.orderId);
    assert existing in e.book.bids || existing in e.book.asks;
    OtherSideLacks(e.book, m.side, m.orderId);
    RemoveAbsent(e.book.Queue(m.side.Opposite()), m.orderId);
    CancelThins(e.book, m.orderId);
    CancelKeeps(e, m.orderId);
    CancelFreesSlot(e, m);
    AddIsSweep(e.(book := c), existing.orderType, m.orderId, m.side, m.price, m.quantity);
  }

  /** A price-changing modify is, trades included, the run of a cancel and an add of the same type. */
  lemma ModifyIsCancelThenAdd(e: Exchange, m: OrderModify)
    requires Lookup(e.book.Queue(m.side), m.orderId).Some?
    requires Lookup(e.book.Queue(m.side), m.orderId).value.price != m.price
    ensures var orderType := Lookup(e.book.Queue(m.side), m.orderId).value.orderType;
            Step(e, Modify(m)) ==
            Run(e, [CancelOne(m.orderId), Add(orderType, m.orderId, m.side, m.price, m.quantity)])
  {
    hide AddOrder, Cancel;
    var orderType := Lookup(e.book.Queue(m.side), m.orderId).value.orderType;
    var add := Add(orderType, m.orderId, m.side, m.price, m.quantity);
    var none: seq<Trade> := [];
    assert [CancelOne(m.orderId), add][1..] == [add] && [add][1..] == [];
    var e1 := Step(e, CancelOne(m.orderId)).exchange;
    assert Step(e1, add).trades + none == Step(e1, add).trades;
    assert Run(e1, [add]) == Step(e1, add);
  }

  lemma CancelFreesSlot(e: Exchange, m: OrderModify)
    requires e.book.Count() <= e.capacity && Holds(e.book.Queue(m.side), m.orderId)
    ensures !e.(book := Cancel(e.book, m.orderId)).Full()
  {
    var k := RemoveIsStable(e.book.Queue(m.side), m.orderId);
    RemoveShortens(e.book.Queue(m.side.Opposite()), m.orderId);
  }
}
