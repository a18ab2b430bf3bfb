/** Quantity is neither created nor lost: by one order, by one operation, over whole runs. */
module Conservation {
  import opened Types
  import opened Rules
  import opened PriceTimeQueue
  import opened Matching
  import opened Engine
  import opened Invariants

  function RestingIn(b: Book, id: OrderId): nat {
    Resting(b.bids, id) + Resting(b.asks, id)
  }

  function TradedBy(trades: seq<Trade>, id: OrderId): nat {
    Bought(trades, id) + Sold(trades, id)
  }

  // ---------------------------------------------------------------- queues

  lemma {:induction false} InsertResting(side: Side, q: seq<Order>, o: Order, id: OrderId)
    ensures Resting(Insert(side, q, o), id) == Resting(q, id) + (if o.id == id then o.quantity else 0)
    ensures Volume(Insert(side, q, o)) == Volume(q) + o.quantity
  {
    if q != [] && !Better(side, o.price, q[0].price) {
      InsertResting(side, q[1..], o, id);
    }
  }

  lemma {:induction false} RestingAbsent(q: seq<Order>, id: OrderId)
    requires !Holds(q, id)
    ensures Resting(q, id) == 0
  {
    if q != [] {
      assert q[0] in q;
      RestingAbsent(q[1..], id);
    }
  }

  lemma {:induction false} RemoveResting(q: seq<Order>, gone: OrderId, id: OrderId)
    requires Unique(q)
    ensures Resting(Remove(q, gone), id) == if id == gone then 0 else Resting(q, id)
  {
    if q != [] {
      if q[0].id == gone {
        assert !Holds(q[1..], gone);
        RestingAbsent(q[1..], gone);
      } else {
        RemoveResting(q[1..], gone, id);
      }
    }
  }

  lemma {:induction false} SetQuantityResting(q: seq<Order>, changed: OrderId, n: Quantity, id: OrderId)
    requires Unique(q)
    ensures Resting(SetQuantity(q, changed, n), id) ==
            if id == changed && Holds(q, id) then n else Resting(q, id)
  {
    if q != [] {
      assert q[0] in q && q == [q[0]] + q[1..];
      if q[0].id == changed {
        assert !Holds(q[1..], changed);
        RestingAbsent(q[1..], changed);
      } else {
        SetQuantityResting(q[1..], changed, n, id);
      }
    }
  }

  /** The good-for-day quantity under an id. */
  function RestingToday(q: seq<Order>, id: OrderId): nat {
    if q == [] then 0
    else (if q[0].id == id && q[0].orderType == GoodForDay then q[0].quantity else 0) + RestingToday(q[1..], id)
  }

  lemma {:induction false} WithoutGoodForDayResting(q: seq<Order>, id: OrderId)
    ensures Resting(q, id) == Resting(WithoutGoodForDay(q), id) + RestingToday(q, id)
  {
    if q != [] {
      WithoutGoodForDayResting(q[1..], id);
    }
  }

  // ---------------------------------------------------------------- adding

  lemma {:induction false} TradedByConcat(ts: seq<Trade>, us: seq<Trade>, id: OrderId)
    ensures TradedBy(ts + us, id) == TradedBy(ts, id) + TradedBy(us, id)
  {
    if ts == [] {
      assert ts + us == us;
    } else {
      TradedByConcat(ts[1..], us, id);
      assert (ts + us)[1..] == ts[1..] + us;
    }
  }

  /** The incoming order joins its own queue; then each order's fall is exactly what it traded. */
  lemma MatchIncomingConserves(b: Book, side: Side, o: Order, id: OrderId)
    ensures var r := MatchIncoming(b, side, o);
            && RestingIn(b, id) + (if o.id == id then o.quantity else 0) ==
               RestingIn(r.book, id) + TradedBy(r.trades, id)
            && Volume(b.Queue(side)) + o.quantity == Volume(r.book.Queue(side)) + Traded(r.trades)
            && Volume(b.Queue(side.Opposite())) == Volume(r.book.Queue(side.Opposite())) + Traded(r.trades)
  {
    InsertResting(side, b.Queue(side), o, id);
    MatchConserves(Facing(side, Insert(side, b.Queue(side), o), b.Queue(side.Opposite())), side, id);
  }

  /** What each id, on each side of a sweep, gives and gets. */
  lemma {:induction false} SweepConservesById(pricing: Pricing, side: Side, q: seq<Order>, o: Order, id: OrderId)
    requires !Holds(q, o.id)
    ensures var s := Sweep(pricing, side, q, o);
            TradedBy(s.trades, id) + Resting(s.rest, id) ==
            Resting(q, id) + if id == o.id then o.quantity - s.left else 0
  {
    if q != [] && Takes(pricing, side, o.price, q[0].price) {
      assert q[0] in q;
      var n := Min(o.quantity, q[0].quantity);
      ConsumeVolume(q, n, id);
      var t := MakeTrade(side, o.id, q[0].id, PaidPrice(pricing, side, o.price, q[0].price), n);
      OneTrade(t, id);
      if n != o.quantity {
        var o' := o.(quantity := o.quantity - n);
        assert !Holds(q[1..], o.id);
        SweepConservesById(pricing, side, q[1..], o', id);
        TradedByConcat([t], Sweep(pricing, side, q[1..], o').trades, id);
        SweepKeepsLeft(pricing, side, q[1..], o');
      }
    }
  }

  lemma OneTrade(t: Trade, id: OrderId)
    ensures TradedBy([t], id) == (if t.bidOrderId == id then t.quantity else 0)
                                 + (if t.askOrderId == id then t.quantity else 0)
  {
    var none: seq<Trade> := [];
    assert [t][1..] == none && Bought(none, id) == 0 && Sold(none, id) == 0;
  }

  lemma SweepKeepsLeft(pricing: Pricing, side: Side, q: seq<Order>, o: Order)
    ensures Sweep(pricing, side, q, o).left <= o.quantity
  {
  }

  /** The order reaches the matching stage: it also has something to match, or enough of it, if its type asks for it. */
  predicate Accepted(e: Exchange, orderType: OrderType, id: OrderId, side: Side, price: Price, quantity: Quantity) {
    && Reaches(e, orderType, id, side, price, quantity)
    && (orderType.ImmediateOrCancel? ==> CanMatch(e.book, side, price))
    && (orderType.FillOrKill? ==> DepthWithin(side, e.book.Queue(side.Opposite()), price) >= quantity)
  }

  /** Quantity an Add brings in under this id. */
  function AddEnters(e: Exchange, orderType: OrderType, newId: OrderId, side: Side, price: Price, quantity: Quantity,
                     id: OrderId): nat
  {
    if id == newId && Accepted(e, orderType, newId, side, price, quantity) then quantity else 0
  }

  /** Quantity an Add cancels again: an immediate-or-cancel order's unfilled remainder. */
  function AddLeaves(e: Exchange, orderType: OrderType, newId: OrderId, side: Side, price: Price, quantity: Quantity,
                     id: OrderId): nat
  {
    if id == newId && orderType.ImmediateOrCancel? && Accepted(e, orderType, newId, side, price, quantity)
    then RestingIn(MatchIncoming(e.book, side, Order(newId, price, orderType, quantity)).book, newId)
    else 0
  }

  lemma AcceptedAsPriced(e: Exchange, orderType: OrderType, id: OrderId, side: Side, price: Price, quantity: Quantity)
    ensures Accepted(e, orderType, id, side, price, quantity)
            <==> && Accepted(e, TypeFor(orderType), id, side, PriceFor(orderType, side, price), quantity)
                 && (orderType.Market? ==> e.book.Queue(side.Opposite()) != [])
  {
  }

  lemma CancelConserves(b: Book, gone: OrderId, id: OrderId)
    requires Tidy(b)
    ensures RestingIn(b, id) == RestingIn(Cancel(b, gone), id) + if id == gone then RestingIn(b, gone) else 0
  {
    RemoveResting(b.bids, gone, id);
    RemoveResting(b.asks, gone, id);
  }

  lemma FillOrKillConserves(e: Exchange, side: Side, o: Order, id: OrderId)
    requires Tidy(e.book) && !e.book.Has(o.id)
    ensures var r := FillOrKillIncoming(e.book, side, o);
            RestingIn(e.book, id)
            + (if id == o.id && DepthWithin(side, e.book.Queue(side.Opposite()), o.price) >= o.quantity
               then o.quantity else 0)
            == RestingIn(r.book, id) + TradedBy(r.trades, id)
  {
    var q := e.book.Queue(side.Opposite());
    if o.quantity > 0 {
      SweepConservesById(MakerPrice, side, q, o, id);
      SweepFills(side, q, o);
      SweepStops(MakerPrice, side, q, o);
    }
  }

  /** What AddPriced does to an order that reaches the matching stage, and that nothing happens otherwise. */
  lemma AddPricedCases(e: Exchange, orderType: OrderType, id: OrderId, side: Side, price: Price, quantity: Quantity)
    requires !orderType.Market?
    ensures var o := Order(id, price, orderType, quantity);
            var s := Settle(e, AddPriced(e, orderType, id, side, price, quantity));
            if !Accepted(e, orderType, id, side, price, quantity) then s == Stepped(e, [])
            else if orderType.FillOrKill? then
              var r := FillOrKillIncoming(e.book, side, o);
              s == Stepped(e.(book := r.book), r.trades)
            else
              var r := MatchIncoming(e.book, side, o);
              s == Stepped(e.(book := if orderType.ImmediateOrCancel? then Cancel(r.book, id) else r.book), r.trades)
  {
  }

  lemma AddPricedConserves(e: Exchange, orderType: OrderType, newId: OrderId, side: Side, price: Price,
                           quantity: Quantity, id: OrderId)
    requires Tidy(e.book) && !orderType.Market?
    ensures var s := Settle(e, AddPriced(e, orderType, newId, side, price, quantity));
            RestingIn(e.book, id) + AddEnters(e, orderType, newId, side, price, quantity, id) ==
            RestingIn(s.exchange.book, id) + TradedBy(s.trades, id)
            + AddLeaves(e, orderType, newId, side, price, quantity, id)
  {
    hide Tidy, RestingIn, TradedBy, FillOrKillIncoming, MatchIncoming, AddPriced, Cancel;
    var o := Order(newId, price, orderType, quantity);
    AddPricedCases(e, orderType, newId, side, price, quantity);
    NothingTraded(id);
    if Accepted(e, orderType, newId, side, price, quantity) {
      if orderType.FillOrKill? {
        FillOrKillConserves(e, side, o, id);
      } else {
        MatchIncomingConserves(e.book, side, o, id);
        if orderType.ImmediateOrCancel? {
          MatchIncomingKeeps(e.book, side, o);
          CancelConserves(MatchIncoming(e.book, side, o).book, newId, id);
        }
      }
    }
  }

  lemma NothingTraded(id: OrderId)
    ensures TradedBy([], id) == 0
  {
  }

  /** One Add: before plus entered equals after plus traded plus cancelled remainder, for every id. */
  lemma AddConserves(e: Exchange, orderType: OrderType, newId: OrderId, side: Side, price: Price, quantity: Quantity,
                     id: OrderId)
    requires Tidy(e.book)
    ensures var s := Step(e, Add(orderType, newId, side, price, quantity));
            RestingIn(e.book, id) + AddEnters(e, orderType, newId, side, price, quantity, id) ==
            RestingIn(s.exchange.book, id) + TradedBy(s.trades, id)
            + AddLeaves(e, orderType, newId, side, price, quantity, id)
  {
    hide AddPriced, Accepted, RestingIn, Tidy;
    AcceptedAsPriced(e, orderType, newId, side, price, quantity);
    AddPricedConserves(e, TypeFor(orderType), newId, side, PriceFor(orderType, side, price), quantity, id);
    NothingTraded(id);
  }

  lemma {:induction false} RemoveVolume(q: seq<Order>, id: OrderId)
    requires Unique(q)
    ensures Volume(q) == Volume(Remove(q, id)) + Resting(q, id)
  {
    if q != [] {
      if q[0].id == id {
        assert !Holds(q[1..], id);
        RestingAbsent(q[1..], id);
      } else {
        RemoveVolume(q[1..], id);
      }
    }
  }

  lemma {:induction false} RestingHeld(q: seq<Order>, id: OrderId)
    ensures Resting(q, id) > 0 ==> Holds(q, id)
  {
    if q != [] {
      RestingHeld(q[1..], id);
      assert q == [q[0]] + q[1..];
      if q[0].id == id {
        assert q[0] in q;
      }
    }
  }

  /** The incoming order never shows up on the other side. */
  lemma IncomingStaysOnItsSide(b: Book, side: Side, o: Order)
    requires Tidy(b) && !b.Has(o.id)
    ensures Resting(MatchIncoming(b, side, o).book.Queue(side.Opposite()), o.id) == 0
  {
    var q := b.Queue(side.Opposite());
    var i := Facing(side, Insert(side, b.Queue(side), o), q);
    MatchLeavesResidues(i, side);
    var r := MatchIncoming(b, side, o).book.Queue(side.Opposite());
    assert Residue(q, r);
    forall k | 0 <= k < |r| ensures r[k].id != o.id {
      assert q[|q| - |r| + k] in q;
    }
    RestingHeld(r, o.id);
  }

  /** Side totals: the facing side loses what traded; the own side gains what came in less what traded and left. */
  lemma AddBalancesSides(e: Exchange, orderType: OrderType, id: OrderId, side: Side, price: Price, quantity: Quantity)
    requires Tidy(e.book) && Accepted(e, orderType, id, side, price, quantity)
    ensures var s := Step(e, Add(orderType, id, side, price, quantity));
            && Volume(e.book.Queue(side.Opposite())) ==
               Volume(s.exchange.book.Queue(side.Opposite())) + Traded(s.trades)
            && Volume(e.book.Queue(side)) + quantity ==
               Volume(s.exchange.book.Queue(side)) + Traded(s.trades)
               + AddLeaves(e, orderType, id, side, price, quantity, id)
  {
    hide Tidy, MatchIncoming, AddPriced, Accepted;
    var o := Incoming(orderType, id, side, price, quantity);
    AddPricedCases(e, o.orderType, id, side, o.price, quantity);
    AcceptedIsFresh(e, orderType, id, side, price, quantity);
    AcceptedAsPriced(e, orderType, id, side, price, quantity);
    if o.orderType.FillOrKill? {
      FillOrKillBalances(e.book, side, o);
    } else {
      MatchIncomingConserves(e.book, side, o, id);
      if o.orderType.ImmediateOrCancel? {
        MatchIncomingKeeps(e.book, side, o);
        IncomingStaysOnItsSide(e.book, side, o);
        var c := MatchIncoming(e.book, side, o).book;
        TidyUnique(c);
        RemoveVolume(c.bids, id);
        RemoveVolume(c.asks, id);
      }
    }
  }

  lemma TidyUnique(b: Book)
    requires Tidy(b)
    ensures Unique(b.bids) && Unique(b.asks)
  {
  }

  lemma AcceptedIsFresh(e: Exchange, orderType: OrderType, id: OrderId, side: Side, price: Price, quantity: Quantity)
    requires Accepted(e, orderType, id, side, price, quantity)
    ensures !e.book.Has(id)
    ensures orderType.FillOrKill? ==> DepthWithin(side, e.book.Queue(side.Opposite()), price) >= quantity
  {
  }

  lemma FillOrKillBalances(b: Book, side: Side, o: Order)
    requires Tidy(b) && DepthWithin(side, b.Queue(side.Opposite()), o.price) >= o.quantity
    ensures var r := FillOrKillIncoming(b, side, o);
            && Traded(r.trades) == o.quantity
            && r.book.Queue(side) == b.Queue(side)
            && Volume(b.Queue(side.Opposite())) == Volume(r.book.Queue(side.Opposite())) + Traded(r.trades)
  {
    var q := b.Queue(side.Opposite());
    if o.quantity > 0 {
      SweepConserves(MakerPrice, side, q, o);
      SweepFills(side, q, o);
      SweepStops(MakerPrice, side, q, o);
    }
  }

  // ---------------------------------------------------------------- every operation

  function Inflow(e: Exchange, op: Op, id: OrderId): nat {
    match op
    case Add(orderType, newId, side, price, quantity) => AddEnters(e, orderType, newId, side, price, quantity, id)
    case Modify(m) =>
      (match Lookup(e.book.Queue(m.side), m.orderId)
       case None => 0
       case Some(o) =>
         if o.price == m.price then (if id == m.orderId then m.quantity else 0)
         else AddEnters(e.(book := Cancel(e.book, m.orderId)), o.orderType, m.orderId, m.side, m.price, m.quantity, id))
    case _ => 0
  }

  function Outflow(e: Exchange, op: Op, id: OrderId): nat {
    match op
    case Add(orderType, newId, side, price, quantity) => AddLeaves(e, orderType, newId, side, price, quantity, id)
    case CancelOne(gone) => if id == gone then RestingIn(e.book, id) else 0
    case Modify(m) =>
      (match Lookup(e.book.Queue(m.side), m.orderId)
       case None => 0
       case Some(o) =>
         (if id == m.orderId then RestingIn(e.book, id) else 0)
         + (if o.price == m.price then 0
            else AddLeaves(e.(book := Cancel(e.book, m.orderId)), o.orderType, m.orderId, m.side, m.price,
                           m.quantity, id)))
    case CancelGoodForDay => RestingToday(e.book.bids, id) + RestingToday(e.book.asks, id)
    case Clear => RestingIn(e.book, id)
    case SetRules(_) => 0
  }

  lemma ModifyConserves(e: Exchange, m: OrderModify, id: OrderId)
    requires Sound(e)
    ensures var s := Step(e, Modify(m));
            RestingIn(e.book, id) + Inflow(e, Modify(m), id) ==
            RestingIn(s.exchange.book, id) + TradedBy(s.trades, id) + Outflow(e, Modify(m), id)
  {
    var q, r := e.book.Queue(m.side), e.book.Queue(m.side.Opposite());
    var found := Lookup(q, m.orderId);
    LookupFinds(q, m.orderId);
    if found.Some? {
      if found.value.price == m.price {
        SetQuantityResting(q, m.orderId, m.quantity, id);
        if id == m.orderId {
          OtherSideLacks(e.book, m.side, id);
          RestingAbsent(r, id);
        }
      } else {
        CancelConserves(e.book, m.orderId, id);
        CancelKeeps(e, m.orderId);
        AddConserves(e.(book := Cancel(e.book, m.orderId)), found.value.orderType, m.orderId, m.side, m.price,
                     m.quantity, id);
      }
    }
  }

  /** One operation: quantity in equals quantity out, for every id. */
  lemma StepConserves(e: Exchange, op: Op, id: OrderId)
    requires Sound(e)
    ensures var s := Step(e, op);
            RestingIn(e.book, id) + Inflow(e, op, id) ==
            RestingIn(s.exchange.book, id) + TradedBy(s.trades, id) + Outflow(e, op, id)
  {
    match op
    case Add(orderType, newId, side, price, quantity) => AddConserves(e, orderType, newId, side, price, quantity, id);
    case CancelOne(gone) => CancelConserves(e.book, gone, id);
    case Modify(m) => ModifyConserves(e, m, id);
    case CancelGoodForDay =>
      WithoutGoodForDayResting(e.book.bids, id);
      WithoutGoodForDayResting(e.book.asks, id);
    case Clear =>
    case SetRules(_) =>
  }

  // ---------------------------------------------------------------- runs

  function TotalInflow(e: Exchange, ops: seq<Op>, id: OrderId): nat
    decreases |ops|
  {
    if ops == [] then 0 else Inflow(e, ops[0], id) + TotalInflow(Step(e, ops[0]).exchange, ops[1..], id)
  }

  function TotalOutflow(e: Exchange, ops: seq<Op>, id: OrderId): nat
    decreases |ops|
  {
    if ops == [] then 0 else Outflow(e, ops[0], id) + TotalOutflow(Step(e, ops[0]).exchange, ops[1..], id)
  }

  /** Over any run: whatever entered under an id rests, was traded, or was withdrawn. */
  lemma {:induction false} RunConserves(e: Exchange, ops: seq<Op>, id: OrderId)
    requires Sound(e)
    ensures RestingIn(e.book, id) + TotalInflow(e, ops, id) ==
            RestingIn(Run(e, ops).exchange.book, id) + TradedBy(Run(e, ops).trades, id) + TotalOutflow(e, ops, id)
    decreases |ops|
  {
    hide Step, Inflow, Outflow, Sound;
    if ops != [] {
      var first := Step(e, ops[0]);
      StepConserves(e, ops[0], id);
      StepKeepsSound(e, ops[0]);
      RunConserves(first.exchange, ops[1..], id);
      TradedByConcat(first.trades, Run(first.exchange, ops[1..]).trades, id);
    }
  }
}
