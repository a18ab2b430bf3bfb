/** How many trades a run can make: each takes an order out of the book, zero quantities or not. */
module TradeCount {
  import opened Types
  import opened Rules
  import opened PriceTimeQueue
  import opened Matching
  import opened Engine
  import opened Invariants

  lemma {:induction false} SweepIsBounded(pricing: Pricing, side: Side, q: seq<Order>, o: Order)
    ensures var s := Sweep(pricing, side, q, o);
            |s.trades| + |s.rest| <= |q| + if s.filled then 1 else 0
  {
    if q != [] {
      SweepIsBounded(pricing, side, q[1..], o.(quantity := o.quantity - Min(o.quantity, q[0].quantity)));
    }
  }

  lemma FillOrKillBounded(b: Book, side: Side, o: Order)
    ensures var r := FillOrKillIncoming(b, side, o);
            |r.trades| + r.book.Count() <= b.Count() + 1
  {
    SweepIsBounded(MakerPrice, side, b.Queue(side.Opposite()), o);
  }

  lemma MatchIncomingBounded(b: Book, side: Side, o: Order)
    ensures var r := MatchIncoming(b, side, o);
            |r.trades| + r.book.Count() <= b.Count() + 1 && Cancel(r.book, o.id).Count() <= r.book.Count()
  {
    hide Match, Insert, Remove;
    var own, q := b.Queue(side), b.Queue(side.Opposite());
    InsertGrows(side, own, o);
    MatchIsBounded(Facing(side, Insert(side, own, o), q), side);
    RemoveShortens(MatchIncoming(b, side, o).book.bids, o.id);
    RemoveShortens(MatchIncoming(b, side, o).book.asks, o.id);
  }

  /** No add makes more trades than there are live orders once it is in, zero quantities or not, crossed or not. */
  lemma AddIsBounded(e: Exchange, orderType: OrderType, id: OrderId, side: Side, price: Price, quantity: Quantity)
    ensures var a := AddOrder(e, orderType, id, side, price, quantity);
            (if a.result.Ok? then |a.result.trades| else 0) + a.book.Count() <= e.book.Count() + 1
  {
    hide FillOrKillIncoming, MatchIncoming, Cancel, Validates, CanMatch;
    var o := Incoming(orderType, id, side, price, quantity);
    FillOrKillBounded(e.book, side, o);
    MatchIncomingBounded(e.book, side, o);
  }

  lemma {:induction false} SetQuantityKeepsLength(q: seq<Order>, id: OrderId, n: Quantity)
    ensures |SetQuantity(q, id, n)| == |q|
  {
    if q != [] {
      SetQuantityKeepsLength(q[1..], id, n);
    }
  }

  lemma {:induction false} WithoutGoodForDayShortens(q: seq<Order>)
    ensures |WithoutGoodForDay(q)| <= |q|
  {
    if q != [] {
      WithoutGoodForDayShortens(q[1..]);
    }
  }

  /** A modify makes at most as many trades as orders leave: a price change gives up its own place first. */
  lemma ModifyIsBounded(e: Exchange, m: OrderModify)
    ensures var a := ModifyOrder(e, m);
            (if a.result.Ok? then |a.result.trades| else 0) + a.book.Count() <= e.book.Count()
  {
    hide AddOrder, Remove, SetQuantity;
    var q := e.book.Queue(m.side);
    var found := Lookup(q, m.orderId);
    LookupFinds(q, m.orderId);
    SetQuantityKeepsLength(q, m.orderId, m.quantity);
    if found.Some? {
      var k := RemoveIsStable(q, m.orderId);
      RemoveShortens(e.book.Queue(m.side.Opposite()), m.orderId);
      AddIsBounded(e.(book := Cancel(e.book, m.orderId)), found.value.orderType, m.orderId, m.side, m.price,
                   m.quantity);
    }
  }

  lemma StepIsBounded(e: Exchange, op: Op)
    ensures |Step(e, op).trades| + Step(e, op).exchange.book.Count() <= e.book.Count() + if op.Add? then 1 else 0
  {
    hide AddOrder, ModifyOrder;
    match op
    case Add(orderType, id, side, price, quantity) => AddIsBounded(e, orderType, id, side, price, quantity);
    case CancelOne(id) =>
      RemoveShortens(e.book.bids, id);
      RemoveShortens(e.book.asks, id);
    case Modify(m) => ModifyIsBounded(e, m);
    case CancelGoodForDay =>
      WithoutGoodForDayShortens(e.book.bids);
      WithoutGoodForDayShortens(e.book.asks);
    case Clear =>
    case SetRules(_) =>
  }

  function Adds(ops: seq<Op>): nat {
    if ops == [] then 0 else (if ops[0].Add? then 1 else 0) + Adds(ops[1..])
  }

  /** Over any run from any book: all the trades made and the orders left are at most the orders there were and came. */
  lemma {:induction false} RunIsBounded(e: Exchange, ops: seq<Op>)
    ensures |Run(e, ops).trades| + Run(e, ops).exchange.book.Count() <= e.book.Count() + Adds(ops)
    decreases |ops|
  {
    hide Step;
    if ops != [] {
      StepIsBounded(e, ops[0]);
      RunIsBounded(Step(e, ops[0]).exchange, ops[1..]);
    }
  }
}
