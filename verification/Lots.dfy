/** Every resting quantity and every trade stays a positive multiple of the lot size. */
module Lots {
  import opened Types
  import opened Rules
  import opened PriceTimeQueue
  import opened Matching
  import opened Engine
  import opened Invariants

  ghost predicate IsLots(lot: Quantity, n: Quantity) {
    lot > 0 && n > 0 && n % lot == 0
  }

  ghost predicate QueueInLots(lot: Quantity, q: seq<Order>) {
    forall i | 0 <= i < |q| :: IsLots(lot, q[i].quantity)
  }

  ghost predicate BookInLots(lot: Quantity, b: Book) {
    QueueInLots(lot, b.bids) && QueueInLots(lot, b.asks)
  }

  ghost predicate TradesInLots(lot: Quantity, trades: seq<Trade>) {
    forall i | 0 <= i < |trades| :: IsLots(lot, trades[i].quantity)
  }

  /** A partial fill of whole lots leaves whole lots. */
  lemma LotsDifference(lot: Quantity, a: Quantity, b: Quantity)
    requires IsLots(lot, a) && IsLots(lot, b) && b < a
    ensures IsLots(lot, a - b)
  {
    var i, j := a / lot, b / lot;
    assert a == i * lot && b == j * lot;
    assert i * lot - j * lot == (i - j) * lot;
    Multiple(a - b, i - j, lot);
  }

  lemma ConsumeInLots(lot: Quantity, q: seq<Order>, n: Quantity)
    requires QueueInLots(lot, q) && q != [] && n <= q[0].quantity && IsLots(lot, n)
    ensures QueueInLots(lot, Consume(q, n))
  {
    if n != q[0].quantity {
      LotsDifference(lot, q[0].quantity, n);
    }
  }

  lemma {:induction false} MatchKeepsLots(lot: Quantity, b: Book, aggressor: Side)
    requires BookInLots(lot, b)
    ensures BookInLots(lot, Match(b, aggressor).book) && TradesInLots(lot, Match(b, aggressor).trades)
    decreases b.Count()
  {
    hide IsLots;
    if !Settled(b) {
      var n := Min(b.bids[0].quantity, b.asks[0].quantity);
      ConsumeInLots(lot, b.bids, n);
      ConsumeInLots(lot, b.asks, n);
      MatchKeepsLots(lot, Book(Consume(b.bids, n), Consume(b.asks, n)), aggressor);
    }
  }

  lemma {:induction false} SweepKeepsLots(lot: Quantity, pricing: Pricing, side: Side, q: seq<Order>, o: Order)
    requires QueueInLots(lot, q) && IsLots(lot, o.quantity)
    ensures var s := Sweep(pricing, side, q, o);
            QueueInLots(lot, s.rest) && TradesInLots(lot, s.trades)
  {
    if q != [] && Takes(pricing, side, o.price, q[0].price) {
      var n := Min(o.quantity, q[0].quantity);
      ConsumeInLots(lot, q, n);
      if n != o.quantity {
        LotsDifference(lot, o.quantity, n);
        SweepKeepsLots(lot, pricing, side, q[1..], o.(quantity := o.quantity - n));
      }
    }
  }

  lemma InsertInLots(lot: Quantity, side: Side, q: seq<Order>, o: Order)
    requires QueueInLots(lot, q) && IsLots(lot, o.quantity) && Sorted(side, q)
    ensures QueueInLots(lot, Insert(side, q, o))
  {
  }

  lemma {:induction false} RemoveInLots(lot: Quantity, q: seq<Order>, id: OrderId)
    requires QueueInLots(lot, q)
    ensures QueueInLots(lot, Remove(q, id))
  {
    if q != [] {
      RemoveInLots(lot, q[1..], id);
    }
  }

  lemma {:induction false} WithoutGoodForDayInLots(lot: Quantity, q: seq<Order>)
    requires QueueInLots(lot, q)
    ensures QueueInLots(lot, WithoutGoodForDay(q))
  {
    if q != [] {
      WithoutGoodForDayInLots(lot, q[1..]);
    }
  }

  // ---------------------------------------------------------------- operations

  lemma AddPricedKeepsLots(e: Exchange, orderType: OrderType, id: OrderId, side: Side, price: Price, quantity: Quantity)
    requires Tidy(e.book) && BookInLots(e.rules.lotSize, e.book) && e.rules.minQuantity >= 1
    ensures var a := AddPriced(e, orderType, id, side, price, quantity);
            && BookInLots(e.rules.lotSize, a.book)
            && (a.result.Ok? ==> TradesInLots(e.rules.lotSize, a.result.trades))
  {
    hide IsLots, QueueInLots, TradesInLots, Sweep, Match, Insert, Remove, DepthWithin, Sorted, Unique, Disjoint;
    hide RuleSet.Admits;
    var lot := e.rules.lotSize;
    var o := Order(id, price, orderType, quantity);
    NoTradesInLots(lot);
    if Validates(e.book, e.rules, id, price, quantity) {
      AdmitsLots(e.rules, price, quantity);
      var q := e.book.Queue(side.Opposite());
      SweepKeepsLots(lot, MakerPrice, side, q, o);
      InsertInLots(lot, side, e.book.Queue(side), o);
      MatchKeepsLots(lot, Facing(side, Insert(side, e.book.Queue(side), o), q), side);
      var c := MatchIncoming(e.book, side, o).book;
      RemoveInLots(lot, c.bids, id);
      RemoveInLots(lot, c.asks, id);
    }
  }

  /** The admission gate lets only whole lots in. */
  lemma AdmitsLots(rules: ExchangeRules, price: Price, quantity: Quantity)
    requires rules.Admits(price, quantity) && rules.minQuantity >= 1
    ensures IsLots(rules.lotSize, quantity)
  {
  }

  lemma AddKeepsLots(e: Exchange, orderType: OrderType, id: OrderId, side: Side, price: Price, quantity: Quantity)
    requires Tidy(e.book) && BookInLots(e.rules.lotSize, e.book) && e.rules.minQuantity >= 1
    ensures var s := Settle(e, AddOrder(e, orderType, id, side, price, quantity));
            BookInLots(e.rules.lotSize, s.exchange.book) && TradesInLots(e.rules.lotSize, s.trades)
  {
    hide BookInLots, TradesInLots, AddPriced;
    NoTradesInLots(e.rules.lotSize);
    AddPricedKeepsLots(e, orderType, id, side, price, quantity);
    AddPricedKeepsLots(e, GoodTillCancel, id, side, MarketPrice(side), quantity);
  }

  lemma NoTradesInLots(lot: Quantity)
    ensures TradesInLots(lot, [])
  {
  }

  /** The one unvalidated way in: a same-price modify, whose quantity nobody checks. */
  ghost predicate ModifiesInPlace(e: Exchange, m: OrderModify) {
    var found := Lookup(e.book.Queue(m.side), m.orderId);
    found.Some? && found.value.price == m.price
  }

  lemma ModifyInPlaceLots(e: Exchange, m: OrderModify)
    requires BookInLots(e.rules.lotSize, e.book) && ModifiesInPlace(e, m)
    ensures BookInLots(e.rules.lotSize, ModifyOrder(e, m).book) <==> IsLots(e.rules.lotSize, m.quantity)
  {
    var q := e.book.Queue(m.side);
    LookupFinds(q, m.orderId);
    var k := Find(q, m.orderId);
    SetQuantityAt(q, k, m.quantity);
    var r := SetQuantity(q, m.orderId, m.quantity);
    assert r[k].quantity == m.quantity;
    assert forall i | 0 <= i < |q| && i != k :: r[i] == q[i];
  }

  lemma ModifyKeepsLots(e: Exchange, m: OrderModify)
    requires Sound(e) && BookInLots(e.rules.lotSize, e.book) && e.rules.minQuantity >= 1
    requires !ModifiesInPlace(e, m)
    ensures var s := Settle(e, ModifyOrder(e, m));
            BookInLots(e.rules.lotSize, s.exchange.book) && TradesInLots(e.rules.lotSize, s.trades)
  {
    NoTradesInLots(e.rules.lotSize);
    var found := Lookup(e.book.Queue(m.side), m.orderId);
    if found.Some? {
      CancelKeeps(e, m.orderId);
      RemoveInLots(e.rules.lotSize, e.book.bids, m.orderId);
      RemoveInLots(e.rules.lotSize, e.book.asks, m.orderId);
      AddKeepsLots(e.(book := Cancel(e.book, m.orderId)), found.value.orderType, m.orderId, m.side, m.price,
                   m.quantity);
    }
  }

  /** The operation is not an in-place modify to a quantity that is not whole lots. */
  ghost predicate KeepsLots(e: Exchange, op: Op) {
    op.Modify? && ModifiesInPlace(e, op.m) ==> IsLots(e.rules.lotSize, op.m.quantity)
  }

  /** New rules have the same lot size and still ask for a positive quantity. */
  predicate SameLot(lot: Quantity, op: Op) {
    op.SetRules? ==> op.rules.lotSize == lot && op.rules.minQuantity >= 1
  }

  /** With a fixed lot size, whole lots trade, and the book stays in whole lots exactly when KeepsLots says so. */
  lemma StepKeepsLotsExactly(e: Exchange, op: Op)
    requires Sound(e) && BookInLots(e.rules.lotSize, e.book) && e.rules.minQuantity >= 1
    requires SameLot(e.rules.lotSize, op)
    ensures TradesInLots(e.rules.lotSize, Step(e, op).trades)
    ensures BookInLots(e.rules.lotSize, Step(e, op).exchange.book) <==> KeepsLots(e, op)
    ensures var rules := Step(e, op).exchange.rules;
            rules.lotSize == e.rules.lotSize && rules.minQuantity >= 1
  {
    var lot := e.rules.lotSize;
    match op
    case Add(orderType, id, side, price, quantity) => AddKeepsLots(e, orderType, id, side, price, quantity);
    case CancelOne(id) =>
      RemoveInLots(lot, e.book.bids, id);
      RemoveInLots(lot, e.book.asks, id);
    case Modify(m) =>
      if ModifiesInPlace(e, m) {
        ModifyInPlaceLots(e, m);
      } else {
        ModifyKeepsLots(e, m);
      }
    case CancelGoodForDay =>
      WithoutGoodForDayInLots(lot, e.book.bids);
      WithoutGoodForDayInLots(lot, e.book.asks);
    case Clear =>
    case SetRules(_) =>
  }

  // ---------------------------------------------------------------- runs

  /** No operation of the run, in its turn, modifies in place to a quantity that is not whole lots. */
  ghost predicate KeepsToLots(e: Exchange, ops: seq<Op>) {
    forall k | 0 <= k < |ops| :: KeepsLots(Run(e, ops[..k]).exchange, ops[k])
  }

  ghost predicate AlwaysInLots(e: Exchange, ops: seq<Op>) {
    forall k | 0 <= k <= |ops| :: BookInLots(e.rules.lotSize, Run(e, ops[..k]).exchange.book)
  }

  /** An exchange whose lot size is fixed and whose rules refuse a quantity of zero. */
  ghost predicate InLots(lot: Quantity, e: Exchange) {
    Sound(e) && BookInLots(lot, e.book) && e.rules.lotSize == lot && e.rules.minQuantity >= 1
  }

  lemma {:induction false} InLotsUntil(e: Exchange, ops: seq<Op>, n: nat)
    requires InLots(e.rules.lotSize, e) && n <= |ops|
    requires forall i | 0 <= i < |ops| :: SameLot(e.rules.lotSize, ops[i])
    requires forall k | 0 <= k < n :: KeepsLots(Run(e, ops[..k]).exchange, ops[k])
    ensures InLots(e.rules.lotSize, Run(e, ops[..n]).exchange)
    ensures TradesInLots(e.rules.lotSize, Run(e, ops[..n]).trades)
  {
    hide Run, Step, KeepsLots, BookInLots, Sound, IsLots, SameLot;
    if n == 0 {
      RunNone(e);
      assert ops[..0] == [];
    } else {
      var before := Run(e, ops[..n - 1]).exchange;
      InLotsUntil(e, ops, n - 1);
      StepKeepsLotsExactly(before, ops[n - 1]);
      StepKeepsSound(before, ops[n - 1]);
      RunLast(e, ops, n - 1);
      assert ops[..n][..n - 1] == ops[..n - 1];
      RunTradesLast(e, ops[..n]);
    }
  }

  /**
    Over any run with a fixed lot size: the book is in whole lots throughout exactly when no operation
    modifies in place to anything else, and then every trade is in whole lots too.
   */
  lemma RunKeepsLotsExactly(e: Exchange, ops: seq<Op>)
    requires InLots(e.rules.lotSize, e)
    requires forall i | 0 <= i < |ops| :: SameLot(e.rules.lotSize, ops[i])
    ensures AlwaysInLots(e, ops) <==> KeepsToLots(e, ops)
    ensures KeepsToLots(e, ops) ==> TradesInLots(e.rules.lotSize, Run(e, ops).trades)
  {
    hide Run, Step, KeepsLots, BookInLots, Sound, IsLots, SameLot, TradesInLots;
    if KeepsToLots(e, ops) {
      forall n | 0 <= n <= |ops| ensures BookInLots(e.rules.lotSize, Run(e, ops[..n]).exchange.book) {
        InLotsUntil(e, ops, n);
      }
      InLotsUntil(e, ops, |ops|);
      assert ops[..|ops|] == ops;
    } else {
      var k := FirstBad(e, ops);
      InLotsUntil(e, ops, k);
      StepKeepsLotsExactly(Run(e, ops[..k]).exchange, ops[k]);
      RunLast(e, ops, k);
      assert !BookInLots(e.rules.lotSize, Run(e, ops[..k + 1]).exchange.book);
    }
  }

  lemma FirstBad(e: Exchange, ops: seq<Op>) returns (k: nat)
    requires !KeepsToLots(e, ops)
    ensures k < |ops| && !KeepsLots(Run(e, ops[..k]).exchange, ops[k])
    ensures forall l | 0 <= l < k :: KeepsLots(Run(e, ops[..l]).exchange, ops[l])
  {
    hide Run, KeepsLots;
    k := 0;
    while KeepsLots(Run(e, ops[..k]).exchange, ops[k])
      invariant k < |ops|
      invariant forall l | 0 <= l < k :: KeepsLots(Run(e, ops[..l]).exchange, ops[l])
      decreases |ops| - k
    {
      assert k + 1 < |ops|;
      k := k + 1;
    }
  }
}
