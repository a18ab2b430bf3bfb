/** No trade on any path is worse than the limit of either order in it, whatever state the book is in. */
module Limits {
  import opened Types
  import opened Rules
  import opened PriceTimeQueue
  import opened Matching
  import opened Engine
  import opened Invariants

  /** The orders a trade of this Add may name: the book's and the incoming one, each at its stored price. */
  function With(b: Book, side: Side, o: Order): Book {
    Facing(side, b.Queue(side) + [o], b.Queue(side.Opposite()))
  }

  ghost predicate AllWithinLimits(trades: seq<Trade>, b: Book) {
    forall t | t in trades :: WithinLimits(t, b.bids, b.asks)
  }

  lemma WithinLimitsMore(t: Trade, bids: seq<Order>, asks: seq<Order>, bids': seq<Order>, asks': seq<Order>)
    requires WithinLimits(t, bids, asks)
    requires (forall o | o in bids :: o in bids') && (forall o | o in asks :: o in asks')
    ensures WithinLimits(t, bids', asks')
  {
    var i :| 0 <= i < |bids| && bids[i].id == t.bidOrderId && t.price <= bids[i].price;
    var j :| 0 <= j < |asks| && asks[j].id == t.askOrderId && t.price >= asks[j].price;
    assert bids[i] in bids && asks[j] in asks;
    var i' :| 0 <= i' < |bids'| && bids'[i'] == bids[i];
    var j' :| 0 <= j' < |asks'| && asks'[j'] == asks[j];
  }

  lemma {:induction false} InsertMembers(side: Side, q: seq<Order>, o: Order)
    ensures forall p | p in Insert(side, q, o) :: p in q + [o]
  {
    if q != [] && !Better(side, o.price, q[0].price) {
      InsertMembers(side, q[1..], o);
      assert q == [q[0]] + q[1..];
    }
  }

  lemma MatchIncomingWithinLimits(b: Book, side: Side, o: Order)
    ensures AllWithinLimits(MatchIncoming(b, side, o).trades, With(b, side, o))
  {
    var own, q := b.Queue(side), b.Queue(side.Opposite());
    var i := Facing(side, Insert(side, own, o), q);
    MatchRespectsLimits(i, side);
    InsertMembers(side, own, o);
    forall t | t in MatchIncoming(b, side, o).trades
      ensures WithinLimits(t, With(b, side, o).bids, With(b, side, o).asks)
    {
      WithinLimitsMore(t, i.bids, i.asks, With(b, side, o).bids, With(b, side, o).asks);
    }
  }

  lemma FillOrKillWithinLimits(b: Book, side: Side, o: Order)
    ensures AllWithinLimits(FillOrKillIncoming(b, side, o).trades, With(b, side, o))
  {
    var own, q := b.Queue(side), b.Queue(side.Opposite());
    var s := Sweep(MakerPrice, side, q, o);
    SweepInPriority(MakerPrice, side, q, o);
    assert (own + [o])[|own|] == o;
    forall t | t in s.trades ensures WithinLimits(t, With(b, side, o).bids, With(b, side, o).asks) {
      var i :| 0 <= i < |s.trades| && s.trades[i] == t;
      assert Takes(MakerPrice, side, o.price, q[i].price);
      assert t == MakeTrade(side, o.id, q[i].id, q[i].price, t.quantity);
    }
  }

  /** Every AddOrder on every book, crossed or not, sentinel prices included. */
  lemma AddRespectsLimits(e: Exchange, orderType: OrderType, id: OrderId, side: Side, price: Price, quantity: Quantity)
    ensures var a := AddOrder(e, orderType, id, side, price, quantity);
            a.result.Ok? ==>
              AllWithinLimits(a.result.trades, With(e.book, side, Incoming(orderType, id, side, price, quantity)))
  {
    hide WithinLimits;
    MatchIncomingWithinLimits(e.book, side, Incoming(orderType, id, side, price, quantity));
    FillOrKillWithinLimits(e.book, side, Incoming(orderType, id, side, price, quantity));
  }

  /** Every ModifyOrder: the re-added order trades under its new price. */
  lemma ModifyRespectsLimits(e: Exchange, m: OrderModify)
    requires Lasting(e.book)
    ensures var a := ModifyOrder(e, m);
            var found := Lookup(e.book.Queue(m.side), m.orderId);
            a.result.Ok? && a.result.trades != [] ==>
              && found.Some?
              && AllWithinLimits(a.result.trades, With(Cancel(e.book, m.orderId), m.side,
                                                       found.value.(price := m.price, quantity := m.quantity)))
  {
    hide WithinLimits, AllWithinLimits;
    var found := Lookup(e.book.Queue(m.side), m.orderId);
    LookupFinds(e.book.Queue(m.side), m.orderId);
    if found.Some? {
      AddRespectsLimits(e.(book := Cancel(e.book, m.orderId)), found.value.orderType, m.orderId, m.side, m.price,
                        m.quantity);
    }
  }

  // ---------------------------------------------------------------- runs

  /** The orders a trade of this operation may name, each at the price it is stored with. */
  function InPlay(e: Exchange, op: Op): Book {
    match op
    case Add(orderType, id, side, price, quantity) =>
      With(e.book, side, Incoming(orderType, id, side, price, quantity))
    case Modify(m) =>
      (match Lookup(e.book.Queue(m.side), m.orderId)
       case None => e.book
       case Some(o) => With(Cancel(e.book, m.orderId), m.side, o.(price := m.price, quantity := m.quantity)))
    case _ => e.book
  }

  lemma StepRespectsLimits(e: Exchange, op: Op)
    requires Lasting(e.book)
    ensures AllWithinLimits(Step(e, op).trades, InPlay(e, op))
  {
    hide AddOrder, ModifyOrder, Cancel, With, WithinLimits;
    match op
    case Add(orderType, id, side, price, quantity) => AddRespectsLimits(e, orderType, id, side, price, quantity);
    case Modify(m) => ModifyRespectsLimits(e, m);
    case _ =>
  }

  /** The trade was made by the k-th operation, within the prices stored in the book of that moment. */
  ghost predicate MadeWithinLimits(e: Exchange, ops: seq<Op>, k: nat, t: Trade)
    requires k < |ops|
  {
    var before := Run(e, ops[..k]).exchange;
    t in Step(before, ops[k]).trades && WithinLimits(t, InPlay(before, ops[k]).bids, InPlay(before, ops[k]).asks)
  }

  /** Every trade of a run. */
  lemma {:induction false} RunRespectsLimits(e: Exchange, ops: seq<Op>)
    requires Sound(e)
    ensures forall t | t in Run(e, ops).trades :: exists k :: 0 <= k < |ops| && MadeWithinLimits(e, ops, k, t)
    decreases |ops|
  {
    if ops != [] {
      var n := |ops| - 1;
      var before := Run(e, ops[..n]).exchange;
      RunKeepsSound(e, ops[..n]);
      StepRespectsLimits(before, ops[n]);
      RunRespectsLimits(e, ops[..n]);
      RunTradesLast(e, ops);
      hide Run, Step, WithinLimits, InPlay, Sound;
      forall t | t in Run(e, ops).trades ensures exists k :: 0 <= k < |ops| && MadeWithinLimits(e, ops, k, t) {
        if t in Step(before, ops[n]).trades {
          assert MadeWithinLimits(e, ops, n, t);
        } else {
          var k :| 0 <= k < n && MadeWithinLimits(e, ops[..n], k, t);
          assert ops[..n][..k] == ops[..k];
          assert MadeWithinLimits(e, ops, k, t);
        }
      }
    }
  }
}
