/**
  Time priority over whole runs: of two orders resting at one price, the one that has been waiting
  there longer stands ahead.
 */
module TimePriority {
  import opened Types
  import opened Rules
  import opened PriceTimeQueue
  import opened Matching
  import opened Engine
  import opened Invariants

  // ---------------------------------------------------------------- arrivals

  /** The operation brings the order to its price: an Add under a new id, or a Modify that changes its price. */
  predicate Arrives(e: Exchange, op: Op, id: OrderId) {
    match op
    case Add(_, newId, _, _, _) => newId == id && !e.book.Has(id)
    case Modify(m) =>
      m.orderId == id
      && var found := Lookup(e.book.Queue(m.side), id);
         found.Some? && found.value.price != m.price
    case _ => false
  }

  /** The last operation of the run that brought the id to its price, -1 when there is none. */
  function Arrival(e: Exchange, ops: seq<Op>, id: OrderId): (k: int)
    ensures -1 <= k < |ops|
    decreases |ops|
  {
    if ops == [] then -1
    else
      var n := |ops| - 1;
      if Arrives(Run(e, ops[..n]).exchange, ops[n], id) then n else Arrival(e, ops[..n], id)
  }

  lemma {:induction false} ArrivalIsLast(e: Exchange, ops: seq<Op>, id: OrderId)
    ensures var k := Arrival(e, ops, id);
            && (k >= 0 ==> Arrives(Run(e, ops[..k]).exchange, ops[k], id))
            && (forall l | k < l < |ops| :: !Arrives(Run(e, ops[..l]).exchange, ops[l], id))
    decreases |ops|
  {
    hide Run, Arrives;
    if ops != [] {
      var n := |ops| - 1;
      ArrivalIsLast(e, ops[..n], id);
      assert forall l | 0 <= l <= n :: ops[..n][..l] == ops[..l];
    }
  }

  function Arrivals(e: Exchange, ops: seq<Op>): OrderId -> int {
    (id: OrderId) => Arrival(e, ops, id)
  }

  // ---------------------------------------------------------------- queues in time order

  /** Everything resting has arrived, and within one price the queue is in order of arrival. */
  ghost predicate InTime(q: seq<Order>, at: OrderId -> int) {
    && (forall i | 0 <= i < |q| :: at(q[i].id) >= 0)
    && (forall i, j | 0 <= i < j < |q| && q[i].price == q[j].price :: at(q[i].id) < at(q[j].id))
  }

  ghost predicate BookInTime(b: Book, at: OrderId -> int) {
    InTime(b.bids, at) && InTime(b.asks, at)
  }

  lemma ThinsInTime(q: seq<Order>, r: seq<Order>, at: OrderId -> int)
    requires Thins(q, r) && InTime(q, at)
    ensures InTime(r, at)
  {
    var f :| Selects(q, r, f);
    forall i | 0 <= i < |r| ensures r[i].id == q[f[i]].id && r[i].price == q[f[i]].price {
    }
  }

  lemma ThinsBookInTime(b: Book, c: Book, at: OrderId -> int)
    requires ThinsBook(b, c) && BookInTime(b, at)
    ensures BookInTime(c, at)
  {
    ThinsInTime(b.bids, c.bids, at);
    ThinsInTime(b.asks, c.asks, at);
  }

  /** The order arrives after everything in the queue. */
  ghost predicate Newest(q: seq<Order>, at: OrderId -> int, id: OrderId) {
    at(id) >= 0 && forall i | 0 <= i < |q| :: at(q[i].id) < at(id)
  }

  lemma SpliceInTime(q: seq<Order>, o: Order, k: nat, r: seq<Order>, at: OrderId -> int)
    requires InTime(q, at) && Newest(q, at, o.id) && k <= |q|
    requires forall i | k <= i < |q| :: q[i].price != o.price
    requires r == q[..k] + [o] + q[k..]
    ensures InTime(r, at)
  {
    forall i, j | 0 <= i < j < |r| && r[i].price == r[j].price ensures at(r[i].id) < at(r[j].id) {
      assert j > k ==> r[j] == q[j - 1];
      assert j < k ==> r[j] == q[j];
      assert i > k ==> r[i] == q[i - 1];
      assert i < k ==> r[i] == q[i];
    }
  }

  lemma InsertInTime(side: Side, q: seq<Order>, o: Order, at: OrderId -> int)
    requires Sorted(side, q) && InTime(q, at) && Newest(q, at, o.id)
    ensures InTime(Insert(side, q, o), at)
  {
    hide Insert, InTime, Newest, Sorted;
    var k := InsertPosition(side, q, o);
    SpliceInTime(q, o, k, Insert(side, q, o), at);
  }

  lemma MatchIncomingInTime(b: Book, side: Side, o: Order, at: OrderId -> int)
    requires Tidy(b) && BookInTime(b, at) && Newest(b.Queue(side), at, o.id)
    ensures BookInTime(MatchIncoming(b, side, o).book, at)
  {
    var i := Facing(side, Insert(side, b.Queue(side), o), b.Queue(side.Opposite()));
    var c := MatchIncoming(b, side, o).book;
    InsertInTime(side, b.Queue(side), o, at);
    MatchLeavesResidues(i, side);
    ResidueThins(i.bids, c.bids);
    ResidueThins(i.asks, c.asks);
    ThinsBookInTime(i, c, at);
  }

  lemma AddInTime(e: Exchange, orderType: OrderType, id: OrderId, side: Side, price: Price, quantity: Quantity,
                  at: OrderId -> int)
    requires Tidy(e.book) && BookInTime(e.book, at)
    requires !e.book.Has(id) ==> Newest(e.book.Queue(side), at, id)
    ensures BookInTime(AddOrder(e, orderType, id, side, price, quantity).book, at)
  {
    hide BookInTime, Tidy, Newest, MatchIncoming, FillOrKillIncoming, Cancel;
    var o := Incoming(orderType, id, side, price, quantity);
    if !e.book.Has(id) {
      FillOrKillThins(e.book, side, o);
      ThinsBookInTime(e.book, FillOrKillIncoming(e.book, side, o).book, at);
      MatchIncomingInTime(e.book, side, o, at);
      var c := MatchIncoming(e.book, side, o).book;
      CancelThins(c, id);
      ThinsBookInTime(c, Cancel(c, id), at);
    }
  }

  // ---------------------------------------------------------------- steps

  /** Stamps change only for ids that are not in the book. */
  lemma Restamp(b: Book, id: OrderId, at: OrderId -> int, at': OrderId -> int)
    requires BookInTime(b, at) && !b.Has(id)
    requires forall x | x != id :: at'(x) == at(x)
    ensures BookInTime(b, at')
  {
    forall i | 0 <= i < |b.bids| ensures b.bids[i].id != id {
      assert b.bids[i] in b.bids;
    }
    forall i | 0 <= i < |b.asks| ensures b.asks[i].id != id {
      assert b.asks[i] in b.asks;
    }
  }

  /** The arrival stamps after an operation made at time `now`. */
  ghost predicate Stamps(e: Exchange, op: Op, at: OrderId -> int, now: nat, at': OrderId -> int) {
    && (forall x :: at(x) < now)
    && (forall x :: at'(x) == if Arrives(e, op, x) then now else at(x))
  }

  lemma NewestAfter(q: seq<Order>, id: OrderId, at: OrderId -> int, now: nat, at': OrderId -> int)
    requires forall i | 0 <= i < |q| :: q[i].id != id
    requires forall x :: at(x) < now
    requires at'(id) == now && forall x | x != id :: at'(x) == at(x)
    ensures Newest(q, at', id)
  {
  }

  lemma AddStepInTime(e: Exchange, op: Op, at: OrderId -> int, now: nat, at': OrderId -> int)
    requires op.Add? && Sound(e) && BookInTime(e.book, at) && Stamps(e, op, at, now, at')
    ensures BookInTime(Step(e, op).exchange.book, at')
  {
    if e.book.Has(op.id) {
      assert forall x :: at'(x) == at(x);
      AddInTime(e, op.orderType, op.id, op.side, op.price, op.quantity, at);
    } else {
      Restamp(e.book, op.id, at, at');
      NewestAfter(e.book.Queue(op.side), op.id, at, now, at');
      AddInTime(e, op.orderType, op.id, op.side, op.price, op.quantity, at');
    }
  }

  /** A modify that brings its order to a new price. */
  lemma RepriceInTime(e: Exchange, m: OrderModify, at: OrderId -> int, now: nat, at': OrderId -> int)
    requires Sound(e) && BookInTime(e.book, at) && Stamps(e, Modify(m), at, now, at')
    requires Arrives(e, Modify(m), m.orderId)
    ensures BookInTime(ModifyOrder(e, m).book, at')
  {
    var found := Lookup(e.book.Queue(m.side), m.orderId).value;
    var c := Cancel(e.book, m.orderId);
    var q := c.Queue(m.side);
    CancelThins(e.book, m.orderId);
    CancelKeeps(e, m.orderId);
    hide Cancel, AddOrder, Lookup, BookInTime, Newest, Tidy, ThinsBook;
    ThinsBookInTime(e.book, c, at);
    Restamp(c, m.orderId, at, at');
    forall i | 0 <= i < |q| ensures q[i].id != m.orderId {
      assert q[i] in q;
    }
    NewestAfter(q, m.orderId, at, now, at');
    AddInTime(e.(book := c), found.orderType, m.orderId, m.side, m.price, m.quantity, at');
  }

  /** Every operation that brings no order to its price leaves the others in their order. */
  lemma QuietStepThins(e: Exchange, op: Op)
    requires op.Modify? ==> !Arrives(e, op, op.m.orderId)
    requires !op.Add? && !op.Clear?
    ensures ThinsBook(e.book, Step(e, op).exchange.book)
  {
    hide ThinsBook, Cancel, Lookup, SetQuantity;
    ThinsSelfBook(e.book);
    match op
    case CancelOne(id) => CancelThins(e.book, id);
    case Modify(m) => SetQuantityThinsBook(e.book, m);
    case CancelGoodForDay => GoodForDayThinsBook(e.book);
    case SetRules(_) =>
  }

  lemma ThinsSelfBook(b: Book)
    ensures ThinsBook(b, b)
  {
    ThinsSelf(b.bids);
    ThinsSelf(b.asks);
  }

  lemma GoodForDayThinsBook(b: Book)
    ensures ThinsBook(b, CancelGoodForDayOrders(b))
  {
    WithoutGoodForDayThins(b.bids);
    WithoutGoodForDayThins(b.asks);
  }

  lemma StepInTime(e: Exchange, op: Op, at: OrderId -> int, now: nat, at': OrderId -> int)
    requires Sound(e) && BookInTime(e.book, at) && Stamps(e, op, at, now, at')
    ensures BookInTime(Step(e, op).exchange.book, at')
  {
    if op.Add? {
      AddStepInTime(e, op, at, now, at');
    } else if op.Clear? {
      EmptyInTime(at');
    } else if op.Modify? && Arrives(e, op, op.m.orderId) {
      RepriceInTime(e, op.m, at, now, at');
    } else {
      QuietStepThins(e, op);
      SameStamps(e, op, at, now, at');
      hide BookInTime, Step, ThinsBook, Arrives;
      ThinsBookInTime(e.book, Step(e, op).exchange.book, at);
      SameInTime(Step(e, op).exchange.book, at, at');
    }
  }

  lemma SameStamps(e: Exchange, op: Op, at: OrderId -> int, now: nat, at': OrderId -> int)
    requires Stamps(e, op, at, now, at')
    requires !op.Add? && (op.Modify? ==> !Arrives(e, op, op.m.orderId))
    ensures forall x :: at'(x) == at(x)
  {
  }

  lemma SameInTime(b: Book, at: OrderId -> int, at': OrderId -> int)
    requires BookInTime(b, at) && forall x :: at'(x) == at(x)
    ensures BookInTime(b, at')
  {
  }

  // ---------------------------------------------------------------- runs

  lemma {:induction false} RunInTime(e: Exchange, ops: seq<Op>)
    requires e.book == Book([], [])
    ensures BookInTime(Run(e, ops).exchange.book, Arrivals(e, ops))
    decreases |ops|
  {
    hide Run, Step, Arrives, BookInTime, Sound;
    if ops == [] {
      RunNone(e);
      EmptyInTime(Arrivals(e, ops));
    } else {
      var n := |ops| - 1;
      var before := Run(e, ops[..n]).exchange;
      RunInTime(e, ops[..n]);
      EmptyIsSound(e);
      RunKeepsSound(e, ops[..n]);
      RunLast(e, ops, n);
      assert ops[..n + 1] == ops;
      StepInTime(before, ops[n], Arrivals(e, ops[..n]), n, Arrivals(e, ops));
    }
  }

  lemma EmptyInTime(at: OrderId -> int)
    ensures BookInTime(Book([], []), at)
  {
  }

  lemma EmptyIsSound(e: Exchange)
    requires e.book == Book([], [])
    ensures Sound(e)
  {
  }

  /** On every run of the engine, a price level is served in order of arrival. */
  lemma FirstComeFirstServed(e: Exchange, ops: seq<Op>, side: Side, i: nat, j: nat)
    requires e.book == Book([], [])
    requires var q := Run(e, ops).exchange.book.Queue(side);
             i < |q| && j < |q| && q[i].price == q[j].price
    ensures var q := Run(e, ops).exchange.book.Queue(side);
            && 0 <= Arrival(e, ops, q[i].id) < |ops|
            && (i < j <==> Arrival(e, ops, q[i].id) < Arrival(e, ops, q[j].id))
  {
    hide Run, Arrives;
    RunInTime(e, ops);
  }
}
