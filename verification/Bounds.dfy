/** When cached depths cannot wrap: a bound on quantities, kept over runs, times the size of the pool. */
module Bounds {
  import opened Types
  import opened Rules
  import opened PriceTimeQueue
  import opened Matching
  import opened Engine
  import opened Invariants
  import opened Depth

  ghost predicate AtMost(bound: Quantity, q: seq<Order>) {
    forall i | 0 <= i < |q| :: q[i].quantity <= bound
  }

  ghost predicate BookAtMost(bound: Quantity, b: Book) {
    AtMost(bound, b.bids) && AtMost(bound, b.asks)
  }

  lemma ResidueAtMost(bound: Quantity, q: seq<Order>, r: seq<Order>)
    requires AtMost(bound, q) && Residue(q, r)
    ensures AtMost(bound, r)
  {
  }

  lemma {:induction false} InsertAtMost(bound: Quantity, side: Side, q: seq<Order>, o: Order)
    requires AtMost(bound, q) && o.quantity <= bound
    ensures AtMost(bound, Insert(side, q, o))
  {
    if q != [] {
      InsertAtMost(bound, side, q[1..], o);
    }
  }

  lemma {:induction false} RemoveAtMost(bound: Quantity, q: seq<Order>, id: OrderId)
    requires AtMost(bound, q)
    ensures AtMost(bound, Remove(q, id))
  {
    if q != [] {
      RemoveAtMost(bound, q[1..], id);
    }
  }

  lemma {:induction false} WithoutGoodForDayAtMost(bound: Quantity, q: seq<Order>)
    requires AtMost(bound, q)
    ensures AtMost(bound, WithoutGoodForDay(q))
  {
    if q != [] {
      WithoutGoodForDayAtMost(bound, q[1..]);
    }
  }

  lemma {:induction false} SetQuantityAtMost(bound: Quantity, q: seq<Order>, id: OrderId, n: Quantity)
    requires AtMost(bound, q) && n <= bound
    ensures AtMost(bound, SetQuantity(q, id, n))
  {
    if q != [] {
      SetQuantityAtMost(bound, q[1..], id, n);
    }
  }

  lemma MatchIncomingAtMost(bound: Quantity, b: Book, side: Side, o: Order)
    requires BookAtMost(bound, b) && o.quantity <= bound
    ensures var c := MatchIncoming(b, side, o).book;
            BookAtMost(bound, c) && BookAtMost(bound, Cancel(c, o.id))
  {
    hide AtMost, Residue, Insert, Match, Remove;
    var i := Facing(side, Insert(side, b.Queue(side), o), b.Queue(side.Opposite()));
    var c := MatchIncoming(b, side, o).book;
    InsertAtMost(bound, side, b.Queue(side), o);
    MatchLeavesResidues(i, side);
    ResidueAtMost(bound, i.bids, c.bids);
    ResidueAtMost(bound, i.asks, c.asks);
    RemoveAtMost(bound, c.bids, o.id);
    RemoveAtMost(bound, c.asks, o.id);
  }

  lemma FillOrKillAtMost(bound: Quantity, b: Book, side: Side, o: Order)
    requires BookAtMost(bound, b)
    ensures BookAtMost(bound, FillOrKillIncoming(b, side, o).book)
  {
    hide AtMost, Residue, Sweep;
    var q := b.Queue(side.Opposite());
    SweepLeavesResidue(MakerPrice, side, q, o);
    ResidueAtMost(bound, q, Sweep(MakerPrice, side, q, o).rest);
  }

  lemma AddAtMost(bound: Quantity, e: Exchange, orderType: OrderType, id: OrderId, side: Side, price: Price,
                  quantity: Quantity)
    requires BookAtMost(bound, e.book) && e.rules.maxQuantity <= bound
    ensures BookAtMost(bound, AddOrder(e, orderType, id, side, price, quantity).book)
  {
    hide BookAtMost, MatchIncoming, FillOrKillIncoming, Cancel, CanMatch;
    if quantity <= bound {
      var o := Incoming(orderType, id, side, price, quantity);
      MatchIncomingAtMost(bound, e.book, side, o);
      FillOrKillAtMost(bound, e.book, side, o);
    }
  }

  lemma ModifyAtMost(bound: Quantity, e: Exchange, m: OrderModify)
    requires BookAtMost(bound, e.book) && e.rules.maxQuantity <= bound && m.quantity <= bound
    ensures BookAtMost(bound, ModifyOrder(e, m).book)
  {
    hide AtMost, Remove, SetQuantity, AddOrder;
    SetQuantityAtMost(bound, e.book.Queue(m.side), m.orderId, m.quantity);
    RemoveAtMost(bound, e.book.bids, m.orderId);
    RemoveAtMost(bound, e.book.asks, m.orderId);
    var found := Lookup(e.book.Queue(m.side), m.orderId);
    if found.Some? {
      AddAtMost(bound, e.(book := Cancel(e.book, m.orderId)), found.value.orderType, m.orderId, m.side, m.price,
                m.quantity);
    }
  }

  /** The operation brings in nothing above the bound: the rules cap an Add, nothing caps a Modify. */
  predicate Capped(bound: Quantity, op: Op) {
    match op
    case Modify(m) => m.quantity <= bound
    case SetRules(rules) => rules.maxQuantity <= bound
    case _ => true
  }

  lemma StepAtMost(bound: Quantity, e: Exchange, op: Op)
    requires BookAtMost(bound, e.book) && e.rules.maxQuantity <= bound && Capped(bound, op)
    ensures var e' := Step(e, op).exchange;
            BookAtMost(bound, e'.book) && e'.rules.maxQuantity <= bound && e'.capacity == e.capacity
  {
    match op
    case Add(orderType, id, side, price, quantity) => AddAtMost(bound, e, orderType, id, side, price, quantity);
    case CancelOne(id) =>
      RemoveAtMost(bound, e.book.bids, id);
      RemoveAtMost(bound, e.book.asks, id);
    case Modify(m) => ModifyAtMost(bound, e, m);
    case CancelGoodForDay =>
      WithoutGoodForDayAtMost(bound, e.book.bids);
      WithoutGoodForDayAtMost(bound, e.book.asks);
    case Clear =>
    case SetRules(_) =>
  }

  lemma {:induction false} RunAtMost(bound: Quantity, e: Exchange, ops: seq<Op>)
    requires BookAtMost(bound, e.book) && e.rules.maxQuantity <= bound
    requires forall op | op in ops :: Capped(bound, op)
    ensures BookAtMost(bound, Run(e, ops).exchange.book) && Run(e, ops).exchange.capacity == e.capacity
    decreases |ops|
  {
    hide Step, BookAtMost;
    if ops != [] {
      assert ops[0] in ops;
      StepAtMost(bound, e, ops[0]);
      RunAtMost(bound, Step(e, ops[0]).exchange, ops[1..]);
    }
  }

  /** If no single quantity times the pool size reaches 2^32, every depth a reader gets on any run is the true one. */
  lemma DepthsAreTrue(bound: Quantity, e: Exchange, ops: seq<Op>, side: Side, infos: seq<LevelInfo>)
    requires Sound(e) && BookAtMost(bound, e.book) && e.rules.maxQuantity <= bound
    requires forall op | op in ops :: Capped(bound, op)
    requires e.capacity * bound < 0x1_0000_0000
    requires IsDepthOf(side, Run(e, ops).exchange.book.Queue(side), infos)
    ensures forall i | 0 <= i < |infos| ::
              infos[i].quantity == DepthAt(Run(e, ops).exchange.book.Queue(side), infos[i].price)
    ensures forall p: Price | DepthAt(Run(e, ops).exchange.book.Queue(side), p) > 0 ::
              exists i :: 0 <= i < |infos| && infos[i].price == p
  {
    hide Run, Sound, BookAtMost, DepthAt, Better;
    RunAtMost(bound, e, ops);
    RunKeepsSound(e, ops);
    DepthsFit(bound, Run(e, ops).exchange, side);
  }

  lemma DepthsFit(bound: Quantity, e: Exchange, side: Side)
    requires Sound(e) && BookAtMost(bound, e.book) && e.capacity * bound < 0x1_0000_0000
    ensures forall p :: DepthAt(e.book.Queue(side), p) < 0x1_0000_0000
  {
    var q := e.book.Queue(side);
    assert |q| <= e.capacity && forall o | o in q :: o.quantity <= bound;
    hide DepthAt, Sound, BookAtMost;
    SmallerProduct(|q|, e.capacity, bound);
    forall p ensures DepthAt(q, p) < 0x1_0000_0000 {
      DepthBounded(q, p, bound);
    }
  }

  lemma SmallerProduct(a: nat, b: nat, k: nat)
    requires a <= b
    ensures a * k <= b * k
  {
  }
}
