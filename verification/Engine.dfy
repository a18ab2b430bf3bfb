/**
  The public operations of the engine on the abstract book. The pool enters only through its
  capacity: each resting order holds one slot.
 */
module Engine {
  import opened Types
  import opened Rules
  import opened PriceTimeQueue
  import opened Matching

  datatype Exchange = Exchange(book: Book, rules: ExchangeRules, capacity: nat)
  {
    predicate Full() {
      book.Count() >= capacity
    }
  }

  function EmptyExchange(capacity: nat): Exchange {
    Exchange(Book([], []), DEFAULT_RULES, capacity)
  }

  predicate CanMatch(b: Book, side: Side, price: Price) {
    var q := b.Queue(side.Opposite());
    q != [] && Crosses(side, price, q[0].price)
  }

  predicate Validates(b: Book, rules: ExchangeRules, id: OrderId, price: Price, quantity: Quantity) {
    !b.Has(id) && rules.Admits(price, quantity)
  }

  function MatchIncoming(b: Book, side: Side, o: Order): Outcome {
    Match(Facing(side, Insert(side, b.Queue(side), o), b.Queue(side.Opposite())), side)
  }

  /** All or nothing, at the makers' prices; the order itself never rests. */
  function FillOrKillIncoming(b: Book, side: Side, o: Order): Outcome {
    var q := b.Queue(side.Opposite());
    if o.quantity == 0 || DepthWithin(side, q, o.price) < o.quantity then Outcome(b, [])
    else
      var s := Sweep(MakerPrice, side, q, o);
      Outcome(Facing(side, b.Queue(side), s.rest), s.trades)
  }

  datatype Added = Added(book: Book, result: AddResult)

  /** AddOrder once the price and the order type are settled. */
  function AddPriced(e: Exchange, orderType: OrderType, id: OrderId, side: Side, price: Price,
                     quantity: Quantity): Added
  {
    if !Validates(e.book, e.rules, id, price, quantity) then Added(e.book, Ok([]))
    else if orderType.ImmediateOrCancel? && !CanMatch(e.book, side, price) then Added(e.book, Ok([]))
    else if e.Full() then Added(e.book, PoolExhausted)
    else
      var o := Order(id, price, orderType, quantity);
      if orderType.FillOrKill? then
        var r := FillOrKillIncoming(e.book, side, o);
        Added(r.book, Ok(r.trades))
      else
        var r := MatchIncoming(e.book, side, o);
        Added(if orderType.ImmediateOrCancel? then Cancel(r.book, id) else r.book, Ok(r.trades))
  }

  /** A market order is a good-till-cancel order at its side's sentinel price; any other order is what it says. */
  function TypeFor(orderType: OrderType): OrderType {
    if orderType.Market? then GoodTillCancel else orderType
  }

  function PriceFor(orderType: OrderType, side: Side, price: Price): Price {
    if orderType.Market? then MarketPrice(side) else price
  }

  /** The order as it enters the book. */
  function Incoming(orderType: OrderType, id: OrderId, side: Side, price: Price, quantity: Quantity): Order {
    Order(id, PriceFor(orderType, side, price), TypeFor(orderType), quantity)
  }

  /** The order enters the engine: it passes validation and finds a slot. */
  predicate Enters(e: Exchange, id: OrderId, price: Price, quantity: Quantity) {
    Validates(e.book, e.rules, id, price, quantity) && !e.Full()
  }

  /** The order reaches the book: it is valid at its price, finds a slot, and a market order has something to face. */
  predicate Reaches(e: Exchange, orderType: OrderType, id: OrderId, side: Side, price: Price, quantity: Quantity) {
    && Enters(e, id, PriceFor(orderType, side, price), quantity)
    && (orderType.Market? ==> e.book.Queue(side.Opposite()) != [])
  }

  /** A market order becomes a limit order at the sentinel price, or is dropped when nothing faces it. */
  function AddOrder(e: Exchange, orderType: OrderType, id: OrderId, side: Side, price: Price,
                    quantity: Quantity): Added
  {
    if !orderType.Market? then AddPriced(e, orderType, id, side, price, quantity)
    else if e.book.Queue(side.Opposite()) == [] then Added(e.book, Ok([]))
    else AddPriced(e, GoodTillCancel, id, side, MarketPrice(side), quantity)
  }

  function Cancel(b: Book, id: OrderId): Book {
    Book(Remove(b.bids, id), Remove(b.asks, id))
  }

  function Lookup(q: seq<Order>, id: OrderId): Option<Order> {
    if q == [] then None
    else if q[0].id == id then Some(q[0])
    else Lookup(q[1..], id)
  }

  function ModifyOrder(e: Exchange, m: OrderModify): Added {
    var q := e.book.Queue(m.side);
    match Lookup(q, m.orderId)
    case None => Added(e.book, Ok([]))  // unknown, or resting on the other side
    case Some(existing) =>
      if existing.price == m.price then
        Added(Facing(m.side, SetQuantity(q, m.orderId, m.quantity), e.book.Queue(m.side.Opposite())), Ok([]))
      else
        AddOrder(e.(book := Cancel(e.book, m.orderId)), existing.orderType, m.orderId, m.side, m.price, m.quantity)
  }

  function CancelGoodForDayOrders(b: Book): Book {
    Book(WithoutGoodForDay(b.bids), WithoutGoodForDay(b.asks))
  }

  // ---------------------------------------------------------------- runs

  /** Clear is the first phase of a snapshot; its second phase is a run of Adds. */
  datatype Op =
    | Add(orderType: OrderType, id: OrderId, side: Side, price: Price, quantity: Quantity)
    | CancelOne(id: OrderId)
    | Modify(m: OrderModify)
    | CancelGoodForDay
    | Clear
    | SetRules(rules: ExchangeRules)

  datatype Stepped = Stepped(exchange: Exchange, trades: seq<Trade>)

  function Settle(e: Exchange, a: Added): Stepped {
    Stepped(e.(book := a.book), if a.result.Ok? then a.result.trades else [])
  }

  function Step(e: Exchange, op: Op): Stepped {
    match op
    case Add(orderType, id, side, price, quantity) =>
      Settle(e, AddOrder(e, orderType, id, side, price, quantity))
    case CancelOne(id) => Stepped(e.(book := Cancel(e.book, id)), [])
    case Modify(m) => Settle(e, ModifyOrder(e, m))
    case CancelGoodForDay => Stepped(e.(book := CancelGoodForDayOrders(e.book)), [])
    case Clear => Stepped(e.(book := Book([], [])), [])
    case SetRules(rules) => Stepped(e.(rules := rules), [])
  }

  function Run(e: Exchange, ops: seq<Op>): Stepped
    decreases |ops|
  {
    if ops == [] then Stepped(e, [])
    else
      var first := Step(e, ops[0]);
      var rest := Run(first.exchange, ops[1..]);
      Stepped(rest.exchange, first.trades + rest.trades)
  }

  /** A lasting order that finds nothing to trade with rests behind its equals. */
  lemma AddRests(e: Exchange, orderType: OrderType, id: OrderId, side: Side, price: Price, quantity: Quantity)
    requires orderType.GoodTillCancel? || orderType.GoodForDay?
    requires Validates(e.book, e.rules, id, price, quantity) && !e.Full()
    requires Settled(Facing(side, Insert(side, e.book.Queue(side), Order(id, price, orderType, quantity)),
                            e.book.Queue(side.Opposite())))
    ensures AddOrder(e, orderType, id, side, price, quantity) ==
            Added(Facing(side, Insert(side, e.book.Queue(side), Order(id, price, orderType, quantity)),
                         e.book.Queue(side.Opposite())), Ok([]))
  {
  }

  // ---------------------------------------------------------------- snapshots

  const FIRST_SYNTHETIC_ID: OrderId := 0x8000_0000_0000_0000

  /** syntheticId++ wraps at 64 bits. */
  function NextId(id: OrderId): OrderId {
    (id + 1) % 0x1_0000_0000_0000_0000
  }

  /** One Add per non-zero level; only those levels use up a synthetic id. */
  function LevelOps(side: Side, levels: seq<SnapshotLevel>, id: OrderId): seq<Op> {
    if levels == [] then []
    else if levels[0].quantity == 0 then LevelOps(side, levels[1..], id)
    else [Add(GoodTillCancel, id, side, levels[0].price, levels[0].quantity)]
         + LevelOps(side, levels[1..], NextId(id))
  }

  function IdAfter(levels: seq<SnapshotLevel>, id: OrderId): OrderId {
    if levels == [] then id
    else IdAfter(levels[1..], if levels[0].quantity == 0 then id else NextId(id))
  }

  function SnapshotOps(msg: BookSnapshotMessage): seq<Op> {
    [Clear]
    + LevelOps(Buy, msg.bids, FIRST_SYNTHETIC_ID)
    + LevelOps(Sell, msg.asks, IdAfter(msg.bids, FIRST_SYNTHETIC_ID))
  }

  // ---------------------------------------------------------------- the market data feed

  /** A trade report is only counted. */
  datatype MarketDataMessage =
    | NewOrder(orderType: OrderType, id: OrderId, side: Side, price: Price, quantity: Quantity)
    | CancelRequest(id: OrderId)
    | ModifyRequest(m: OrderModify)
    | TradeReport
    | BookSnapshot(snapshot: BookSnapshotMessage)

  /** The operations a message stands for. */
  function MessageOps(msg: MarketDataMessage): seq<Op> {
    match msg
    case NewOrder(orderType, id, side, price, quantity) => [Add(orderType, id, side, price, quantity)]
    case CancelRequest(id) => [CancelOne(id)]
    case ModifyRequest(m) => [Modify(m)]
    case TradeReport => []
    case BookSnapshot(snapshot) => SnapshotOps(snapshot)
  }

  function BatchOps(msgs: seq<MarketDataMessage>): seq<Op> {
    if msgs == [] then [] else MessageOps(msgs[0]) + BatchOps(msgs[1..])
  }
}
