/** The value types shared by the order book and its specification. */
module Types {

  const PRICE_MIN: Price := -0x8000_0000
  const PRICE_MAX: Price := 0x7fff_ffff

  /** int32_t, uint32_t and uint64_t. */
  type Price = p: int | -0x8000_0000 <= p <= 0x7fff_ffff
  type Quantity = q: int | 0 <= q < 0x1_0000_0000
  type OrderId = i: int | 0 <= i < 0x1_0000_0000_0000_0000

  type SequenceNumber = i: int | 0 <= i < 0x1_0000_0000_0000_0000

  datatype Side = Buy | Sell
  {
    function Opposite(): Side {
      if Buy? then Sell else Buy
    }
  }

  datatype OrderType = GoodTillCancel | ImmediateOrCancel | Market | GoodForDay | FillOrKill

  datatype Trade = Trade(bidOrderId: OrderId, askOrderId: OrderId, price: Price, quantity: Quantity)

  datatype OrderModify = OrderModify(orderId: OrderId, side: Side, price: Price, quantity: Quantity)

  datatype LevelInfo = LevelInfo(price: Price, quantity: Quantity)

  datatype LevelInfos = LevelInfos(bids: seq<LevelInfo>, asks: seq<LevelInfo>)

  datatype SnapshotLevel = SnapshotLevel(price: Price, quantity: Quantity, orderCount: int)

  datatype BookSnapshotMessage =
    BookSnapshotMessage(bids: seq<SnapshotLevel>, asks: seq<SnapshotLevel>, sequenceNumber: SequenceNumber)

  datatype Option<+T> = None | Some(value: T)

  /** Adding an order throws only when the pool has no free slot. */
  datatype AddResult = Ok(trades: seq<Trade>) | PoolExhausted

  /** Unsigned 32-bit wrap-around. */
  function Wrap32(x: int): Quantity {
    x % 0x1_0000_0000
  }

  function Min(a: Quantity, b: Quantity): Quantity {
    if b < a then b else a
  }

  /** Price p is strictly ahead of price q in the ordered map of that side. */
  predicate Better(side: Side, p: Price, q: Price) {
    if side.Buy? then p > q else p < q
  }

  /** An incoming order of that side and price may trade with a resting order at `resting`. */
  predicate Crosses(side: Side, price: Price, resting: Price) {
    if side.Buy? then price >= resting else price <= resting
  }

  /** The price a leftover market order of that side rests at. */
  function MarketPrice(side: Side): Price {
    if side.Buy? then PRICE_MAX else PRICE_MIN
  }

  predicate IsSentinel(price: Price) {
    price == PRICE_MAX || price == PRICE_MIN
  }
}
