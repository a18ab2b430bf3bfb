/**
  What every trade is priced at, said of the stored orders alone, and in numbers: an INT_MAX bid pays
  the ask, an INT_MIN ask gets the bid, and otherwise the resting side sets the price.
 */
module Prices {
  import opened Types
  import opened Rules
  import opened PriceTimeQueue
  import opened Matching
  import opened Engine
  import opened Invariants
  import opened OrderTypes
  import opened Limits

  /** The trade is between a bid and an ask of these queues, at the price their stored prices call for. */
  ghost predicate PricedByRule(aggressor: Side, bids: seq<Order>, asks: seq<Order>, t: Trade) {
    exists i, j :: 0 <= i < |bids| && 0 <= j < |asks|
      && bids[i].id == t.bidOrderId && asks[j].id == t.askOrderId
      && t.price == if bids[i].price == 0x7fff_ffff then asks[j].price
                    else if asks[j].price == -0x8000_0000 then bids[i].price
                    else if aggressor.Buy? then asks[j].price
                    else bids[i].price
  }

  lemma PricedBefore(aggressor: Side, b: Book, n: Quantity, t: Trade)
    requires b.bids != [] && b.asks != [] && n <= b.bids[0].quantity && n <= b.asks[0].quantity
    requires PricedByRule(aggressor, Consume(b.bids, n), Consume(b.asks, n), t)
    ensures PricedByRule(aggressor, b.bids, b.asks, t)
  {
    var bids, asks := Consume(b.bids, n), Consume(b.asks, n);
    var i, j :| 0 <= i < |bids| && 0 <= j < |asks|
      && bids[i].id == t.bidOrderId && asks[j].id == t.askOrderId
      && t.price == if bids[i].price == 0x7fff_ffff then asks[j].price
                    else if asks[j].price == -0x8000_0000 then bids[i].price
                    else if aggressor.Buy? then asks[j].price
                    else bids[i].price;
    ConsumeAt(b.bids, n, i);
    ConsumeAt(b.asks, n, j);
    hide Consume;
    var i', j' := |b.bids| - |bids| + i, |b.asks| - |asks| + j;
    assert b.bids[i'].id == bids[i].id && b.asks[j'].id == asks[j].id;
  }

  /** On any book. */
  lemma {:induction false} MatchPrices(b: Book, aggressor: Side)
    ensures forall t | t in Match(b, aggressor).trades :: PricedByRule(aggressor, b.bids, b.asks, t)
    decreases b.Count()
  {
    if !Settled(b) {
      var n := Min(b.bids[0].quantity, b.asks[0].quantity);
      var c := Book(Consume(b.bids, n), Consume(b.asks, n));
      MatchPrices(c, aggressor);
      var t := Match(b, aggressor).trades[0];
      assert Match(b, aggressor).trades == [t] + Match(c, aggressor).trades;
      assert PricedByRule(aggressor, b.bids, b.asks, t);
      hide PricedByRule, Consume, Match;
      forall u | u in [t] + Match(c, aggressor).trades ensures PricedByRule(aggressor, b.bids, b.asks, u) {
        if u != t {
          PricedBefore(aggressor, b, n, u);
        }
      }
    }
  }

  lemma PricedMore(aggressor: Side, bids: seq<Order>, asks: seq<Order>, bids': seq<Order>, asks': seq<Order>, t: Trade)
    requires PricedByRule(aggressor, bids, asks, t)
    requires (forall o | o in bids :: o in bids') && (forall o | o in asks :: o in asks')
    ensures PricedByRule(aggressor, bids', asks', t)
  {
    var i, j :| 0 <= i < |bids| && 0 <= j < |asks|
      && bids[i].id == t.bidOrderId && asks[j].id == t.askOrderId
      && t.price == if bids[i].price == 0x7fff_ffff then asks[j].price
                    else if asks[j].price == -0x8000_0000 then bids[i].price
                    else if aggressor.Buy? then asks[j].price
                    else bids[i].price;
    assert bids[i] in bids && asks[j] in asks;
    var i' :| 0 <= i' < |bids'| && bids'[i'] == bids[i];
    var j' :| 0 <= j' < |asks'| && asks'[j'] == asks[j];
  }

  lemma PricedAlike(aggressor: Side, b: Book, c: Book, t: Trade)
    requires PricedByRule(aggressor, b.bids, b.asks, t) && Alike(b.bids, c.bids) && Alike(b.asks, c.asks)
    ensures PricedByRule(aggressor, c.bids, c.asks, t)
  {
  }

  /** The same ids at the same prices. */
  ghost predicate Alike(q: seq<Order>, r: seq<Order>) {
    |q| == |r| && forall i | 0 <= i < |q| :: q[i].id == r[i].id && q[i].price == r[i].price
  }

  /** The limit an order trades under: a market order's is the best there is. */
  function Limit(orderType: OrderType, side: Side, price: Price): Price {
    if !orderType.Market? then price else if side.Buy? then 0x7fff_ffff else -0x8000_0000
  }

  /**
    Every trade of every add that goes through the loop, on any book, crossed or not. On a tidy book
    with a fresh id, the two ids of a trade name one order each.
   */
  lemma AddPricesTrades(e: Exchange, orderType: OrderType, id: OrderId, side: Side, price: Price, quantity: Quantity)
    requires !orderType.FillOrKill?
    ensures var o := Order(id, Limit(orderType, side, price), orderType, quantity);
            var bids := if side.Buy? then e.book.bids + [o] else e.book.bids;
            var asks := if side.Sell? then e.book.asks + [o] else e.book.asks;
            var a := AddOrder(e, orderType, id, side, price, quantity);
            a.result.Ok? ==> forall t | t in a.result.trades :: PricedByRule(side, bids, asks, t)
    ensures Tidy(e.book) && !e.book.Has(id) ==>
              var o := Order(id, Limit(orderType, side, price), orderType, quantity);
              Unique(e.book.Queue(side) + [o]) && Disjoint(e.book.Queue(side) + [o], e.book.Queue(side.Opposite()))
  {
    hide PricedByRule, Match, Insert;
    var o := Incoming(orderType, id, side, price, quantity);
    var own, q := e.book.Queue(side), e.book.Queue(side.Opposite());
    var i := Facing(side, Insert(side, own, o), q);
    MatchPrices(i, side);
    InsertMembers(side, own, o);
    var w := With(e.book, side, o);
    forall t | t in Match(i, side).trades ensures PricedByRule(side, w.bids, w.asks, t) {
      PricedMore(side, i.bids, i.asks, w.bids, w.asks, t);
    }
    var o' := Order(id, Limit(orderType, side, price), orderType, quantity);
    var c := With(e.book, side, o');
    forall t | t in Match(i, side).trades ensures PricedByRule(side, c.bids, c.asks, t) {
      PricedAlike(side, w, c, t);
    }
  }

  /** A trade of the incoming order with the resting one, whichever of them buys. */
  function Between(side: Side, id: OrderId, maker: OrderId, price: Price, n: Quantity): Trade {
    if side.Buy? then Trade(id, maker, price, n) else Trade(maker, id, price, n)
  }

  /**
    On an uncrossed book, trade by trade: the i-th is with the i-th facing order, for all of it unless
    it is the last, at the incoming limit if that order rests at its market price, else at its price.
   */
  lemma AddTradesExactly(e: Exchange, orderType: OrderType, id: OrderId, side: Side, price: Price, quantity: Quantity)
    requires Tidy(e.book) && Uncrossed(e.book) && Reaches(e, orderType, id, side, price, quantity)
    requires !orderType.FillOrKill?
    ensures var q := e.book.Queue(side.Opposite());
            var trades := AddOrder(e, orderType, id, side, price, quantity).result.trades;
            && |trades| <= |q|
            && (forall i | 0 <= i < |trades| ::
                  && trades[i] == Between(side, id, q[i].id,
                                          if q[i].price == (if side.Buy? then -0x8000_0000 else 0x7fff_ffff)
                                          then Limit(orderType, side, price) else q[i].price, trades[i].quantity)
                  && trades[i].quantity <= q[i].quantity)
            && (forall i | 0 <= i < |trades| - 1 :: trades[i].quantity == q[i].quantity)
  {
    hide AddOrder, Sweep, Tidy, Residue, Reaches;
    AddIsSweep(e, orderType, id, side, price, quantity);
  }

  /** Fill-or-kill: the same, always at the resting order's stored price, sentinel or not. */
  lemma FillOrKillTradesExactly(e: Exchange, id: OrderId, side: Side, price: Price, quantity: Quantity)
    requires Tidy(e.book) && Enters(e, id, price, quantity)
    ensures var q := e.book.Queue(side.Opposite());
            var trades := AddOrder(e, FillOrKill, id, side, price, quantity).result.trades;
            && |trades| <= |q|
            && (forall i | 0 <= i < |trades| ::
                  && trades[i] == Between(side, id, q[i].id, q[i].price, trades[i].quantity)
                  && trades[i].quantity <= q[i].quantity)
            && (forall i | 0 <= i < |trades| - 1 :: trades[i].quantity == q[i].quantity)
  {
    hide AddOrder, Sweep, Tidy, Residue, Enters;
    FillOrKillExactly(e, id, side, price, quantity);
  }
}
