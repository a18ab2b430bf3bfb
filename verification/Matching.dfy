/**
  The book as two priority queues, the matching loop on them, and the one-sided price-time sweep
  that an incoming order is supposed to perform.
 */
module Matching {
  import opened Types
  import opened PriceTimeQueue

  datatype Book = Book(bids: seq<Order>, asks: seq<Order>)
  {
    function Queue(side: Side): seq<Order> {
      if side.Buy? then bids else asks
    }

    function Count(): nat {
      |bids| + |asks|
    }

    predicate Has(id: OrderId) {
      Holds(bids, id) || Holds(asks, id)
    }
  }

  /** A book from the queue of one side and the queue facing it. */
  function Facing(side: Side, own: seq<Order>, opposite: seq<Order>): Book {
    if side.Buy? then Book(own, opposite) else Book(opposite, own)
  }

  datatype Outcome = Outcome(book: Book, trades: seq<Trade>)

  // ---------------------------------------------------------------- the matching loop

  /** Prices cross, unless two leftover market orders face each other. */
  predicate Tradeable(bid: Price, ask: Price) {
    bid >= ask && !(bid == PRICE_MAX && ask == PRICE_MIN)
  }

  /** The resting side sets the price, but a leftover market order never does. */
  function TradePrice(aggressor: Side, bid: Price, ask: Price): Price {
    if bid == PRICE_MAX then ask
    else if ask == PRICE_MIN then bid
    else if aggressor.Buy? then ask
    else bid
  }

  /** Takes n from the front order, which leaves the queue when nothing remains. */
  function Consume(q: seq<Order>, n: Quantity): seq<Order>
    requires q != [] && n <= q[0].quantity
  {
    if q[0].quantity == n then q[1..] else [q[0].(quantity := q[0].quantity - n)] + q[1..]
  }

  /** The two heads trade until no cross is left. */
  function Match(b: Book, aggressor: Side): Outcome
    decreases b.Count()
  {
    if Settled(b) then Outcome(b, [])
    else
      var n := Min(b.bids[0].quantity, b.asks[0].quantity);
      var price := TradePrice(aggressor, b.bids[0].price, b.asks[0].price);
      var t := Trade(b.bids[0].id, b.asks[0].id, price, n);
      var r := Match(Book(Consume(b.bids, n), Consume(b.asks, n)), aggressor);
      Outcome(r.book, [t] + r.trades)
  }

  predicate Settled(b: Book) {
    b.bids == [] || b.asks == [] || !Tradeable(b.bids[0].price, b.asks[0].price)
  }

  predicate Uncrossed(b: Book) {
    b.bids == [] || b.asks == [] || b.bids[0].price < b.asks[0].price
  }

  /** An INT_MAX bid rests against an INT_MIN ask. */
  predicate MarketPair(b: Book) {
    b.bids != [] && b.asks != [] && b.bids[0].price == PRICE_MAX && b.asks[0].price == PRICE_MIN
  }

  function Traded(trades: seq<Trade>): nat {
    if trades == [] then 0 else trades[0].quantity + Traded(trades[1..])
  }

  function Bought(trades: seq<Trade>, id: OrderId): nat {
    if trades == [] then 0
    else (if trades[0].bidOrderId == id then trades[0].quantity else 0) + Bought(trades[1..], id)
  }

  function Sold(trades: seq<Trade>, id: OrderId): nat {
    if trades == [] then 0
    else (if trades[0].askOrderId == id then trades[0].quantity else 0) + Sold(trades[1..], id)
  }

  /** r is q after its front was eaten: whole orders are gone, and at most the next one is reduced. */
  ghost predicate Residue(q: seq<Order>, r: seq<Order>) {
    && |r| <= |q|
    && (forall i | 1 <= i < |r| :: r[i] == q[|q| - |r| + i])
    && (r != [] ==>
          && r[0].quantity <= q[|q| - |r|].quantity
          && r[0] == q[|q| - |r|].(quantity := r[0].quantity))
  }

  lemma ConsumeResidue(q: seq<Order>, n: Quantity, r: seq<Order>)
    requires q != [] && n <= q[0].quantity
    requires Residue(Consume(q, n), r)
    ensures Residue(q, r)
  {
    var c := Consume(q, n);
    forall i | 1 <= i < |r| ensures r[i] == q[|q| - |r| + i] {
      assert r[i] == c[|c| - |r| + i];
    }
  }

  /** Having made these trades and reached book c, the loop started on b is where a loop on c starts. */
  ghost predicate Continues(b: Book, aggressor: Side, trades: seq<Trade>, c: Book) {
    Match(b, aggressor) == Outcome(Match(c, aggressor).book, trades + Match(c, aggressor).trades)
  }

  lemma ContinuesSelf(b: Book, aggressor: Side)
    ensures Continues(b, aggressor, [], b)
  {
  }

  lemma ContinuesStep(b: Book, aggressor: Side, trades: seq<Trade>, c: Book, n: Quantity, price: Price)
    requires Continues(b, aggressor, trades, c) && !Settled(c)
    requires n == Min(c.bids[0].quantity, c.asks[0].quantity)
    requires price == TradePrice(aggressor, c.bids[0].price, c.asks[0].price)
    ensures Continues(b, aggressor, trades + [Trade(c.bids[0].id, c.asks[0].id, price, n)],
                      Book(Consume(c.bids, n), Consume(c.asks, n)))
  {
  }

  lemma MatchStops(b: Book, aggressor: Side)
    requires Settled(b)
    ensures Match(b, aggressor) == Outcome(b, [])
  {
  }

  lemma ContinuesChain(a: Book, b: Book, c: Book, aggressor: Side, ts: seq<Trade>, us: seq<Trade>)
    requires Continues(a, aggressor, ts, b) && Continues(b, aggressor, us, c)
    ensures Continues(a, aggressor, ts + us, c)
  {
    assert ts + (us + Match(c, aggressor).trades) == (ts + us) + Match(c, aggressor).trades;
  }

  /** Both queues lose only front orders, whatever the book. */
  lemma {:induction false} MatchLeavesResidues(b: Book, aggressor: Side)
    ensures Residue(b.bids, Match(b, aggressor).book.bids)
    ensures Residue(b.asks, Match(b, aggressor).book.asks)
    decreases b.Count()
  {
    if !Settled(b) {
      var n := Min(b.bids[0].quantity, b.asks[0].quantity);
      MatchLeavesResidues(Book(Consume(b.bids, n), Consume(b.asks, n)), aggressor);
      var r := Match(b, aggressor).book;
      ConsumeResidue(b.bids, n, r.bids);
      ConsumeResidue(b.asks, n, r.asks);
    }
  }

  /** From any book at all, the loop stops uncrossed or with exactly the market pair on top. */
  lemma {:induction false} MatchSettles(b: Book, aggressor: Side)
    ensures Settled(Match(b, aggressor).book)
    ensures Uncrossed(Match(b, aggressor).book) || MarketPair(Match(b, aggressor).book)
    decreases b.Count()
  {
    if !Settled(b) {
      var n := Min(b.bids[0].quantity, b.asks[0].quantity);
      MatchSettles(Book(Consume(b.bids, n), Consume(b.asks, n)), aggressor);
    }
  }

  /** Every trade takes at least one order out, even a trade of quantity zero. */
  lemma {:induction false} MatchIsBounded(b: Book, aggressor: Side)
    ensures |Match(b, aggressor).trades| + Match(b, aggressor).book.Count() <= b.Count()
    decreases b.Count()
  {
    if !Settled(b) {
      var n := Min(b.bids[0].quantity, b.asks[0].quantity);
      MatchIsBounded(Book(Consume(b.bids, n), Consume(b.asks, n)), aggressor);
    }
  }

  /** What leaves each side is what traded, in total and order by order. */
  lemma {:induction false} MatchConserves(b: Book, aggressor: Side, id: OrderId)
    ensures var r := Match(b, aggressor);
            && Volume(b.bids) == Volume(r.book.bids) + Traded(r.trades)
            && Volume(b.asks) == Volume(r.book.asks) + Traded(r.trades)
            && Resting(b.bids, id) == Resting(r.book.bids, id) + Bought(r.trades, id)
            && Resting(b.asks, id) == Resting(r.book.asks, id) + Sold(r.trades, id)
    decreases b.Count()
  {
    if !Settled(b) {
      var n := Min(b.bids[0].quantity, b.asks[0].quantity);
      MatchConserves(Book(Consume(b.bids, n), Consume(b.asks, n)), aggressor, id);
      ConsumeVolume(b.bids, n, id);
      ConsumeVolume(b.asks, n, id);
    }
  }

  lemma ConsumeVolume(q: seq<Order>, n: Quantity, id: OrderId)
    requires q != [] && n <= q[0].quantity
    ensures Volume(q) == Volume(Consume(q, n)) + n
    ensures Resting(q, id) == Resting(Consume(q, n), id) + if q[0].id == id then n else 0
  {
  }

  /** The bid order of a trade was willing to pay its price, and the ask order to accept it. */
  ghost predicate WithinLimits(t: Trade, bids: seq<Order>, asks: seq<Order>) {
    && (exists i :: 0 <= i < |bids| && bids[i].id == t.bidOrderId && t.price <= bids[i].price)
    && (exists j :: 0 <= j < |asks| && asks[j].id == t.askOrderId && t.price >= asks[j].price)
  }

  lemma WithinLimitsBefore(t: Trade, b: Book, n: Quantity)
    requires b.bids != [] && b.asks != [] && n <= b.bids[0].quantity && n <= b.asks[0].quantity
    requires WithinLimits(t, Consume(b.bids, n), Consume(b.asks, n))
    ensures WithinLimits(t, b.bids, b.asks)
  {
  }

  lemma {:induction false} MatchRespectsLimits(b: Book, aggressor: Side)
    ensures forall t | t in Match(b, aggressor).trades :: WithinLimits(t, b.bids, b.asks)
    decreases b.Count()
  {
    if !Settled(b) {
      var n := Min(b.bids[0].quantity, b.asks[0].quantity);
      var c := Book(Consume(b.bids, n), Consume(b.asks, n));
      MatchRespectsLimits(c, aggressor);
      var price := TradePrice(aggressor, b.bids[0].price, b.asks[0].price);
      var t := Trade(b.bids[0].id, b.asks[0].id, price, n);
      assert Match(b, aggressor).trades == [t] + Match(c, aggressor).trades;
      assert WithinLimits(t, b.bids, b.asks);
      forall u | u in Match(c, aggressor).trades ensures WithinLimits(u, b.bids, b.asks) {
        WithinLimitsBefore(u, b, n);
      }
    }
  }

  // ---------------------------------------------------------------- the one-sided sweep

  /** FillOrKill pays every maker's stored price; the loop lets the aggressor price a leftover market order. */
  datatype Pricing = MakerPrice | PassivePrice

  predicate Takes(pricing: Pricing, side: Side, price: Price, maker: Price) {
    && Crosses(side, price, maker)
    && !(pricing.PassivePrice? && price == MarketPrice(side) && maker == MarketPrice(side.Opposite()))
  }

  function PaidPrice(pricing: Pricing, side: Side, price: Price, maker: Price): Price {
    if pricing.PassivePrice? && maker == MarketPrice(side.Opposite()) then price else maker
  }

  function MakeTrade(side: Side, aggressor: OrderId, maker: OrderId, price: Price, n: Quantity): Trade {
    if side.Buy? then Trade(aggressor, maker, price, n) else Trade(maker, aggressor, price, n)
  }

  /** The queue left, what the incoming order still wants, whether it is used up, and its trades. */
  datatype Swept = Swept(rest: seq<Order>, left: Quantity, filled: bool, trades: seq<Trade>)

  /**
    Price-time priority in its plainest form: the incoming order o of that side eats the facing
    queue from the front until it is used up or meets a price it may not take.
   */
  function Sweep(pricing: Pricing, side: Side, q: seq<Order>, o: Order): Swept {
    if q == [] || !Takes(pricing, side, o.price, q[0].price) then Swept(q, o.quantity, false, [])
    else
      var n := Min(o.quantity, q[0].quantity);
      var t := MakeTrade(side, o.id, q[0].id, PaidPrice(pricing, side, o.price, q[0].price), n);
      if n == o.quantity then Swept(Consume(q, n), 0, true, [t])
      else
        var r := Sweep(pricing, side, q[1..], o.(quantity := o.quantity - n));
        r.(trades := [t] + r.trades)
  }

  /** Trade i is with the i-th facing order, at the price due, and takes all of it unless it is the last trade. */
  ghost predicate InPriority(pricing: Pricing, side: Side, q: seq<Order>, o: Order, trades: seq<Trade>) {
    && |trades| <= |q|
    && (forall i | 0 <= i < |trades| ::
          Takes(pricing, side, o.price, q[i].price) && trades[i].quantity <= q[i].quantity)
    && (forall i | 0 <= i < |trades| - 1 :: trades[i].quantity == q[i].quantity)
    && (forall i | 0 <= i < |trades| ::
          trades[i] == MakeTrade(side, o.id, q[i].id,
                                 PaidPrice(pricing, side, o.price, q[i].price), trades[i].quantity))
  }

  lemma InPriorityCons(pricing: Pricing, side: Side, q: seq<Order>, o: Order, o': Order,
                       t: Trade, trades: seq<Trade>)
    requires q != [] && Takes(pricing, side, o.price, q[0].price)
    requires o'.id == o.id && o'.price == o.price
    requires t == MakeTrade(side, o.id, q[0].id, PaidPrice(pricing, side, o.price, q[0].price), q[0].quantity)
    requires InPriority(pricing, side, q[1..], o', trades)
    ensures InPriority(pricing, side, q, o, [t] + trades)
  {
  }

  /** Sweep, said without recursion: which orders trade, in which order, at which price and size. */
  lemma {:induction false} SweepInPriority(pricing: Pricing, side: Side, q: seq<Order>, o: Order)
    ensures InPriority(pricing, side, q, o, Sweep(pricing, side, q, o).trades)
  {
    if q != [] && Takes(pricing, side, o.price, q[0].price) {
      var n := Min(o.quantity, q[0].quantity);
      if n != o.quantity {
        var o' := o.(quantity := o.quantity - n);
        SweepInPriority(pricing, side, q[1..], o');
        InPriorityCons(pricing, side, q, o, o',
                       MakeTrade(side, o.id, q[0].id, PaidPrice(pricing, side, o.price, q[0].price), n),
                       Sweep(pricing, side, q[1..], o').trades);
      }
    }
  }

  lemma ResidueSelf(q: seq<Order>)
    ensures Residue(q, q)
  {
  }

  /** Only front orders are eaten. */
  lemma {:induction false} SweepLeavesResidue(pricing: Pricing, side: Side, q: seq<Order>, o: Order)
    ensures Residue(q, Sweep(pricing, side, q, o).rest)
  {
    hide Residue, Consume;
    ResidueSelf(q);
    if q != [] && Takes(pricing, side, o.price, q[0].price) {
      var n := Min(o.quantity, q[0].quantity);
      ResidueSelf(Consume(q, n));
      ConsumeResidue(q, n, Consume(q, n));
      if n != o.quantity {
        var o' := o.(quantity := o.quantity - n);
        ConsumeWhole(q, n);
        SweepLeavesResidue(pricing, side, q[1..], o');
        ConsumeResidue(q, n, Sweep(pricing, side, q[1..], o').rest);
      }
    }
  }

  /** An order that is not used up has eaten whole orders up to a price it may not take. */
  lemma {:induction false} SweepStops(pricing: Pricing, side: Side, q: seq<Order>, o: Order)
    ensures var s := Sweep(pricing, side, q, o);
            && (s.filled ==> s.left == 0 && s.trades != [])
            && (!s.filled ==>
                  && |s.trades| <= |q| && s.rest == q[|s.trades|..]
                  && (s.rest != [] ==> !Takes(pricing, side, o.price, s.rest[0].price)))
  {
    if q != [] && Takes(pricing, side, o.price, q[0].price) {
      var n := Min(o.quantity, q[0].quantity);
      if n != o.quantity {
        var r := Sweep(pricing, side, q[1..], o.(quantity := o.quantity - n));
        SweepStops(pricing, side, q[1..], o.(quantity := o.quantity - n));
        assert !r.filled ==> q[1..][|r.trades|..] == q[|r.trades| + 1..];
      }
    }
  }

  /** The sweep takes from the queue what it gives to the order, and reports it as trades. */
  lemma {:induction false} SweepConserves(pricing: Pricing, side: Side, q: seq<Order>, o: Order)
    ensures var s := Sweep(pricing, side, q, o);
            && Traded(s.trades) + s.left == o.quantity
            && Volume(q) == Volume(s.rest) + Traded(s.trades)
  {
    if q != [] && Takes(pricing, side, o.price, q[0].price) {
      var n := Min(o.quantity, q[0].quantity);
      ConsumeVolume(q, n, 0);
      if n != o.quantity {
        SweepConserves(pricing, side, q[1..], o.(quantity := o.quantity - n));
      }
    }
  }

  /** At makers' prices, an order is used up exactly when the facing depth within its limit suffices. */
  lemma {:induction false} SweepFills(side: Side, q: seq<Order>, o: Order)
    requires Sorted(side.Opposite(), q) && o.quantity > 0
    ensures Sweep(MakerPrice, side, q, o).filled <==> DepthWithin(side, q, o.price) >= o.quantity
  {
    if q == [] {
    } else if !Takes(MakerPrice, side, o.price, q[0].price) {
      NothingWithin(side, q, o.price);
    } else {
      var n := Min(o.quantity, q[0].quantity);
      if n != o.quantity {
        SweepFills(side, q[1..], o.(quantity := o.quantity - n));
      }
    }
  }

  /** In a sorted queue, a head out of reach puts the whole queue out of reach. */
  lemma {:induction false} NothingWithin(side: Side, q: seq<Order>, limit: Price)
    requires Sorted(side.Opposite(), q)
    requires q != [] ==> !Crosses(side, limit, q[0].price)
    ensures DepthWithin(side, q, limit) == 0
  {
    if q != [] {
      if |q| > 1 {
        assert !Better(side.Opposite(), q[1].price, q[0].price);
      }
      NothingWithin(side, q[1..], limit);
    }
  }

  lemma SettledInsert(side: Side, own: seq<Order>, opposite: seq<Order>, o: Order)
    requires Uncrossed(Facing(side, own, opposite))
    requires opposite == [] || !Takes(PassivePrice, side, o.price, opposite[0].price)
    ensures Settled(Facing(side, Insert(side, own, o), opposite))
  {
  }

  /** One round of the loop when the incoming order o is at the front of its own queue. */
  lemma MatchRound(side: Side, own: seq<Order>, opposite: seq<Order>, o: Order)
    requires opposite != [] && Takes(PassivePrice, side, o.price, opposite[0].price)
    ensures var n := Min(o.quantity, opposite[0].quantity);
            var paid := PaidPrice(PassivePrice, side, o.price, opposite[0].price);
            var r := Match(Facing(side, Consume([o] + own, n), Consume(opposite, n)), side);
            Match(Facing(side, [o] + own, opposite), side) ==
            Outcome(r.book, [MakeTrade(side, o.id, opposite[0].id, paid, n)] + r.trades)
  {
  }

  /**
    The loop with the order o at the front of its own queue, on any book: first o sweeps the facing
    queue, and if that uses it up, the orders behind it go on with what is left.
   */
  lemma {:induction false} MatchFromFront(side: Side, own: seq<Order>, opposite: seq<Order>, o: Order)
    ensures Match(Facing(side, [o] + own, opposite), side) ==
            var s := Sweep(PassivePrice, side, opposite, o);
            if s.filled then
              var r := Match(Facing(side, own, s.rest), side);
              Outcome(r.book, s.trades + r.trades)
            else Outcome(Facing(side, [o.(quantity := s.left)] + own, s.rest), s.trades)
    decreases |opposite|
  {
    hide Match, Sweep, Consume;
    SweepRound(PassivePrice, side, opposite, o);
    if opposite == [] || !Takes(PassivePrice, side, o.price, opposite[0].price) {
      MatchStops(Facing(side, [o] + own, opposite), side);
      assert o.(quantity := o.quantity) == o;
    } else {
      MatchRound(side, own, opposite, o);
      var n := Min(o.quantity, opposite[0].quantity);
      ConsumeFront(o, own, n);
      if n != o.quantity {
        ConsumeWhole(opposite, n);
        var o' := o.(quantity := o.quantity - n);
        MatchFromFront(side, own, opposite[1..], o');
        var s := Sweep(PassivePrice, side, opposite[1..], o');
        assert o'.(quantity := s.left) == o.(quantity := s.left);
        var t := MakeTrade(side, o.id, opposite[0].id, PaidPrice(PassivePrice, side, o.price, opposite[0].price), n);
        PrependTrade(t, s.trades, Match(Facing(side, own, s.rest), side).trades);
      }
    }
  }

  lemma PrependTrade(t: Trade, ts: seq<Trade>, us: seq<Trade>)
    ensures [t] + (ts + us) == ([t] + ts) + us
  {
  }

  /** Every order of one side sweeps the facing queue in turn, until one of them is not used up. */
  function SweepAll(side: Side, own: seq<Order>, q: seq<Order>): Outcome {
    if own == [] then Outcome(Facing(side, [], q), [])
    else
      var s := Sweep(PassivePrice, side, q, own[0]);
      if s.filled then
        var r := SweepAll(side, own[1..], s.rest);
        Outcome(r.book, s.trades + r.trades)
      else Outcome(Facing(side, [own[0].(quantity := s.left)] + own[1..], s.rest), s.trades)
  }

  /** The two-sided loop, on any book at all: the aggressor's side sweeps the facing one, order by order, best first. */
  lemma {:induction false} MatchIsSweepAll(side: Side, own: seq<Order>, q: seq<Order>)
    ensures Match(Facing(side, own, q), side) == SweepAll(side, own, q)
    decreases |own|
  {
    hide Match, Sweep;
    if own == [] {
      MatchStops(Facing(side, own, q), side);
    } else {
      assert own == [own[0]] + own[1..];
      MatchFromFront(side, own[1..], q, own[0]);
      MatchIsSweepAll(side, own[1..], Sweep(PassivePrice, side, q, own[0]).rest);
    }
  }

  /** A trade of some order of the aggressor's queue with some order it faces, at the price due. */
  ghost predicate DuePrice(side: Side, own: seq<Order>, q: seq<Order>, t: Trade) {
    exists i, j :: 0 <= i < |own| && 0 <= j < |q|
      && t == MakeTrade(side, own[i].id, q[j].id, PaidPrice(PassivePrice, side, own[i].price, q[j].price), t.quantity)
  }

  lemma DuePriceBefore(side: Side, own: seq<Order>, q: seq<Order>, n: Quantity, t: Trade)
    requires own != [] && q != [] && n <= own[0].quantity && n <= q[0].quantity
    requires DuePrice(side, Consume(own, n), Consume(q, n), t)
    ensures DuePrice(side, own, q, t)
  {
    var o, r := Consume(own, n), Consume(q, n);
    var i, j :| 0 <= i < |o| && 0 <= j < |r|
      && t == MakeTrade(side, o[i].id, r[j].id, PaidPrice(PassivePrice, side, o[i].price, r[j].price), t.quantity);
    ConsumeAt(own, n, i);
    ConsumeAt(q, n, j);
    hide Consume, MakeTrade, PaidPrice;
    var i', j' := |own| - |o| + i, |q| - |r| + j;
    assert own[i'].id == o[i].id && own[i'].price == o[i].price && q[j'].id == r[j].id && q[j'].price == r[j].price;
  }

  lemma ConsumeAt(q: seq<Order>, n: Quantity, j: nat)
    requires q != [] && n <= q[0].quantity && j < |Consume(q, n)|
    ensures var r := Consume(q, n);
            |r| <= |q| && q[|q| - |r| + j].id == r[j].id && q[|q| - |r| + j].price == r[j].price
  {
  }

  /** On any book, every trade of the loop is at the price due between its two orders. */
  lemma {:induction false} MatchPaysDuePrices(side: Side, own: seq<Order>, q: seq<Order>)
    ensures forall t | t in Match(Facing(side, own, q), side).trades :: DuePrice(side, own, q, t)
    decreases |own| + |q|
  {
    hide DuePrice, Consume;
    var b := Facing(side, own, q);
    if !Settled(b) {
      var n := Min(own[0].quantity, q[0].quantity);
      var t := MakeTrade(side, own[0].id, q[0].id, PaidPrice(PassivePrice, side, own[0].price, q[0].price), n);
      ConsumeShortens(own, q);
      MatchPaysDuePrices(side, Consume(own, n), Consume(q, n));
      assert own == [own[0]] + own[1..];
      MatchRound(side, own[1..], q, own[0]);
      HeadsDue(side, own, q, n);
      forall u | u in Match(b, side).trades ensures DuePrice(side, own, q, u) {
        if u != t {
          DuePriceBefore(side, own, q, n, u);
        }
      }
    }
  }

  lemma ConsumeShortens(own: seq<Order>, q: seq<Order>)
    requires own != [] && q != []
    ensures var n := Min(own[0].quantity, q[0].quantity);
            |Consume(own, n)| + |Consume(q, n)| < |own| + |q|
  {
  }

  lemma HeadsDue(side: Side, own: seq<Order>, q: seq<Order>, n: Quantity)
    requires own != [] && q != []
    ensures DuePrice(side, own, q, MakeTrade(side, own[0].id, q[0].id,
                                             PaidPrice(PassivePrice, side, own[0].price, q[0].price), n))
  {
  }

  lemma ConsumeFront(o: Order, own: seq<Order>, n: Quantity)
    requires n <= o.quantity
    ensures Consume([o] + own, n) == if n == o.quantity then own else [o.(quantity := o.quantity - n)] + own
  {
  }

  lemma ConsumeWhole(q: seq<Order>, n: Quantity)
    requires q != [] && n == q[0].quantity
    ensures Consume(q, n) == q[1..]
  {
  }

  lemma UncrossedIsSettled(b: Book)
    requires Uncrossed(b)
    ensures Settled(b)
  {
  }

  /** One round of the sweep. */
  lemma SweepRound(pricing: Pricing, side: Side, q: seq<Order>, o: Order)
    ensures q == [] || !Takes(pricing, side, o.price, q[0].price) ==>
              Sweep(pricing, side, q, o) == Swept(q, o.quantity, false, [])
    ensures q != [] && Takes(pricing, side, o.price, q[0].price) ==>
              var n := Min(o.quantity, q[0].quantity);
              var t := MakeTrade(side, o.id, q[0].id, PaidPrice(pricing, side, o.price, q[0].price), n);
              var r := Sweep(pricing, side, q[1..], o.(quantity := o.quantity - n));
              Sweep(pricing, side, q, o) ==
              if n == o.quantity then Swept(Consume(q, n), 0, true, [t]) else r.(trades := [t] + r.trades)
  {
  }

  /**
    Price-time priority: on any uncrossed book, inserting an order and running the two-sided loop
    is the one-sided sweep, with any remainder queued last at its own price.
   */
  lemma MatchIsSweep(side: Side, own: seq<Order>, opposite: seq<Order>, o: Order)
    requires Uncrossed(Facing(side, own, opposite))
    requires Sorted(side.Opposite(), opposite)
    ensures Match(Facing(side, Insert(side, own, o), opposite), side) ==
            var s := Sweep(PassivePrice, side, opposite, o);
            Outcome(Facing(side, if s.filled then own else Insert(side, own, o.(quantity := s.left)), s.rest),
                    s.trades)
  {
    hide Sweep, Match, Sorted;
    SweepRound(PassivePrice, side, opposite, o);
    if opposite == [] || !Takes(PassivePrice, side, o.price, opposite[0].price) {
      SettledInsert(side, own, opposite, o);
      MatchStops(Facing(side, Insert(side, own, o), opposite), side);
      assert o.(quantity := o.quantity) == o;
    } else {
      MatchFromFront(side, own, opposite, o);
      var s := Sweep(PassivePrice, side, opposite, o);
      var o' := o.(quantity := s.left);
      assert Insert(side, own, o) == [o] + own && Insert(side, own, o') == [o'] + own;
      SweepLeavesResidue(PassivePrice, side, opposite, o);
      ResidueKeepsUncrossed(side, own, opposite, s.rest);
      UncrossedIsSettled(Facing(side, own, s.rest));
      MatchStops(Facing(side, own, s.rest), side);
    }
  }

  /** Uncrossedness survives eating the front of a sorted queue. */
  lemma ResidueKeepsUncrossed(side: Side, own: seq<Order>, q: seq<Order>, r: seq<Order>)
    requires Uncrossed(Facing(side, own, q)) && Sorted(side.Opposite(), q) && Residue(q, r)
    ensures Uncrossed(Facing(side, own, r))
  {
    if 0 < |r| < |q| {
      assert !Better(side.Opposite(), q[|q| - |r|].price, q[0].price);
    }
  }
}
