/** Runs from the empty book on which the order types come apart. */
module Witnesses {
  import opened Types
  import opened Rules
  import opened PriceTimeQueue
  import opened Matching
  import opened Engine
  import opened Invariants
  import opened OrderTypes

  /** Fill-or-kill pays a leftover market order its sentinel price, where the loop pays the limit. */
  lemma FillOrKillDiffersOnRun()
    ensures var e := Run(EmptyExchange(4), [BUY_AT_MAX]).exchange;
            && AddOrder(e, FillOrKill, 2, Sell, 100, 5).result == Ok([Trade(1, 2, PRICE_MAX, 5)])
            && AddOrder(e, GoodTillCancel, 2, Sell, 100, 5).result == Ok([Trade(1, 2, 100, 5)])
            && AddOrder(e, ImmediateOrCancel, 2, Sell, 100, 5).result == Ok([Trade(1, 2, 100, 5)])
  {
    RunOne(EmptyExchange(4), BUY_AT_MAX);
    AddRests(EmptyExchange(4), GoodTillCancel, 1, Buy, PRICE_MAX, 10);
    var e := Run(EmptyExchange(4), [BUY_AT_MAX]).exchange;
    assert e == EmptyExchange(4).(book := Book([Order(1, PRICE_MAX, GoodTillCancel, 10)], []));
    hide Run, AddOrder;
    FillOrKillPaysSentinel(e);
    LoopPaysLimit(e, GoodTillCancel);
    LoopPaysLimit(e, ImmediateOrCancel);
  }

  lemma FillOrKillPaysSentinel(e: Exchange)
    requires e == EmptyExchange(4).(book := Book([Order(1, PRICE_MAX, GoodTillCancel, 10)], []))
    ensures AddOrder(e, FillOrKill, 2, Sell, 100, 5).result == Ok([Trade(1, 2, PRICE_MAX, 5)])
  {
    assert DepthWithin(Sell, e.book.bids, 100) == 10;
  }

  lemma LoopPaysLimit(e: Exchange, orderType: OrderType)
    requires e == EmptyExchange(4).(book := Book([Order(1, PRICE_MAX, GoodTillCancel, 10)], []))
    requires orderType.GoodTillCancel? || orderType.ImmediateOrCancel?
    ensures AddOrder(e, orderType, 2, Sell, 100, 5).result == Ok([Trade(1, 2, 100, 5)])
  {
    hide AddOrder;
    SweepRound(PassivePrice, Sell, e.book.bids, Order(2, 100, orderType, 5));
    AddIsSweep(e, orderType, 2, Sell, 100, 5);
  }

  lemma CrossedBookSeparates(e: Exchange)
    requires e == EmptyExchange(4).(book := Book([Order(3, 105, GoodTillCancel, 10)],
                                                 [Order(2, PRICE_MIN, GoodTillCancel, 10)]))
    ensures var ioc := AddOrder(e, ImmediateOrCancel, 4, Sell, 200, 5);
            var gtc := AddOrder(e, GoodTillCancel, 4, Sell, 200, 5);
            ioc != Added(Cancel(gtc.book, 4), gtc.result)
  {
    hide AddOrder, Cancel;
    assert Enters(e, 4, 200, 5) && Tidy(e.book);
    assert !CanMatch(e.book, Sell, 200) && !Settled(e.book);
    ImmediateOrCancelIsAddThenCancel(e, 4, Sell, 200, 5);
  }

  /**
    On a book left crossed, a good-till-cancel order that cannot match sets off the trades waiting
    there; an immediate-or-cancel order does not.
   */
  lemma ImmediateOrCancelDiffersOnRun()
    ensures var e := Run(EmptyExchange(4), PAIR_OPS + CROSSING_OPS).exchange;
            var ioc := AddOrder(e, ImmediateOrCancel, 4, Sell, 200, 5);
            var gtc := AddOrder(e, GoodTillCancel, 4, Sell, 200, 5);
            ioc != Added(Cancel(gtc.book, 4), gtc.result)
  {
    hide AddOrder, Cancel;
    MarketPairArises();
    RunConcat(EmptyExchange(4), PAIR_OPS, CROSSING_OPS);
    CancelUncoversCross(Run(EmptyExchange(4), PAIR_OPS).exchange);
    CrossedBookSeparates(Run(EmptyExchange(4), PAIR_OPS + CROSSING_OPS).exchange);
  }

  // ---------------------------------------------------------------- a crossed book without sentinels

  const SELL_AT_100: Op := Add(GoodTillCancel, 4, Sell, 100, 15)
  const LIMIT_OPS: seq<Op> := [BUY_AT_105] + ([SELL_AT_100] + ([CancelOne(1)] + ([CancelOne(2)] + [])))

  const CROSSED: Book := Book([Order(3, 105, GoodTillCancel, 10)], [Order(4, 100, GoodTillCancel, 15)])

  lemma LimitsCross(e: Exchange)
    requires e == EmptyExchange(4).(book := Book([Order(1, PRICE_MAX, GoodTillCancel, 10)],
                                                 [Order(2, PRICE_MIN, GoodTillCancel, 10)]))
    ensures Run(e, LIMIT_OPS).exchange == e.(book := CROSSED)
  {
    hide Run;
    AddRests(e, GoodTillCancel, 3, Buy, 105, 10);
    var e1 := e.(book := Book(e.book.bids + CROSSED.bids, e.book.asks));
    assert Step(e, BUY_AT_105).exchange == e1;
    RunStep(e, BUY_AT_105, [SELL_AT_100] + ([CancelOne(1)] + ([CancelOne(2)] + [])));
    AddRests(e1, GoodTillCancel, 4, Sell, 100, 15);
    var e2 := e.(book := Book(e.book.bids + CROSSED.bids, e.book.asks + CROSSED.asks));
    assert Step(e1, SELL_AT_100).exchange == e2;
    RunStep(e1, SELL_AT_100, [CancelOne(1)] + ([CancelOne(2)] + []));
    RunStep(e2, CancelOne(1), [CancelOne(2)] + []);
    RemoveAt(e2.book.bids, 0);
    RemoveAbsent(e2.book.asks, 1);
    var e3 := e.(book := Book(CROSSED.bids, e2.book.asks));
    assert Step(e2, CancelOne(1)).exchange == e3;
    RunStep(e3, CancelOne(2), []);
    RemoveAbsent(e3.book.bids, 2);
    RemoveAt(e3.book.asks, 0);
    assert Step(e3, CancelOne(2)).exchange == e.(book := CROSSED);
    RunNone(e.(book := CROSSED));
  }

  /** Fill-or-kill stops at its own quantity; behind it, the loop trades off the orders that wait crossed. */
  lemma FillOrKillStopsWhereLoopGoesOn()
    ensures var e := Run(EmptyExchange(4), PAIR_OPS + LIMIT_OPS).exchange;
            && e.book == CROSSED
            && AddOrder(e, FillOrKill, 5, Buy, 110, 10).result == Ok([Trade(5, 4, 100, 10)])
            && AddOrder(e, GoodTillCancel, 5, Buy, 110, 10).result == Ok([Trade(5, 4, 100, 10), Trade(3, 4, 100, 5)])
            && AddOrder(e, ImmediateOrCancel, 5, Buy, 110, 10).result == Ok([Trade(5, 4, 100, 10), Trade(3, 4, 100, 5)])
  {
    hide Run, AddOrder;
    MarketPairArises();
    RunConcat(EmptyExchange(4), PAIR_OPS, LIMIT_OPS);
    LimitsCross(Run(EmptyExchange(4), PAIR_OPS).exchange);
    var e := Run(EmptyExchange(4), PAIR_OPS + LIMIT_OPS).exchange;
    FillOrKillStops(e);
    LoopGoesOn(e, GoodTillCancel);
    LoopGoesOn(e, ImmediateOrCancel);
  }

  lemma FillOrKillStops(e: Exchange)
    requires e == EmptyExchange(4).(book := CROSSED)
    ensures AddOrder(e, FillOrKill, 5, Buy, 110, 10).result == Ok([Trade(5, 4, 100, 10)])
  {
    assert DepthWithin(Buy, e.book.asks, 110) == 15;
  }

  lemma LastTrade()
    ensures Match(Book(CROSSED.bids, [Order(4, 100, GoodTillCancel, 5)]), Buy).trades == [Trade(3, 4, 100, 5)]
  {
    hide Match;
    var bid := CROSSED.bids[0];
    var asks := [Order(4, 100, GoodTillCancel, 5)];
    assert CROSSED.bids == [bid] + [];
    MatchRound(Buy, [], asks, bid);
    assert Consume([bid] + [], 5) == [bid.(quantity := 5)] && Consume(asks, 5) == [];
    MatchStops(Book([bid.(quantity := 5)], []), Buy);
  }

  lemma LoopGoesOn(e: Exchange, orderType: OrderType)
    requires e == EmptyExchange(4).(book := CROSSED)
    requires orderType.GoodTillCancel? || orderType.ImmediateOrCancel?
    ensures AddOrder(e, orderType, 5, Buy, 110, 10).result == Ok([Trade(5, 4, 100, 10), Trade(3, 4, 100, 5)])
  {
    hide AddOrder, Match;
    var o := Order(5, 110, orderType, 10);
    var rest := [Order(4, 100, GoodTillCancel, 5)];
    SweepRound(PassivePrice, Buy, e.book.asks, o);
    AddAheadOfHead(e, orderType, 5, Buy, 110, 10);
    assert Consume(e.book.asks, 10) == rest;
    LastTrade();
    assert Sweep(PassivePrice, Buy, e.book.asks, o) == Swept(rest, 0, true, [Trade(5, 4, 100, 10)]);
  }
}
