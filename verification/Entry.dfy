/**
  What it takes to get into the book and what is found there afterwards, said in numbers and in the
  order's own fields.
 */
module Entry {
  import opened Types
  import opened Rules
  import opened PriceTimeQueue
  import opened Matching
  import opened Engine
  import opened Invariants
  import opened OrderTypes
  import opened Agreement
  import opened Prices

  // ---------------------------------------------------------------- market orders

  /**
    A market order is dropped when nothing faces it, and is otherwise, trades and book included, the
    good-till-cancel order at INT_MAX to buy or at INT_MIN to sell.
   */
  lemma MarketIsGoodTillCancel(e: Exchange, id: OrderId, side: Side, price: Price, quantity: Quantity)
    ensures var sentinel := if side.Buy? then 0x7fff_ffff else -0x8000_0000;
            var facing := if side.Buy? then e.book.asks else e.book.bids;
            AddOrder(e, Market, id, side, price, quantity) ==
            if facing == [] then Added(e.book, Ok([])) else AddOrder(e, GoodTillCancel, id, side, sentinel, quantity)
  {
  }

  // ---------------------------------------------------------------- what rests

  lemma ResidueFrom(q: seq<Order>, r: seq<Order>, o: Order)
    requires Residue(q, r) && o in r
    ensures exists p :: p in q && o == p.(quantity := o.quantity) && o.quantity <= p.quantity
  {
    var i :| 0 <= i < |r| && r[i] == o;
    assert q[|q| - |r| + i] in q;
  }

  lemma MatchIncomingRests(b: Book, side: Side, o: Order, p: Order)
    requires Tidy(b) && !b.Has(o.id) && p.id == o.id
    requires p in MatchIncoming(b, side, o).book.bids || p in MatchIncoming(b, side, o).book.asks
    ensures p in MatchIncoming(b, side, o).book.Queue(side)
    ensures p == o.(quantity := p.quantity) && p.quantity <= o.quantity
  {
    var i := Facing(side, Insert(side, b.Queue(side), o), b.Queue(side.Opposite()));
    var c := MatchIncoming(b, side, o).book;
    MatchLeavesResidues(i, side);
    InsertKeeps(side, b.Queue(side), o);
    hide Match, Insert, Residue;
    if p in c.Queue(side.Opposite()) {
      ResidueFrom(b.Queue(side.Opposite()), c.Queue(side.Opposite()), p);
    } else {
      ResidueFrom(i.Queue(side), c.Queue(side), p);
    }
  }

  /**
    Whatever rests under a new id after its Add stands on the order's own side, at its own limit, for no
    more than it asked, and as the type it was sent with, a market order as good-till-cancel. Nothing
    rests of an immediate-or-cancel or fill-or-kill order.
   */
  lemma RestsAsSent(e: Exchange, orderType: OrderType, id: OrderId, side: Side, price: Price, quantity: Quantity,
                    p: Order)
    requires Tidy(e.book) && !e.book.Has(id) && p.id == id
    requires var b := AddOrder(e, orderType, id, side, price, quantity).book;
             p in b.bids || p in b.asks
    ensures var b := AddOrder(e, orderType, id, side, price, quantity).book;
            p in if side.Buy? then b.bids else b.asks
    ensures p.orderType == if orderType.Market? then GoodTillCancel else orderType
    ensures p.price == if !orderType.Market? then price else if side.Buy? then 0x7fff_ffff else -0x8000_0000
    ensures p.quantity <= quantity
    ensures !orderType.ImmediateOrCancel? && !orderType.FillOrKill?
  {
    var o := Incoming(orderType, id, side, price, quantity);
    assert AddOrder(e, orderType, id, side, price, quantity).book != e.book;
    if orderType.FillOrKill? {
      var q := e.book.Queue(side.Opposite());
      SweepLeavesResidue(MakerPrice, side, q, o);
      ResidueLacks(q, Sweep(MakerPrice, side, q, o).rest, id);
    } else {
      ReachingAdd(e, orderType, id, side, price, quantity);
      hide MatchIncoming, AddOrder;
      MatchIncomingKeeps(e.book, side, o);
      CancelThins(MatchIncoming(e.book, side, o).book, id);
      if !orderType.ImmediateOrCancel? {
        MatchIncomingRests(e.book, side, o, p);
      }
    }
  }

  /** What is left of a market order survives the end of the day. */
  lemma MarketSurvivesTheDay(e: Exchange, id: OrderId, side: Side, price: Price, quantity: Quantity, p: Order)
    requires Tidy(e.book) && !e.book.Has(id) && p.id == id
    requires var b := AddOrder(e, Market, id, side, price, quantity).book;
             p in b.bids || p in b.asks
    ensures var b := Step(Step(e, Add(Market, id, side, price, quantity)).exchange, CancelGoodForDay).exchange.book;
            p in if side.Buy? then b.bids else b.asks
  {
    hide AddOrder;
    RestsAsSent(e, Market, id, side, price, quantity, p);
    var b := AddOrder(e, Market, id, side, price, quantity).book;
    WithoutGoodForDayExact(b.bids);
    WithoutGoodForDayExact(b.asks);
  }

  // ---------------------------------------------------------------- the gate

  /** The quantity is in range and whole lots; the price is a sentinel, or positive whole ticks with enough value. */
  ghost predicate Passes(rules: ExchangeRules, price: Price, quantity: Quantity) {
    && rules.minQuantity <= quantity <= rules.maxQuantity
    && IsMultiple(quantity, rules.lotSize)
    && (|| price == 0x7fff_ffff
        || price == -0x8000_0000
        || (price > 0 && IsMultiple(price, rules.tickSize) && price * quantity >= rules.minNotional))
  }

  /** A used id or values that do not pass change nothing, whatever the type. */
  lemma RejectedExactly(e: Exchange, orderType: OrderType, id: OrderId, side: Side, price: Price, quantity: Quantity)
    requires e.book.Has(id) || !Passes(e.rules, Limit(orderType, side, price), quantity)
    ensures AddOrder(e, orderType, id, side, price, quantity) == Added(e.book, Ok([]))
  {
    AdmitsExactly(e.rules, Limit(orderType, side, price), quantity);
  }

  /** With a new id and a free slot, an order that may rest is let in exactly when its values pass. */
  lemma LetInExactly(e: Exchange, orderType: OrderType, id: OrderId, side: Side, price: Price, quantity: Quantity)
    requires orderType.GoodTillCancel? || orderType.GoodForDay?
             || (orderType.Market? && (if side.Buy? then e.book.asks else e.book.bids) != [])
    requires !e.book.Has(id) && |e.book.bids| + |e.book.asks| < e.capacity
    ensures AddOrder(e, orderType, id, side, price, quantity) != Added(e.book, Ok([]))
            <==> Passes(e.rules, Limit(orderType, side, price), quantity)
  {
    hide Passes, RuleSet.Admits, Insert;
    var o := Incoming(orderType, id, side, price, quantity);
    assert Passes(e.rules, o.price, quantity) <==> e.rules.Admits(o.price, quantity) by {
      PassesIsAdmits(e.rules, o.price, quantity);
    }
    if Passes(e.rules, o.price, quantity) {
      ReachingAdd(e, orderType, id, side, price, quantity);
      InsertGrows(side, e.book.Queue(side), o);
      FacingQueues(e.book, side);
    } else {
      RejectedExactly(e, orderType, id, side, price, quantity);
    }
  }

  lemma PassesIsAdmits(rules: ExchangeRules, price: Price, quantity: Quantity)
    ensures Passes(rules, price, quantity) <==> rules.Admits(price, quantity)
  {
    AdmitsExactly(rules, price, quantity);
  }

  /** A fill-or-kill order trades exactly when its values pass and the depth within its limit suffices. */
  lemma FillOrKillLetInExactly(e: Exchange, id: OrderId, side: Side, price: Price, quantity: Quantity)
    requires Tidy(e.book) && !e.book.Has(id) && |e.book.bids| + |e.book.asks| < e.capacity
    ensures var q := if side.Buy? then e.book.asks else e.book.bids;
            AddOrder(e, FillOrKill, id, side, price, quantity) != Added(e.book, Ok([]))
            <==> Passes(e.rules, price, quantity) && quantity > 0 && DepthWithin(side, q, price) >= quantity
  {
    PassesIsAdmits(e.rules, price, quantity);
    hide Passes, RuleSet.Admits, FillOrKillIncoming, MatchIncoming, Tidy;
    if Enters(e, id, price, quantity) {
      if Fills(e.book, side, price, quantity) {
        FillOrKillFills(e, id, side, price, quantity);
      } else {
        KilledAdd(e, id, side, price, quantity);
      }
    }
  }

  /**
    An immediate-or-cancel order that nothing within its limit faces is dropped before it needs a slot,
    on a crossed book and with a full pool too.
   */
  lemma ImmediateOrCancelDropped(e: Exchange, id: OrderId, side: Side, price: Price, quantity: Quantity)
    requires if side.Buy? then e.book.asks == [] || e.book.asks[0].price > price
             else e.book.bids == [] || e.book.bids[0].price < price
    ensures AddOrder(e, ImmediateOrCancel, id, side, price, quantity) == Added(e.book, Ok([]))
  {
  }

  /**
    A full pool fails an add exactly when the order has a new id, passes, and needs a slot: unless it is
    a market order that faces nothing or an immediate-or-cancel order with nothing in reach. Nothing
    else fails, and then nothing has changed.
   */
  lemma ExhaustedExactly(e: Exchange, orderType: OrderType, id: OrderId, side: Side, price: Price, quantity: Quantity)
    ensures var facing := if side.Buy? then e.book.asks else e.book.bids;
            var a := AddOrder(e, orderType, id, side, price, quantity);
            && (a.result.PoolExhausted?
                <==> && |e.book.bids| + |e.book.asks| >= e.capacity && !e.book.Has(id)
                     && Passes(e.rules, Limit(orderType, side, price), quantity)
                     && (orderType.Market? ==> facing != [])
                     && (orderType.ImmediateOrCancel? ==>
                           facing != [] && if side.Buy? then facing[0].price <= price else facing[0].price >= price))
            && (a.result.PoolExhausted? ==> a.book == e.book)
  {
    PassesIsAdmits(e.rules, Limit(orderType, side, price), quantity);
    hide Passes, RuleSet.Admits, FillOrKillIncoming, MatchIncoming, Cancel;
  }

  /** What a new book lets in. */
  lemma NewBookLetsIn(capacity: nat, orderType: OrderType, id: OrderId, side: Side, price: Price, quantity: Quantity)
    requires (orderType.GoodTillCancel? || orderType.GoodForDay?) && capacity > 0
    ensures AddOrder(EmptyExchange(capacity), orderType, id, side, price, quantity) != Added(Book([], []), Ok([]))
            <==> 1 <= quantity <= 1000000 && (price >= 1 || price == -0x8000_0000)
  {
    hide AddOrder, IsMultiple;
    var e := EmptyExchange(capacity);
    assert quantity == Times(quantity, 1) && price == Times(price, 1);
    RemainderIsMultiple(quantity, 1);
    RemainderIsMultiple(price, 1);
    assert price > 0 ==> price * quantity >= 0;
    LetInExactly(e, orderType, id, side, price, quantity);
  }

  // ---------------------------------------------------------------- rules in force

  /** Changing the rules changes the rules, and nothing else. */
  lemma SetRulesExactly(e: Exchange, rules: ExchangeRules)
    ensures Step(e, SetRules(rules)) == Stepped(Exchange(e.book, rules, e.capacity), [])
  {
  }

  lemma OthersKeepRules(e: Exchange, op: Op)
    requires !op.SetRules?
    ensures Step(e, op).exchange.rules == e.rules && Step(e, op).exchange.capacity == e.capacity
  {
  }

  /** The rules in force after a run are those of its last change, or the initial ones. */
  lemma {:induction false} RulesInForce(e: Exchange, ops: seq<Op>)
    ensures var rules := Run(e, ops).exchange.rules;
            && ((forall l | 0 <= l < |ops| :: !ops[l].SetRules?) ==> rules == e.rules)
            && (forall k | 0 <= k < |ops| && ops[k].SetRules? && (forall l | k < l < |ops| :: !ops[l].SetRules?) ::
                  rules == ops[k].rules)
    decreases |ops|
  {
    hide Run, Step;
    if ops == [] {
      RunNone(e);
    } else {
      var n := |ops| - 1;
      RulesInForce(e, ops[..n]);
      RunLast(e, ops, n);
      assert ops[..n + 1] == ops;
      if ops[n].SetRules? {
        SetRulesExactly(Run(e, ops[..n]).exchange, ops[n].rules);
      } else {
        OthersKeepRules(Run(e, ops[..n]).exchange, ops[n]);
      }
    }
  }

  /** After any run, the rules last set are the ones an order has to pass. */
  lemma LastRulesDecide(e: Exchange, ops: seq<Op>, k: nat, orderType: OrderType, id: OrderId, side: Side, price: Price,
                        quantity: Quantity)
    requires k < |ops| && ops[k].SetRules? && forall l | k < l < |ops| :: !ops[l].SetRules?
    requires orderType.GoodTillCancel? || orderType.GoodForDay?
    requires var e' := Run(e, ops).exchange;
             !e'.book.Has(id) && |e'.book.bids| + |e'.book.asks| < e'.capacity
    ensures var e' := Run(e, ops).exchange;
            AddOrder(e', orderType, id, side, price, quantity) != Added(e'.book, Ok([]))
            <==> Passes(ops[k].rules, price, quantity)
  {
    hide Run, AddOrder, Passes;
    RulesInForce(e, ops);
    LetInExactly(Run(e, ops).exchange, orderType, id, side, price, quantity);
  }

  // ---------------------------------------------------------------- cancels

  /** A cancel takes out the order of that id, on whichever side, and leaves all others in their order. */
  lemma CancelExactly(b: Book, id: OrderId)
    requires Tidy(b)
    ensures forall o :: o in Cancel(b, id).bids <==> o in b.bids && o.id != id
    ensures forall o :: o in Cancel(b, id).asks <==> o in b.asks && o.id != id
    ensures Thins(b.bids, Cancel(b, id).bids) && Thins(b.asks, Cancel(b, id).asks)
  {
    CancelThins(b, id);
    hide Thins;
    RemoveMembers(b.bids, id);
    RemoveMembers(b.asks, id);
  }

  lemma {:induction false} RemoveMembers(q: seq<Order>, id: OrderId)
    requires Unique(q)
    ensures forall o :: o in Remove(q, id) <==> o in q && o.id != id
  {
    if q != [] {
      assert q == [q[0]] + q[1..];
      if q[0].id == id {
        forall o | o in q[1..] ensures o.id != id {
          var i :| 0 <= i < |q[1..]| && q[1..][i] == o;
          assert q[i + 1].id != q[0].id;
        }
      } else {
        RemoveMembers(q[1..], id);
      }
    }
  }
}
