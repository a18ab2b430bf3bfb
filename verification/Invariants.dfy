/**
  What every operation keeps: both queues sorted, ids unique across the book, only good-till-cancel
  and good-for-day orders resting, no more orders than slots, and the book uncrossed.
 */
module Invariants {
  import opened Types
  import opened Rules
  import opened PriceTimeQueue
  import opened Matching
  import opened Engine

  // ---------------------------------------------------------------- thinning a queue

  /** The same order, whatever quantity it has left. */
  ghost predicate SameOrder(a: Order, b: Order) {
    a == b.(quantity := a.quantity)
  }

  ghost predicate Selects(q: seq<Order>, r: seq<Order>, f: seq<int>) {
    && |f| == |r|
    && (forall i | 0 <= i < |f| :: 0 <= f[i] < |q| && SameOrder(r[i], q[f[i]]))
    && (forall i, j | 0 <= i < j < |f| :: f[i] < f[j])
  }

  /** r keeps some orders of q, in q's order, possibly with other quantities. */
  ghost predicate Thins(q: seq<Order>, r: seq<Order>) {
    exists f :: Selects(q, r, f)
  }

  ghost predicate OrdersFrom(q: seq<Order>, r: seq<Order>) {
    forall o | o in r :: exists p :: p in q && SameOrder(o, p)
  }

  lemma ThinsKeeps(side: Side, q: seq<Order>, r: seq<Order>)
    requires Thins(q, r) && Sorted(side, q) && Unique(q)
    ensures Sorted(side, r) && Unique(r) && OrdersFrom(q, r) && |r| <= |q|
    ensures r != [] ==> q != [] && !Better(side, r[0].price, q[0].price)
  {
    var f :| Selects(q, r, f);
    forall o | o in r ensures exists p :: p in q && SameOrder(o, p) {
      var i :| 0 <= i < |r| && r[i] == o;
      assert q[f[i]] in q;
    }
    IncreasingIsShort(f, |q|);
  }

  lemma {:induction false} IncreasingIsShort(f: seq<int>, n: nat)
    requires forall i | 0 <= i < |f| :: 0 <= f[i] < n
    requires forall i, j | 0 <= i < j < |f| :: f[i] < f[j]
    ensures |f| <= n
  {
    if f != [] {
      IncreasingIsShort(f[..|f| - 1], f[|f| - 1]);
    }
  }

  lemma ResidueThins(q: seq<Order>, r: seq<Order>)
    requires Residue(q, r)
    ensures Thins(q, r)
  {
    var f := seq(|r|, i => |q| - |r| + i);
    assert Selects(q, r, f);
  }

  lemma ThinsSelf(q: seq<Order>)
    ensures Thins(q, q)
  {
    assert Selects(q, q, seq(|q|, i => i));
  }

  lemma SelectsShifted(q: seq<Order>, r: seq<Order>, f: seq<int>, g: seq<int>)
    requires q != [] && Selects(q[1..], r, f)
    requires |g| == |f| && forall i | 0 <= i < |f| :: g[i] == f[i] + 1
    ensures Selects(q, r, g)
  {
    forall i | 0 <= i < |g| ensures 0 <= g[i] < |q| && SameOrder(r[i], q[g[i]]) {
      assert q[1..][f[i]] == q[g[i]];
    }
  }

  lemma SelectsFront(q: seq<Order>, r: seq<Order>, g: seq<int>, n: Quantity)
    requires q != [] && Selects(q, r, g) && forall i | 0 <= i < |g| :: g[i] >= 1
    ensures Selects(q, [q[0].(quantity := n)] + r, [0] + g)
  {
  }

  /** Dropping the front order, or keeping it with some quantity. */
  lemma ThinsFront(q: seq<Order>, r: seq<Order>, n: Quantity)
    requires q != [] && Thins(q[1..], r)
    ensures Thins(q, r) && Thins(q, [q[0].(quantity := n)] + r)
  {
    var f :| Selects(q[1..], r, f);
    var g := seq(|f|, i requires 0 <= i < |f| => f[i] + 1);
    assert forall i | 0 <= i < |f| :: f[i] >= 0;
    hide Selects;
    SelectsShifted(q, r, f, g);
    SelectsFront(q, r, g, n);
  }

  lemma {:induction false} RemoveThins(q: seq<Order>, id: OrderId)
    ensures Thins(q, Remove(q, id))
  {
    if q == [] {
      ThinsSelf(q);
    } else {
      ThinsSelf(q[1..]);
      ThinsFront(q, q[1..], 0);
      RemoveThins(q[1..], id);
      ThinsFront(q, Remove(q[1..], id), q[0].quantity);
    }
  }

  lemma RemoveForgets(q: seq<Order>, id: OrderId)
    requires Unique(q)
    ensures !Holds(Remove(q, id), id)
  {
  }

  lemma {:induction false} SetQuantityThins(q: seq<Order>, id: OrderId, n: Quantity)
    ensures Thins(q, SetQuantity(q, id, n))
  {
    if q == [] {
      ThinsSelf(q);
    } else {
      ThinsSelf(q[1..]);
      ThinsFront(q, q[1..], n);
      SetQuantityThins(q[1..], id, n);
      ThinsFront(q, SetQuantity(q[1..], id, n), q[0].quantity);
    }
  }

  lemma {:induction false} WithoutGoodForDayThins(q: seq<Order>)
    ensures Thins(q, WithoutGoodForDay(q))
  {
    if q == [] {
      ThinsSelf(q);
    } else {
      WithoutGoodForDayThins(q[1..]);
      ThinsFront(q, WithoutGoodForDay(q[1..]), q[0].quantity);
    }
  }

  /** The sweep at the end of the day removes exactly the good-for-day orders. */
  lemma {:induction false} WithoutGoodForDayExact(q: seq<Order>)
    ensures forall o :: o in WithoutGoodForDay(q) <==> o in q && o.orderType != GoodForDay
  {
    if q != [] {
      WithoutGoodForDayExact(q[1..]);
      assert q == [q[0]] + q[1..];
    }
  }

  // ---------------------------------------------------------------- books

  ghost predicate Disjoint(p: seq<Order>, q: seq<Order>) {
    forall i, j | 0 <= i < |p| && 0 <= j < |q| :: p[i].id != q[j].id
  }

  ghost predicate Tidy(b: Book) {
    && Sorted(Buy, b.bids) && Sorted(Sell, b.asks)
    && Unique(b.bids) && Unique(b.asks)
    && Disjoint(b.bids, b.asks)
  }

  ghost predicate Lasting(b: Book) {
    forall o | o in b.bids || o in b.asks :: o.orderType.GoodTillCancel? || o.orderType.GoodForDay?
  }

  ghost predicate ThinsBook(b: Book, c: Book) {
    Thins(b.bids, c.bids) && Thins(b.asks, c.asks)
  }

  /** Whatever only takes orders out or changes quantities keeps every invariant. */
  lemma ThinsBookKeeps(b: Book, c: Book)
    requires Tidy(b) && ThinsBook(b, c)
    ensures Tidy(c) && c.Count() <= b.Count()
    ensures OrdersFrom(b.bids, c.bids) && OrdersFrom(b.asks, c.asks)
    ensures Lasting(b) ==> Lasting(c)
    ensures Uncrossed(b) ==> Uncrossed(c)
  {
    ThinsKeeps(Buy, b.bids, c.bids);
    ThinsKeeps(Sell, b.asks, c.asks);
    forall i, j | 0 <= i < |c.bids| && 0 <= j < |c.asks| ensures c.bids[i].id != c.asks[j].id {
      assert c.bids[i] in c.bids && c.asks[j] in c.asks;
    }
  }

  lemma SpliceKeeps(side: Side, q: seq<Order>, o: Order, k: nat, r: seq<Order>)
    requires Sorted(side, q) && Unique(q) && !Holds(q, o.id) && k <= |q|
    requires forall i | 0 <= i < k :: !Better(side, o.price, q[i].price)
    requires forall i | k <= i < |q| :: Better(side, o.price, q[i].price)
    requires r == q[..k] + [o] + q[k..]
    ensures Sorted(side, r) && Unique(r)
  {
    forall i, j | 0 <= i < j < |r| ensures !Better(side, r[j].price, r[i].price) && r[i].id != r[j].id {
      var i', j' := if i < k then i else i - 1, if j < k then j else j - 1;
      if i == k {
        assert q[j'] in q;
      } else if j == k {
        assert q[i'] in q;
      } else {
        assert r[i] == q[i'] && r[j] == q[j'];
      }
    }
  }

  lemma InsertKeeps(side: Side, q: seq<Order>, o: Order)
    requires Sorted(side, q) && Unique(q) && !Holds(q, o.id)
    ensures var r := Insert(side, q, o);
            && Sorted(side, r) && Unique(r) && |r| == |q| + 1
            && (forall p :: p in r <==> p in q || p == o)
  {
    var k := InsertPosition(side, q, o);
    SpliceKeeps(side, q, o, k, Insert(side, q, o));
    assert q == q[..k] + q[k..];
  }

  lemma InsertTidy(b: Book, side: Side, o: Order)
    requires Tidy(b) && !b.Has(o.id)
    ensures Tidy(Facing(side, Insert(side, b.Queue(side), o), b.Queue(side.Opposite())))
  {
    var q := b.Queue(side.Opposite());
    var r := Insert(side, b.Queue(side), o);
    InsertKeeps(side, b.Queue(side), o);
    forall i, j | 0 <= i < |r| && 0 <= j < |q| ensures r[i].id != q[j].id {
      assert r[i] in r && q[j] in q;
    }
  }

  // ---------------------------------------------------------------- adding an order

  lemma MatchIncomingKeeps(b: Book, side: Side, o: Order)
    requires Tidy(b) && !b.Has(o.id)
    ensures var c := MatchIncoming(b, side, o).book;
            && Tidy(c) && c.Count() <= b.Count() + 1
            && (forall p | (p in c.bids || p in c.asks) && p.id != o.id ::
                  exists p' :: (p' in b.bids || p' in b.asks) && SameOrder(p, p'))
            && (forall p | (p in c.bids || p in c.asks) && p.id == o.id :: p.orderType == o.orderType)
  {
    var i := Facing(side, Insert(side, b.Queue(side), o), b.Queue(side.Opposite()));
    var c := MatchIncoming(b, side, o).book;
    InsertTidy(b, side, o);
    InsertKeeps(side, b.Queue(side), o);
    MatchLeavesResidues(i, side);
    ResidueThins(i.bids, c.bids);
    ResidueThins(i.asks, c.asks);
    ThinsBookKeeps(i, c);
  }

  lemma CancelThins(b: Book, id: OrderId)
    ensures ThinsBook(b, Cancel(b, id))
    ensures Tidy(b) ==> !Cancel(b, id).Has(id)
  {
    RemoveThins(b.bids, id);
    RemoveThins(b.asks, id);
    if Tidy(b) {
      RemoveForgets(b.bids, id);
      RemoveForgets(b.asks, id);
    }
  }

  lemma FillOrKillThins(b: Book, side: Side, o: Order)
    ensures ThinsBook(b, FillOrKillIncoming(b, side, o).book)
  {
    ThinsSelf(b.bids);
    ThinsSelf(b.asks);
    var q := b.Queue(side.Opposite());
    SweepLeavesResidue(MakerPrice, side, q, o);
    ResidueThins(q, Sweep(MakerPrice, side, q, o).rest);
  }

  ghost predicate Sound(e: Exchange) {
    Tidy(e.book) && Lasting(e.book) && e.book.Count() <= e.capacity
  }

  lemma CancelIncomingKeeps(b: Book, side: Side, o: Order)
    requires Tidy(b) && Lasting(b) && !b.Has(o.id)
    ensures var d := Cancel(MatchIncoming(b, side, o).book, o.id);
            Tidy(d) && Lasting(d) && d.Count() <= b.Count() + 1
  {
    MatchIncomingKeeps(b, side, o);
    var c := MatchIncoming(b, side, o).book;
    var d := Cancel(c, o.id);
    CancelThins(c, o.id);
    ThinsBookKeeps(c, d);
    forall p | p in d.bids || p in d.asks ensures p.orderType.GoodTillCancel? || p.orderType.GoodForDay? {
      assert p.id != o.id;
    }
  }

  lemma MatchIncomingLasts(b: Book, side: Side, o: Order)
    requires Tidy(b) && Lasting(b) && !b.Has(o.id) && (o.orderType.GoodTillCancel? || o.orderType.GoodForDay?)
    ensures var c := MatchIncoming(b, side, o).book;
            Tidy(c) && Lasting(c) && c.Count() <= b.Count() + 1
  {
    hide MatchIncoming, Tidy, Matching.Book.Has;
    MatchIncomingKeeps(b, side, o);
    var c := MatchIncoming(b, side, o).book;
    forall p | p in c.bids || p in c.asks ensures p.orderType.GoodTillCancel? || p.orderType.GoodForDay? {
      if p.id != o.id {
        var p' :| (p' in b.bids || p' in b.asks) && SameOrder(p, p');
      }
    }
  }

  lemma AddPricedKeepsSound(e: Exchange, orderType: OrderType, id: OrderId, side: Side, price: Price,
                            quantity: Quantity)
    requires Sound(e) && !orderType.Market?
    ensures Sound(e.(book := AddPriced(e, orderType, id, side, price, quantity).book))
  {
    hide Tidy, Lasting, Matching.Book.Has, MatchIncoming, FillOrKillIncoming, Cancel, RuleSet.Admits;
    var o := Order(id, price, orderType, quantity);
    if Validates(e.book, e.rules, id, price, quantity) {
      if orderType.FillOrKill? {
        FillOrKillThins(e.book, side, o);
        ThinsBookKeeps(e.book, FillOrKillIncoming(e.book, side, o).book);
      } else if orderType.ImmediateOrCancel? {
        CancelIncomingKeeps(e.book, side, o);
      } else {
        MatchIncomingLasts(e.book, side, o);
      }
    }
  }

  lemma AddKeepsSound(e: Exchange, orderType: OrderType, id: OrderId, side: Side, price: Price,
                      quantity: Quantity)
    requires Sound(e)
    ensures Sound(e.(book := AddOrder(e, orderType, id, side, price, quantity).book))
  {
    if orderType.Market? {
      AddPricedKeepsSound(e, GoodTillCancel, id, side, MarketPrice(side), quantity);
    } else {
      AddPricedKeepsSound(e, orderType, id, side, price, quantity);
    }
  }

  lemma {:induction false} LookupFinds(q: seq<Order>, id: OrderId)
    ensures Lookup(q, id).Some? <==> Holds(q, id)
    ensures Lookup(q, id).Some? ==> Lookup(q, id).value in q && Lookup(q, id).value.id == id
  {
    if q != [] {
      LookupFinds(q[1..], id);
      assert q == [q[0]] + q[1..];
    }
  }

  lemma OtherSideLacks(b: Book, side: Side, id: OrderId)
    requires Tidy(b) && Holds(b.Queue(side), id)
    ensures !Holds(b.Queue(side.Opposite()), id)
  {
  }

  lemma CancelKeeps(e: Exchange, id: OrderId)
    requires Sound(e)
    ensures Sound(e.(book := Cancel(e.book, id)))
    ensures Uncrossed(e.book) ==> Uncrossed(Cancel(e.book, id))
  {
    CancelThins(e.book, id);
    ThinsBookKeeps(e.book, Cancel(e.book, id));
  }

  lemma SetQuantityThinsBook(b: Book, m: OrderModify)
    ensures ThinsBook(b, Facing(m.side, SetQuantity(b.Queue(m.side), m.orderId, m.quantity),
                                b.Queue(m.side.Opposite())))
  {
    SetQuantityThins(b.Queue(m.side), m.orderId, m.quantity);
    ThinsSelf(b.bids);
    ThinsSelf(b.asks);
  }

  lemma ModifyKeepsSound(e: Exchange, m: OrderModify)
    requires Sound(e)
    ensures Sound(e.(book := ModifyOrder(e, m).book))
  {
    var found := Lookup(e.book.Queue(m.side), m.orderId);
    if found.Some? {
      SetQuantityThinsBook(e.book, m);
      ThinsBookKeeps(e.book, Facing(m.side, SetQuantity(e.book.Queue(m.side), m.orderId, m.quantity),
                                    e.book.Queue(m.side.Opposite())));
      CancelKeeps(e, m.orderId);
      AddKeepsSound(e.(book := Cancel(e.book, m.orderId)), found.value.orderType, m.orderId, m.side, m.price,
                    m.quantity);
    }
  }

  lemma CancelGoodForDayKeeps(e: Exchange)
    requires Sound(e)
    ensures Sound(e.(book := CancelGoodForDayOrders(e.book)))
    ensures Uncrossed(e.book) ==> Uncrossed(CancelGoodForDayOrders(e.book))
  {
    WithoutGoodForDayThins(e.book.bids);
    WithoutGoodForDayThins(e.book.asks);
    ThinsBookKeeps(e.book, CancelGoodForDayOrders(e.book));
  }

  // ---------------------------------------------------------------- runs

  /** Every operation keeps the book sorted, its ids unique, its types lasting and its size bounded. */
  lemma StepKeepsSound(e: Exchange, op: Op)
    requires Sound(e)
    ensures Sound(Step(e, op).exchange)
  {
    match op
    case Add(orderType, id, side, price, quantity) => AddKeepsSound(e, orderType, id, side, price, quantity);
    case CancelOne(id) => CancelKeeps(e, id);
    case Modify(m) => ModifyKeepsSound(e, m);
    case CancelGoodForDay => CancelGoodForDayKeeps(e);
    case Clear =>
    case SetRules(_) =>
  }

  lemma {:induction false} RunKeepsSound(e: Exchange, ops: seq<Op>)
    requires Sound(e)
    ensures Sound(Run(e, ops).exchange)
    decreases |ops|
  {
    if ops != [] {
      StepKeepsSound(e, ops[0]);
      RunKeepsSound(Step(e, ops[0]).exchange, ops[1..]);
    }
  }

  // ---------------------------------------------------------------- uncrossed

  lemma FacingQueues(b: Book, side: Side)
    ensures Facing(side, b.Queue(side), b.Queue(side.Opposite())) == b
  {
  }

  /** Cancelling the remainder of a matched order leaves exactly the swept book. */
  lemma CancelRemainder(b: Book, side: Side, o: Order)
    requires Tidy(b) && Uncrossed(b) && !b.Has(o.id)
    ensures Cancel(MatchIncoming(b, side, o).book, o.id) ==
            Facing(side, b.Queue(side), Sweep(PassivePrice, side, b.Queue(side.Opposite()), o).rest)
  {
    var own, q := b.Queue(side), b.Queue(side.Opposite());
    var s := Sweep(PassivePrice, side, q, o);
    FacingQueues(b, side);
    MatchIsSweep(side, own, q, o);
    SweepLeavesResidue(PassivePrice, side, q, o);
    ResidueThins(q, s.rest);
    ThinsKeeps(side.Opposite(), q, s.rest);
    RemoveAbsent(s.rest, o.id);
    RemoveAbsent(own, o.id);
    InsertThenRemove(side, own, o.(quantity := s.left));
  }

  /** From an uncrossed book, an operation can only leave the market pair as a cross. */
  lemma AddKeepsUncrossed(e: Exchange, orderType: OrderType, id: OrderId, side: Side, price: Price,
                          quantity: Quantity)
    requires Sound(e) && Uncrossed(e.book)
    ensures var b := AddOrder(e, orderType, id, side, price, quantity).book;
            Uncrossed(b) || MarketPair(b)
  {
    hide Sorted, Unique, Disjoint, Match, Sweep, Insert, Remove, Residue, RuleSet.Admits, DepthWithin, Holds;
    var o := Incoming(orderType, id, side, price, quantity);
    var q := e.book.Queue(side.Opposite());
    FacingQueues(e.book, side);
    if Validates(e.book, e.rules, id, o.price, quantity) {
      if o.orderType.FillOrKill? {
        SweepLeavesResidue(MakerPrice, side, q, o);
        ResidueKeepsUncrossed(side, e.book.Queue(side), q, Sweep(MakerPrice, side, q, o).rest);
      } else if o.orderType.ImmediateOrCancel? {
        CancelRemainder(e.book, side, o);
        SweepLeavesResidue(PassivePrice, side, q, o);
        ResidueKeepsUncrossed(side, e.book.Queue(side), q, Sweep(PassivePrice, side, q, o).rest);
      } else {
        MatchSettles(Facing(side, Insert(side, e.book.Queue(side), o), q), side);
      }
    }
  }

  lemma StepKeepsUncrossed(e: Exchange, op: Op)
    requires Sound(e) && Uncrossed(e.book)
    ensures Uncrossed(Step(e, op).exchange.book) || MarketPair(Step(e, op).exchange.book)
  {
    match op
    case Add(orderType, id, side, price, quantity) => AddKeepsUncrossed(e, orderType, id, side, price, quantity);
    case CancelOne(id) => CancelKeeps(e, id);
    case Modify(m) =>
      var found := Lookup(e.book.Queue(m.side), m.orderId);
      if found.Some? {
        SetQuantityThinsBook(e.book, m);
        ThinsBookKeeps(e.book, Facing(m.side, SetQuantity(e.book.Queue(m.side), m.orderId, m.quantity),
                                      e.book.Queue(m.side.Opposite())));
        CancelKeeps(e, m.orderId);
        AddKeepsUncrossed(e.(book := Cancel(e.book, m.orderId)), found.value.orderType, m.orderId, m.side,
                          m.price, m.quantity);
      }
    case CancelGoodForDay => CancelGoodForDayKeeps(e);
    case Clear =>
    case SetRules(_) =>
  }

  /**
    Over whole runs from any sound uncrossed exchange: the book is uncrossed, unless after some
    earlier step an INT_MAX bid and an INT_MIN ask both rested.
   */
  lemma {:induction false} RunStaysUncrossed(e: Exchange, ops: seq<Op>)
    requires Sound(e) && Uncrossed(e.book)
    ensures Uncrossed(Run(e, ops).exchange.book)
            || exists k :: 0 < k <= |ops| && MarketPair(Run(e, ops[..k]).exchange.book)
    decreases |ops|
  {
    if ops != [] {
      var first := Step(e, ops[0]).exchange;
      StepKeepsSound(e, ops[0]);
      StepKeepsUncrossed(e, ops[0]);
      if !Uncrossed(first.book) {
        assert Run(e, ops[..1]).exchange == first;
        assert MarketPair(Run(e, ops[..1]).exchange.book);
      } else {
        RunStaysUncrossed(first, ops[1..]);
        if !Uncrossed(Run(first, ops[1..]).exchange.book) {
          var k :| 0 < k <= |ops| - 1 && MarketPair(Run(first, ops[1..][..k]).exchange.book);
          assert ops[..k + 1][0] == ops[0] && ops[..k + 1][1..] == ops[1..][..k];
          assert MarketPair(Run(e, ops[..k + 1]).exchange.book);
        }
      }
    }
  }

  lemma RunStep(e: Exchange, op: Op, ops: seq<Op>)
    ensures Run(e, [op] + ops).exchange == Run(Step(e, op).exchange, ops).exchange
  {
  }

  lemma {:induction false} RunConcat(e: Exchange, ops: seq<Op>, more: seq<Op>)
    ensures Run(e, ops + more).exchange == Run(Run(e, ops).exchange, more).exchange
    decreases |ops|
  {
    hide Step;
    if ops == [] {
      assert ops + more == more;
    } else {
      var first := Step(e, ops[0]);
      RunConcat(first.exchange, ops[1..], more);
      assert (ops + more)[1..] == ops[1..] + more && (ops + more)[0] == ops[0];
    }
  }

  lemma RunNone(e: Exchange)
    ensures Run(e, []) == Stepped(e, [])
  {
  }

  lemma RunOne(e: Exchange, op: Op)
    ensures Run(e, [op]).exchange == Step(e, op).exchange
  {
    assert [op] == [op] + [];
    RunStep(e, op, []);
  }

  /** The last operation of a run acts on what the operations before it left. */
  lemma RunLast(e: Exchange, ops: seq<Op>, k: nat)
    requires k < |ops|
    ensures Run(e, ops[..k + 1]).exchange == Step(Run(e, ops[..k]).exchange, ops[k]).exchange
  {
    assert ops[..k + 1] == ops[..k] + ([ops[k]] + []);
    RunConcat(e, ops[..k], [ops[k]] + []);
    RunStep(Run(e, ops[..k]).exchange, ops[k], []);
  }

  /** The last operation of a run adds its trades at the end. */
  lemma {:induction false} RunTradesLast(e: Exchange, ops: seq<Op>)
    requires ops != []
    ensures var n := |ops| - 1;
            Run(e, ops).trades == Run(e, ops[..n]).trades + Step(Run(e, ops[..n]).exchange, ops[n]).trades
    decreases |ops|
  {
    hide Step;
    var n := |ops| - 1;
    if n == 0 {
      assert ops[1..] == [] && ops[..0] == [];
    } else {
      RunTradesLast(Step(e, ops[0]).exchange, ops[1..]);
      assert ops[1..][..n - 1] == ops[..n][1..];
    }
  }

  /** A snapshot is a clear, then the bid levels, then the ask levels. */
  lemma SnapshotRun(e: Exchange, msg: BookSnapshotMessage)
    ensures var ids := IdAfter(msg.bids, FIRST_SYNTHETIC_ID);
            var e1 := Run(Step(e, Clear).exchange, LevelOps(Buy, msg.bids, FIRST_SYNTHETIC_ID)).exchange;
            Run(e, SnapshotOps(msg)).exchange == Run(e1, LevelOps(Sell, msg.asks, ids)).exchange
  {
    hide Run, Step, LevelOps, IdAfter;
    var bids, asks := LevelOps(Buy, msg.bids, FIRST_SYNTHETIC_ID),
                      LevelOps(Sell, msg.asks, IdAfter(msg.bids, FIRST_SYNTHETIC_ID));
    assert SnapshotOps(msg) == [Clear] + (bids + asks);
    RunStep(e, Clear, bids + asks);
    RunConcat(Step(e, Clear).exchange, bids, asks);
  }

  /** A price-changing modify frees a slot before it needs one. */
  lemma ModifyNeverExhausts(e: Exchange, m: OrderModify)
    requires e.book.Count() <= e.capacity
    ensures ModifyOrder(e, m).result.Ok?
  {
    var q := e.book.Queue(m.side);
    LookupFinds(q, m.orderId);
    if Holds(q, m.orderId) {
      var k := RemoveIsStable(q, m.orderId);
      RemoveShortens(e.book.Queue(m.side.Opposite()), m.orderId);
    }
  }

  lemma {:induction false} InsertGrows(side: Side, q: seq<Order>, o: Order)
    ensures |Insert(side, q, o)| == |q| + 1
  {
    if q != [] {
      InsertGrows(side, q[1..], o);
    }
  }

  lemma {:induction false} RemoveShortens(q: seq<Order>, id: OrderId)
    ensures |Remove(q, id)| <= |q|
  {
    if q != [] {
      RemoveShortens(q[1..], id);
    }
  }

  /** The run of CrossedAfterMarketPair: the two sentinel orders, a limit order behind them, a cancel. */
  const BUY_AT_MAX: Op := Add(GoodTillCancel, 1, Buy, PRICE_MAX, 10)
  const SELL_AT_MIN: Op := Add(GoodTillCancel, 2, Sell, PRICE_MIN, 10)
  const BUY_AT_105: Op := Add(GoodTillCancel, 3, Buy, 105, 10)
  const PAIR_OPS: seq<Op> := [BUY_AT_MAX] + ([SELL_AT_MIN] + [])
  const CROSSING_OPS: seq<Op> := [BUY_AT_105] + ([CancelOne(1)] + [])

  lemma MarketPairArises()
    ensures Run(EmptyExchange(4), PAIR_OPS).exchange ==
            EmptyExchange(4).(book := Book([Order(1, PRICE_MAX, GoodTillCancel, 10)],
                                           [Order(2, PRICE_MIN, GoodTillCancel, 10)]))
  {
    var e0 := EmptyExchange(4);
    AddRests(e0, GoodTillCancel, 1, Buy, PRICE_MAX, 10);
    var e1 := e0.(book := Book([Order(1, PRICE_MAX, GoodTillCancel, 10)], []));
    assert Step(e0, BUY_AT_MAX).exchange == e1;
    RunStep(e0, BUY_AT_MAX, [SELL_AT_MIN] + []);
    AddRests(e1, GoodTillCancel, 2, Sell, PRICE_MIN, 10);
    RunStep(e1, SELL_AT_MIN, []);
  }

  lemma CancelUncoversCross(e: Exchange)
    requires e == EmptyExchange(4).(book := Book([Order(1, PRICE_MAX, GoodTillCancel, 10)],
                                                 [Order(2, PRICE_MIN, GoodTillCancel, 10)]))
    ensures Run(e, CROSSING_OPS).exchange ==
            e.(book := Book([Order(3, 105, GoodTillCancel, 10)], [Order(2, PRICE_MIN, GoodTillCancel, 10)]))
  {
    AddRests(e, GoodTillCancel, 3, Buy, 105, 10);
    var e1 := e.(book := Book(e.book.bids + [Order(3, 105, GoodTillCancel, 10)], e.book.asks));
    assert Step(e, BUY_AT_105).exchange == e1;
    RunStep(e, BUY_AT_105, [CancelOne(1)] + []);
    RunStep(e1, CancelOne(1), []);
    RemoveAt(e1.book.bids, 0);
    RemoveAbsent(e1.book.asks, 1);
  }

  /** The exception is real: from an empty book, four messages leave it crossed without the pair on top. */
  lemma CrossedAfterMarketPair()
    ensures var b := Run(EmptyExchange(4), PAIR_OPS + CROSSING_OPS).exchange.book;
            !Uncrossed(b) && !MarketPair(b)
  {
    MarketPairArises();
    RunConcat(EmptyExchange(4), PAIR_OPS, CROSSING_OPS);
    CancelUncoversCross(Run(EmptyExchange(4), PAIR_OPS).exchange);
  }
}
