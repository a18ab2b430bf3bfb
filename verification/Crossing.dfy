/**
  When the book is left crossed. Only two leftover market orders facing each other can do it, so
  the operation that starts a cross is known before it is made.
 */
module Crossing {
  import opened Types
  import opened Rules
  import opened PriceTimeQueue
  import opened Matching
  import opened Engine
  import opened Invariants
  import opened OrderTypes

  /** An order that may rest enters at its market price against a facing head at the other one. */
  predicate Meets(e: Exchange, op: Op) {
    op.Add?
    && var limit, q := PriceFor(op.orderType, op.side, op.price), e.book.Queue(op.side.Opposite());
       && Reaches(e, op.orderType, op.id, op.side, op.price, op.quantity)
       && (TypeFor(op.orderType).GoodTillCancel? || TypeFor(op.orderType).GoodForDay?)
       && limit == MarketPrice(op.side) && q != [] && q[0].price == MarketPrice(op.side.Opposite())
  }

  lemma RestIsNotBetter(side: Side, q: seq<Order>, r: seq<Order>)
    requires Sorted(side.Opposite(), q) && Residue(q, r)
    ensures r != [] ==> q != [] && !Better(side.Opposite(), r[0].price, q[0].price)
  {
  }

  lemma NoCrossAfterSweep(side: Side, own: seq<Order>, rest: seq<Order>, o: Order, q: seq<Order>)
    requires Uncrossed(Facing(side, own, rest))
    requires rest != [] ==> !Takes(PassivePrice, side, o.price, rest[0].price)
    requires rest != [] ==> q != [] && !Better(side.Opposite(), rest[0].price, q[0].price)
    requires !(o.price == MarketPrice(side) && q != [] && q[0].price == MarketPrice(side.Opposite()))
    ensures Uncrossed(Facing(side, Insert(side, own, o), rest))
  {
  }

  /** Nothing rests on a side that faces an order at its market price. */
  lemma NoneFacesMarket(b: Book, side: Side)
    requires Uncrossed(b)
    requires b.Queue(side.Opposite()) != [] && b.Queue(side.Opposite())[0].price == MarketPrice(side.Opposite())
    ensures b.Queue(side) == []
  {
  }

  /** An order that reaches an uncrossed book and may rest. */
  lemma RestingAddLeavesCrossExactly(e: Exchange, orderType: OrderType, id: OrderId, side: Side, price: Price,
                                     quantity: Quantity)
    requires Sound(e) && Uncrossed(e.book) && Reaches(e, orderType, id, side, price, quantity)
    requires TypeFor(orderType).GoodTillCancel? || TypeFor(orderType).GoodForDay?
    ensures Uncrossed(AddOrder(e, orderType, id, side, price, quantity).book)
            <==> !Meets(e, Add(orderType, id, side, price, quantity))
  {
    hide AddOrder, Sweep, Sorted, Tidy, Residue, InPriority;
    var o := Incoming(orderType, id, side, price, quantity);
    var own, q := e.book.Queue(side), e.book.Queue(side.Opposite());
    var s := Sweep(PassivePrice, side, q, o);
    AddIsSweep(e, orderType, id, side, price, quantity);
    SweepRound(PassivePrice, side, q, o);
    SweepStops(PassivePrice, side, q, o);
    TidySorted(e.book, side.Opposite());
    RestIsNotBetter(side, q, s.rest);
    ResidueKeepsUncrossed(side, e.book.Queue(side), q, s.rest);
    if Meets(e, Add(orderType, id, side, price, quantity)) {
      NoneFacesMarket(e.book, side);
    } else if !s.filled {
      NoCrossAfterSweep(side, own, s.rest, o.(quantity := s.left), q);
    }
  }

  /** Of all adds to an uncrossed book, of every type, accepted or not. */
  lemma AddLeavesCrossExactly(e: Exchange, orderType: OrderType, id: OrderId, side: Side, price: Price,
                              quantity: Quantity)
    requires Sound(e) && Uncrossed(e.book)
    ensures Uncrossed(AddOrder(e, orderType, id, side, price, quantity).book)
            <==> !Meets(e, Add(orderType, id, side, price, quantity))
  {
    var o := Incoming(orderType, id, side, price, quantity);
    var q := e.book.Queue(side.Opposite());
    FacingQueues(e.book, side);
    if !Reaches(e, orderType, id, side, price, quantity) {
    } else if orderType.FillOrKill? {
      SweepLeavesResidue(MakerPrice, side, q, o);
      ResidueKeepsUncrossed(side, e.book.Queue(side), q, Sweep(MakerPrice, side, q, o).rest);
    } else if orderType.ImmediateOrCancel? {
      CancelRemainder(e.book, side, o);
      SweepLeavesResidue(PassivePrice, side, q, o);
      ResidueKeepsUncrossed(side, e.book.Queue(side), q, Sweep(PassivePrice, side, q, o).rest);
    } else {
      RestingAddLeavesCrossExactly(e, orderType, id, side, price, quantity);
    }
  }

  /**
    A modify never starts a cross: while its own order rests on the side, an uncrossed book cannot
    be headed by a market order on the other one, so a move to the sentinel price finds none there.
   */
  lemma ModifyKeepsUncrossed(e: Exchange, m: OrderModify)
    requires Sound(e) && Uncrossed(e.book)
    ensures Uncrossed(ModifyOrder(e, m).book)
  {
    var q, r := e.book.Queue(m.side), e.book.Queue(m.side.Opposite());
    var found := Lookup(q, m.orderId);
    LookupFinds(q, m.orderId);
    if found.Some? {
      SetQuantityThinsBook(e.book, m);
      ThinsBookKeeps(e.book, Facing(m.side, SetQuantity(q, m.orderId, m.quantity), r));
      CancelKeeps(e, m.orderId);
      OtherSideLacks(e.book, m.side, m.orderId);
      RemoveAbsent(r, m.orderId);
      assert q != [];
      assert r != [] ==> r[0].price != MarketPrice(m.side.Opposite());
      AddLeavesCrossExactly(e.(book := Cancel(e.book, m.orderId)), found.value.orderType, m.orderId, m.side, m.price,
                            m.quantity);
    }
  }

  /** Every operation on an uncrossed book leaves it crossed exactly when it meets a market order this way. */
  lemma StepLeavesCrossExactly(e: Exchange, op: Op)
    requires Sound(e) && Uncrossed(e.book)
    ensures Uncrossed(Step(e, op).exchange.book) <==> !Meets(e, op)
  {
    match op
    case Add(orderType, id, side, price, quantity) =>
      AddLeavesCrossExactly(e, orderType, id, side, price, quantity);
    case CancelOne(id) => CancelKeeps(e, id);
    case Modify(m) => ModifyKeepsUncrossed(e, m);
    case CancelGoodForDay => CancelGoodForDayKeeps(e);
    case Clear =>
    case SetRules(_) =>
  }

  /** Some operation of the run, when its turn comes, meets a market order. */
  ghost predicate MeetsWithin(e: Exchange, ops: seq<Op>) {
    exists k :: 0 <= k < |ops| && Meets(Run(e, ops[..k]).exchange, ops[k])
  }

  ghost predicate AlwaysUncrossed(e: Exchange, ops: seq<Op>) {
    forall k | 0 <= k <= |ops| :: Uncrossed(Run(e, ops[..k]).exchange.book)
  }

  lemma {:induction false} UncrossedUntilMet(e: Exchange, ops: seq<Op>, n: nat)
    requires Sound(e) && Uncrossed(e.book) && n <= |ops| && !MeetsWithin(e, ops)
    ensures Uncrossed(Run(e, ops[..n]).exchange.book)
  {
    hide Run, Step, Meets, Uncrossed, Sound;
    if n == 0 {
      RunNone(e);
      assert ops[..0] == [];
    } else {
      UncrossedUntilMet(e, ops, n - 1);
      RunKeepsSound(e, ops[..n - 1]);
      StepLeavesCrossExactly(Run(e, ops[..n - 1]).exchange, ops[n - 1]);
      RunLast(e, ops, n - 1);
    }
  }

  /** A run from an uncrossed book is uncrossed throughout exactly when none of its operations meets a market order. */
  lemma RunUncrossedExactly(e: Exchange, ops: seq<Op>)
    requires Sound(e) && Uncrossed(e.book)
    ensures AlwaysUncrossed(e, ops) <==> !MeetsWithin(e, ops)
  {
    hide Run, Step, Meets, Uncrossed, Sound;
    if MeetsWithin(e, ops) {
      var k :| 0 <= k < |ops| && Meets(Run(e, ops[..k]).exchange, ops[k]);
      RunKeepsSound(e, ops[..k]);
      RunLast(e, ops, k);
      if Uncrossed(Run(e, ops[..k]).exchange.book) {
        StepLeavesCrossExactly(Run(e, ops[..k]).exchange, ops[k]);
        assert !Uncrossed(Run(e, ops[..k + 1]).exchange.book);
      }
    } else {
      forall n | 0 <= n <= |ops| ensures Uncrossed(Run(e, ops[..n]).exchange.book) {
        UncrossedUntilMet(e, ops, n);
      }
    }
  }
}
