/**
  When fill-or-kill does what the matching loop does. The two differ in the price they pay a leftover
  market order, and on a book left crossed the loop goes on where fill-or-kill stops.
 */
module Agreement {
  import opened Types
  import opened Rules
  import opened PriceTimeQueue
  import opened Matching
  import opened Engine
  import opened Invariants
  import opened OrderTypes

  // ---------------------------------------------------------------- the two price rules

  lemma {:induction false} SweepsAgree(side: Side, q: seq<Order>, o: Order)
    requires Sorted(side.Opposite(), q) && PricingsAgree(side, q, o.price)
    ensures Sweep(MakerPrice, side, q, o) == Sweep(PassivePrice, side, q, o)
  {
    if q != [] {
      if |q| > 1 {
        assert !Better(side.Opposite(), q[1].price, q[0].price);
      }
      SweepsAgree(side, q[1..], o.(quantity := o.quantity - Min(o.quantity, q[0].quantity)));
    }
  }

  lemma SweepsDiffer(side: Side, q: seq<Order>, o: Order)
    requires !PricingsAgree(side, q, o.price)
    ensures var s, t := Sweep(MakerPrice, side, q, o), Sweep(PassivePrice, side, q, o);
            && s.trades != [] && (t.filled ==> t.trades != [])
            && (t.trades != [] ==> t.trades[0] != s.trades[0])
  {
    SweepRound(MakerPrice, side, q, o);
    SweepRound(PassivePrice, side, q, o);
  }

  lemma SweepIgnoresType(pricing: Pricing, side: Side, q: seq<Order>, f: Order, g: Order)
    requires f == g.(orderType := f.orderType)
    ensures Sweep(pricing, side, q, f) == Sweep(pricing, side, q, g)
    decreases |q|
  {
  }

  // ---------------------------------------------------------------- what the order leaves behind

  /** An order of n at the front of the queue reaches its k-th order and takes all of it. */
  predicate TakenWhole(q: seq<Order>, n: Quantity, k: nat)
    requires k < |q|
  {
    Volume(q[..k]) < n && Volume(q[..k + 1]) <= n
  }

  /** It takes the whole of every order within the limit. */
  predicate UsesUp(side: Side, limit: Price, q: seq<Order>, n: Quantity) {
    forall k | 0 <= k < |q| && Crosses(side, limit, q[k].price) :: TakenWhole(q, n, k)
  }

  /** The order comes first on its side, and leaves the order behind it nothing to trade with. */
  predicate TradesAlone(side: Side, own: seq<Order>, q: seq<Order>, price: Price, n: Quantity) {
    own == [] || (Better(side, price, own[0].price) && UsesUp(side, own[0].price, q, n))
  }

  lemma VolumeFront(q: seq<Order>, k: nat)
    requires k < |q|
    ensures Volume(q[..0]) == 0 && Volume(q[..k + 1]) == q[0].quantity + Volume(q[1..][..k])
  {
    assert q[..k + 1][1..] == q[1..][..k];
  }

  lemma Beyond(side: Side, limit: Price, q: seq<Order>, j: nat)
    requires Sorted(side.Opposite(), q) && j < |q| && !Crosses(side, limit, q[j].price)
    ensures forall k | j <= k < |q| :: !Crosses(side, limit, q[k].price)
  {
    assert forall k | j < k < |q| :: !Better(side.Opposite(), q[k].price, q[j].price);
  }

  lemma UsesUpPart(side: Side, limit: Price, q: seq<Order>, n: Quantity)
    requires q != [] && 0 < n < q[0].quantity && Sorted(side.Opposite(), q)
    ensures UsesUp(side, limit, q, n) <==> !Crosses(side, limit, q[0].price)
  {
    VolumeFront(q, 0);
    if !Crosses(side, limit, q[0].price) {
      Beyond(side, limit, q, 0);
    }
  }

  lemma UsesUpWhole(side: Side, limit: Price, q: seq<Order>, n: Quantity)
    requires q != [] && 0 < n == q[0].quantity && Sorted(side.Opposite(), q)
    ensures UsesUp(side, limit, q, n) <==> |q| == 1 || !Crosses(side, limit, q[1].price)
  {
    VolumeFront(q, 0);
    if |q| > 1 {
      if !Crosses(side, limit, q[1].price) {
        Beyond(side, limit, q, 1);
      } else {
        assert Volume(q[..1]) == n;
      }
    }
  }

  lemma UsesUpMore(side: Side, limit: Price, q: seq<Order>, n: Quantity)
    requires q != [] && n > q[0].quantity
    ensures UsesUp(side, limit, q, n) <==> UsesUp(side, limit, q[1..], n - q[0].quantity)
  {
    hide Volume, Crosses;
    var r, m := q[1..], n - q[0].quantity;
    VolumeFront(q, 0);
    VolumeNone(r);
    assert TakenWhole(q, n, 0);
    forall k: nat | k < |r| ensures TakenWhole(r, m, k) <==> TakenWhole(q, n, k + 1) {
      VolumeFront(q, k);
      VolumeFront(q, k + 1);
    }
    hide TakenWhole;
    assert forall k | 0 <= k < |r| :: r[k] == q[k + 1];
    if UsesUp(side, limit, r, m) {
      forall k | 0 <= k < |q| && Crosses(side, limit, q[k].price) ensures TakenWhole(q, n, k) {
        if k > 0 {
          assert r[k - 1] == q[k] && TakenWhole(r, m, k - 1);
        }
      }
    }
  }

  lemma VolumeNone(q: seq<Order>)
    ensures Volume(q[..0]) == 0
  {
  }

  /** What a filled sweep leaves is out of a limit's reach exactly when the order used up everything within it. */
  lemma {:induction false} SweepUsesUp(pricing: Pricing, side: Side, q: seq<Order>, o: Order, limit: Price)
    requires Sorted(side.Opposite(), q) && o.quantity > 0 && Sweep(pricing, side, q, o).filled
    ensures var rest := Sweep(pricing, side, q, o).rest;
            rest == [] || !Crosses(side, limit, rest[0].price) <==> UsesUp(side, limit, q, o.quantity)
    decreases |q|
  {
    hide UsesUp, Volume;
    if o.quantity < q[0].quantity {
      UsesUpPart(side, limit, q, o.quantity);
    } else if o.quantity == q[0].quantity {
      UsesUpWhole(side, limit, q, o.quantity);
    } else {
      UsesUpMore(side, limit, q, o.quantity);
      SweepUsesUp(pricing, side, q[1..], o.(quantity := o.quantity - q[0].quantity), limit);
    }
  }

  // ---------------------------------------------------------------- fill or kill against the loop

  /** Fill-or-kill has something to fill, and the depth within its limit to fill it with. */
  predicate Fills(b: Book, side: Side, price: Price, n: Quantity) {
    n > 0 && DepthWithin(side, b.Queue(side.Opposite()), price) >= n
  }

  lemma FillOrKillFills(e: Exchange, id: OrderId, side: Side, price: Price, quantity: Quantity)
    requires Tidy(e.book) && Enters(e, id, price, quantity) && Fills(e.book, side, price, quantity)
    ensures var own, q := e.book.Queue(side), e.book.Queue(side.Opposite());
            var s := Sweep(MakerPrice, side, q, Order(id, price, FillOrKill, quantity));
            && AddOrder(e, FillOrKill, id, side, price, quantity) == Added(Facing(side, own, s.rest), Ok(s.trades))
            && s.filled && q != [] && Crosses(side, price, q[0].price)
            && s.trades != [] && exists n :: s.trades[0] == MakeTrade(side, id, q[0].id, q[0].price, n)
  {
    var q := e.book.Queue(side.Opposite());
    TidySorted(e.book, side.Opposite());
    SweepFills(side, q, Order(id, price, FillOrKill, quantity));
    SweepRound(MakerPrice, side, q, Order(id, price, FillOrKill, quantity));
  }

  /** Against both order types that go through the loop. */
  lemma FillOrKillAgreesWithLoop(e: Exchange, orderType: OrderType, id: OrderId, side: Side, price: Price,
                                 quantity: Quantity)
    requires orderType.GoodTillCancel? || orderType.ImmediateOrCancel?
    requires Tidy(e.book) && Enters(e, id, price, quantity) && Fills(e.book, side, price, quantity)
    ensures var own, q := e.book.Queue(side), e.book.Queue(side.Opposite());
            AddOrder(e, FillOrKill, id, side, price, quantity) == AddOrder(e, orderType, id, side, price, quantity)
            <==> PricingsAgree(side, q, price) && TradesAlone(side, own, q, price, quantity)
  {
    var own, q := e.book.Queue(side), e.book.Queue(side.Opposite());
    var f, g := Order(id, price, FillOrKill, quantity), Order(id, price, orderType, quantity);
    FillOrKillFills(e, id, side, price, quantity);
    TidySorted(e.book, side.Opposite());
    if own != [] && !Better(side, price, own[0].price) {
      AddBehindHead(e, orderType, id, side, price, quantity);
    } else {
      AddAheadOfHead(e, orderType, id, side, price, quantity);
      SweepIgnoresType(MakerPrice, side, q, f, g);
      hide AddOrder, Sweep, UsesUp, Sorted, Tidy, Match, InPriority, Residue;
      if PricingsAgree(side, q, price) {
        SweepsAgree(side, q, g);
        LeftBehind(side, own, q, g);
        SamePrefix(Sweep(PassivePrice, side, q, g).trades,
                   Match(Facing(side, own, Sweep(PassivePrice, side, q, g).rest), side).trades);
      } else {
        SweepsDiffer(side, q, g);
      }
    }
  }

  lemma SamePrefix(ts: seq<Trade>, us: seq<Trade>)
    ensures ts == ts + us <==> us == []
  {
    assert us != [] ==> |ts + us| > |ts|;
  }

  /** Behind a filled sweep, the loop has nothing more to do exactly when the order trades alone. */
  lemma LeftBehind(side: Side, own: seq<Order>, q: seq<Order>, o: Order)
    requires Sorted(side.Opposite(), q) && o.quantity > 0 && Sweep(PassivePrice, side, q, o).filled
    requires own == [] || Better(side, o.price, own[0].price)
    ensures var b := Facing(side, own, Sweep(PassivePrice, side, q, o).rest);
            && (Match(b, side).trades == [] <==> TradesAlone(side, own, q, o.price, o.quantity))
            && (Match(b, side).trades == [] ==> Match(b, side).book == b)
  {
    hide Sweep, UsesUp;
    if own != [] {
      SweepUsesUp(PassivePrice, side, q, o, own[0].price);
    }
  }

  lemma UncrossedTradesAlone(side: Side, own: seq<Order>, q: seq<Order>, price: Price, n: Quantity)
    requires Uncrossed(Facing(side, own, q)) && Sorted(side.Opposite(), q)
    requires q != [] && Crosses(side, price, q[0].price)
    ensures TradesAlone(side, own, q, price, n)
  {
    if own != [] {
      Beyond(side, own[0].price, q, 0);
    }
  }

  /**
    On any tidy book, crossed or not, fill-or-kill is good-till-cancel exactly when it fills, no sentinel
    price separates the two price rules, and the loop has nothing to trade but this order. The last
    holds of every uncrossed book.
   */
  lemma FillOrKillAgreesWithGoodTillCancel(e: Exchange, id: OrderId, side: Side, price: Price, quantity: Quantity)
    requires Tidy(e.book) && Enters(e, id, price, quantity)
    ensures var own, q := e.book.Queue(side), e.book.Queue(side.Opposite());
            && (AddOrder(e, FillOrKill, id, side, price, quantity)
                == AddOrder(e, GoodTillCancel, id, side, price, quantity)
                <==> && Fills(e.book, side, price, quantity)
                     && PricingsAgree(side, q, price) && TradesAlone(side, own, q, price, quantity))
            && (Uncrossed(e.book) && Fills(e.book, side, price, quantity) ==>
                  TradesAlone(side, own, q, price, quantity))
  {
    var own, q := e.book.Queue(side), e.book.Queue(side.Opposite());
    FacingQueues(e.book, side);
    if Fills(e.book, side, price, quantity) {
      FillOrKillAgreesWithLoop(e, GoodTillCancel, id, side, price, quantity);
      FillOrKillFills(e, id, side, price, quantity);
      TidySorted(e.book, side.Opposite());
      if Uncrossed(e.book) {
        UncrossedTradesAlone(side, own, q, price, quantity);
      }
    } else {
      KilledAdd(e, id, side, price, quantity);
    }
  }

  /**
    Fill-or-kill is immediate-or-cancel exactly under the same condition when it fills, and otherwise
    exactly when immediate-or-cancel has no trade to make either.
   */
  lemma FillOrKillAgreesWithImmediateOrCancel(e: Exchange, id: OrderId, side: Side, price: Price, quantity: Quantity)
    requires Tidy(e.book) && Enters(e, id, price, quantity)
    ensures var own, q := e.book.Queue(side), e.book.Queue(side.Opposite());
            var o := Order(id, price, ImmediateOrCancel, quantity);
            AddOrder(e, FillOrKill, id, side, price, quantity)
            == AddOrder(e, ImmediateOrCancel, id, side, price, quantity)
            <==> if Fills(e.book, side, price, quantity) then
                   PricingsAgree(side, q, price) && TradesAlone(side, own, q, price, quantity)
                 else !CanMatch(e.book, side, price) || Settled(Facing(side, Insert(side, own, o), q))
  {
    if Fills(e.book, side, price, quantity) {
      FillOrKillAgreesWithLoop(e, ImmediateOrCancel, id, side, price, quantity);
    } else {
      KilledAdd(e, id, side, price, quantity);
    }
  }

  /** An order that fill-or-kill ignores: good-till-cancel queues it, immediate-or-cancel may trade with it. */
  lemma KilledAdd(e: Exchange, id: OrderId, side: Side, price: Price, quantity: Quantity)
    requires Tidy(e.book) && Enters(e, id, price, quantity) && !Fills(e.book, side, price, quantity)
    ensures var own, q := e.book.Queue(side), e.book.Queue(side.Opposite());
            var o := Order(id, price, ImmediateOrCancel, quantity);
            && AddOrder(e, FillOrKill, id, side, price, quantity) == Added(e.book, Ok([]))
            && AddOrder(e, GoodTillCancel, id, side, price, quantity) != Added(e.book, Ok([]))
            && (AddOrder(e, ImmediateOrCancel, id, side, price, quantity) == Added(e.book, Ok([]))
                <==> !CanMatch(e.book, side, price) || Settled(Facing(side, Insert(side, own, o), q)))
  {
    hide Insert, Remove;
    var own, q := e.book.Queue(side), e.book.Queue(side.Opposite());
    var o := Order(id, price, ImmediateOrCancel, quantity);
    FacingQueues(e.book, side);
    InsertGrows(side, own, Order(id, price, GoodTillCancel, quantity));
    InsertThenRemove(side, own, o);
    RemoveAbsent(q, id);
  }
}
