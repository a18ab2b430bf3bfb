/** Fill-or-kill's two phases: what is collected, and that executing it is the maker-priced sweep. */
module FillOrKill {
  import opened Types
  import opened PriceTimeQueue
  import opened Matching

  /** The quantities CollectFOK plans to take from the facing orders, front to back. */
  function Fills(side: Side, q: seq<Order>, price: Price, remaining: Quantity): seq<Quantity> {
    if q == [] || remaining == 0 || !Crosses(side, price, q[0].price) then []
    else [Min(remaining, q[0].quantity)] + Fills(side, q[1..], price, remaining - Min(remaining, q[0].quantity))
  }

  function Sum(ns: seq<Quantity>): nat {
    if ns == [] then 0 else ns[0] + Sum(ns[1..])
  }

  /** The plan covers the order exactly when the unbounded facing depth does, and never overshoots. */
  lemma {:induction false} FillsCover(side: Side, q: seq<Order>, price: Price, remaining: Quantity)
    requires Sorted(side.Opposite(), q)
    ensures Sum(Fills(side, q, price, remaining)) ==
            if DepthWithin(side, q, price) < remaining then DepthWithin(side, q, price) else remaining
  {
    if q == [] || remaining == 0 {
    } else if !Crosses(side, price, q[0].price) {
      NothingWithin(side, q, price);
    } else {
      FillsCover(side, q[1..], price, remaining - Min(remaining, q[0].quantity));
    }
  }

  /** Once the plan has stopped taking orders, it takes none. */
  lemma FillsStep(side: Side, q: seq<Order>, k: nat, price: Price, remaining: Quantity)
    requires k < |q| && remaining > 0 && Crosses(side, price, q[k].price)
    ensures Fills(side, q[k..], price, remaining) ==
            [Min(remaining, q[k].quantity)] + Fills(side, q[k + 1..], price, remaining - Min(remaining, q[k].quantity))
  {
  }

  lemma FillsStop(side: Side, q: seq<Order>, price: Price, remaining: Quantity)
    requires q == [] || remaining == 0 || !Crosses(side, price, q[0].price)
    ensures Fills(side, q, price, remaining) == []
  {
  }

  /** These trades have been made, the facing queue is now c, and the order still wants `left`. */
  ghost predicate Executing(side: Side, q: seq<Order>, o: Order, trades: seq<Trade>, c: seq<Order>, left: Quantity) {
    if o.quantity == 0 then trades == [] && c == q && left == 0
    else
      var s := Sweep(MakerPrice, side, q, o);
      if left == 0 then s.trades == trades && s.rest == c
      else
        var r := Sweep(MakerPrice, side, c, o.(quantity := left));
        s.trades == trades + r.trades && s.rest == r.rest
  }

  lemma ExecutingStart(side: Side, q: seq<Order>, o: Order)
    ensures Executing(side, q, o, [], q, o.quantity)
  {
  }

  lemma FillsNext(side: Side, c: seq<Order>, price: Price, left: Quantity, ns: seq<Quantity>)
    requires ns == Fills(side, c, price, left) && Sum(ns) == left && ns != []
    ensures c != [] && Crosses(side, price, c[0].price) && left > 0 && ns[0] == Min(left, c[0].quantity)
    ensures ns[1..] == Fills(side, Consume(c, ns[0]), price, left - ns[0]) && Sum(ns[1..]) == left - ns[0]
    ensures ns[0] == left ==> |ns| == 1
    ensures ns[0] != left ==> Consume(c, ns[0]) == c[1..]
  {
  }

  /** The next planned quantity is the next step of the sweep, and the rest of the plan stays valid. */
  lemma ExecutingStep(side: Side, q: seq<Order>, o: Order, trades: seq<Trade>, c: seq<Order>, left: Quantity,
                      ns: seq<Quantity>)
    requires Executing(side, q, o, trades, c, left)
    requires ns == Fills(side, c, o.price, left) && Sum(ns) == left && ns != []
    ensures c != [] && ns[0] <= left && ns[0] <= c[0].quantity && o.quantity > 0
    ensures Executing(side, q, o, trades + [MakeTrade(side, o.id, c[0].id, c[0].price, ns[0])], Consume(c, ns[0]),
                      left - ns[0])
    ensures ns[1..] == Fills(side, Consume(c, ns[0]), o.price, left - ns[0]) && Sum(ns[1..]) == left - ns[0]
    ensures c[0].quantity != ns[0] ==> |ns| == 1
  {
    hide Sweep, Fills, Sum, Consume, MakeTrade;
    FillsNext(side, c, o.price, left, ns);
    var t := MakeTrade(side, o.id, c[0].id, c[0].price, ns[0]);
    SweepRound(MakerPrice, side, c, o.(quantity := left));
    if ns[0] != left {
      AppendTrade(trades, t, Sweep(MakerPrice, side, c[1..], o.(quantity := left - ns[0])).trades);
      assert o.(quantity := left).(quantity := left - ns[0]) == o.(quantity := left - ns[0]);
    }
  }

  lemma AppendTrade(ts: seq<Trade>, t: Trade, us: seq<Trade>)
    ensures ts + ([t] + us) == (ts + [t]) + us
  {
  }
}
