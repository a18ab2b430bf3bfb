/**
  One side of the book, seen as what it means: a single queue of resting orders, best price first
  and first-in-first-out within a price. Price levels, links and slots do not appear here.
 */
module PriceTimeQueue {
  import opened Types

  datatype Order = Order(id: OrderId, price: Price, orderType: OrderType, quantity: Quantity)

  ghost predicate Sorted(side: Side, q: seq<Order>) {
    forall i, j | 0 <= i < j < |q| :: !Better(side, q[j].price, q[i].price)
  }

  ghost predicate Unique(q: seq<Order>) {
    forall i, j | 0 <= i < j < |q| :: q[i].id != q[j].id
  }

  predicate Holds(q: seq<Order>, id: OrderId) {
    exists o | o in q :: o.id == id
  }

  /** A new order goes behind every order that its price does not beat. */
  function Insert(side: Side, q: seq<Order>, o: Order): seq<Order> {
    if q == [] || Better(side, o.price, q[0].price) then [o] + q
    else [q[0]] + Insert(side, q[1..], o)
  }

  function Remove(q: seq<Order>, id: OrderId): seq<Order> {
    if q == [] then []
    else if q[0].id == id then q[1..]
    else [q[0]] + Remove(q[1..], id)
  }

  function SetQuantity(q: seq<Order>, id: OrderId, n: Quantity): seq<Order> {
    if q == [] then []
    else if q[0].id == id then [q[0].(quantity := n)] + q[1..]
    else [q[0]] + SetQuantity(q[1..], id, n)
  }

  function WithoutGoodForDay(q: seq<Order>): seq<Order> {
    if q == [] then []
    else if q[0].orderType == GoodForDay then WithoutGoodForDay(q[1..])
    else [q[0]] + WithoutGoodForDay(q[1..])
  }

  function Without<T>(q: seq<T>, k: nat): seq<T>
    requires k < |q|
  {
    q[..k] + q[k + 1..]
  }

  /** Unbounded sums: of a whole queue, of one price, and of what an incoming order may take. */
  function Volume(q: seq<Order>): nat {
    if q == [] then 0 else q[0].quantity + Volume(q[1..])
  }

  function DepthAt(q: seq<Order>, price: Price): nat {
    if q == [] then 0
    else (if q[0].price == price then q[0].quantity else 0) + DepthAt(q[1..], price)
  }

  function DepthWithin(side: Side, q: seq<Order>, limit: Price): nat {
    if q == [] then 0
    else (if Crosses(side, limit, q[0].price) then q[0].quantity else 0) + DepthWithin(side, q[1..], limit)
  }

  /** The quantity resting under an id. */
  function Resting(q: seq<Order>, id: OrderId): nat {
    if q == [] then 0
    else (if q[0].id == id then q[0].quantity else 0) + Resting(q[1..], id)
  }

  // ---------------------------------------------------------------- positions

  /** Insert puts the order between the orders it does not beat and the orders it beats. */
  lemma {:induction false} InsertAt(side: Side, q: seq<Order>, o: Order, k: nat)
    requires k <= |q|
    requires forall i | 0 <= i < k :: !Better(side, o.price, q[i].price)
    requires k < |q| ==> Better(side, o.price, q[k].price)
    ensures Insert(side, q, o) == q[..k] + [o] + q[k..]
  {
    if k > 0 {
      InsertAt(side, q[1..], o, k - 1);
      assert q[..k] == [q[0]] + q[1..][..k - 1];
      assert q[1..][k - 1..] == q[k..];
    }
  }

  lemma {:induction false} InsertPosition(side: Side, q: seq<Order>, o: Order) returns (k: nat)
    requires Sorted(side, q)
    ensures k <= |q|
    ensures forall i | 0 <= i < k :: !Better(side, o.price, q[i].price)
    ensures forall i | k <= i < |q| :: Better(side, o.price, q[i].price)
    ensures Insert(side, q, o) == q[..k] + [o] + q[k..]
  {
    k := 0;
    while k < |q| && !Better(side, o.price, q[k].price)
      invariant k <= |q|
      invariant forall i | 0 <= i < k :: !Better(side, o.price, q[i].price)
    {
      k := k + 1;
    }
    InsertAt(side, q, o, k);
  }

  lemma {:induction false} RemoveAt(q: seq<Order>, k: nat)
    requires k < |q| && forall i | 0 <= i < k :: q[i].id != q[k].id
    ensures Remove(q, q[k].id) == Without(q, k)
  {
    if k > 0 {
      RemoveAt(q[1..], k - 1);
      assert q[..k] == [q[0]] + q[1..][..k - 1];
    }
  }

  lemma {:induction false} RemoveAbsent(q: seq<Order>, id: OrderId)
    requires !Holds(q, id)
    ensures Remove(q, id) == q
  {
    if q != [] {
      assert q[0] in q;
      RemoveAbsent(q[1..], id);
    }
  }

  lemma {:induction false} SetQuantityAt(q: seq<Order>, k: nat, n: Quantity)
    requires k < |q| && forall i | 0 <= i < k :: q[i].id != q[k].id
    ensures SetQuantity(q, q[k].id, n) == q[k := q[k].(quantity := n)]
  {
    if k > 0 {
      SetQuantityAt(q[1..], k - 1, n);
    }
  }

  lemma {:induction false} SetQuantityAbsent(q: seq<Order>, id: OrderId, n: Quantity)
    requires !Holds(q, id)
    ensures SetQuantity(q, id, n) == q
  {
    if q != [] {
      assert q[0] in q;
      SetQuantityAbsent(q[1..], id, n);
    }
  }

  /** Where an id sits; every position question about a unique queue goes through this. */
  lemma Find(q: seq<Order>, id: OrderId) returns (k: nat)
    requires Holds(q, id)
    ensures k < |q| && q[k].id == id && forall i | 0 <= i < k :: q[i].id != id
  {
    var o :| o in q && o.id == id;
    k := 0;
    while q[k].id != id
      invariant k < |q| && (forall i | 0 <= i < k :: q[i].id != id)
      decreases |q| - k
    {
      if k + 1 == |q| {
        assert forall i | 0 <= i < |q| :: q[i].id != id;
      }
      k := k + 1;
    }
  }

  /** Cancellation is stable: it is exactly the removal of one position. */
  lemma RemoveIsStable(q: seq<Order>, id: OrderId) returns (k: nat)
    requires Holds(q, id)
    ensures k < |q| && q[k].id == id && Remove(q, id) == Without(q, k)
  {
    k := Find(q, id);
    RemoveAt(q, k);
  }

  lemma InsertThenRemove(side: Side, q: seq<Order>, o: Order)
    requires Sorted(side, q) && !Holds(q, o.id)
    ensures Remove(Insert(side, q, o), o.id) == q
  {
  }
}
