/**
  The engine's memory, as values: pool slots linked into one list per price level, the free slots,
  the id map, and the invariant that ties them together. Each public operation changes this state
  only through linking, unlinking, resizing and level erasure, shown here to keep the invariant.
 */
module SlotPool {
  import opened Types
  import opened PriceTimeQueue
  import opened PriceMap

  /** int32_t: a slot number, or NULL_IDX. */
  type Index = i: int | -0x8000_0000 <= i <= 0x7fff_ffff

  const NULL_IDX: Index := -1

  datatype PoolOrder = PoolOrder(
    orderId: OrderId,
    side: Side,
    price: Price,
    orderType: OrderType,
    quantity: Quantity,
    prev: Index,
    next: Index)
  {
    predicate IsFilled() {
      quantity == 0
    }

    function Fill(n: Quantity): PoolOrder {
      this.(quantity := Wrap32(quantity - n))
    }

    function View(): Order {
      Order(orderId, price, orderType, quantity)
    }
  }

  const BLANK := PoolOrder(0, Buy, 0, GoodTillCancel, 0, NULL_IDX, NULL_IDX)

  datatype PriceLevel = PriceLevel(head: Index, tail: Index, totalQty: Quantity, orderCount: Index)
  {
    predicate Empty() {
      orderCount == 0
    }
  }

  const NEW_LEVEL := PriceLevel(NULL_IDX, NULL_IDX, 0, 0)

  // ---------------------------------------------------------------- one level

  ghost predicate InPool(pool: seq<PoolOrder>, c: seq<Index>) {
    forall i | 0 <= i < |c| :: 0 <= c[i] < |pool|
  }

  ghost predicate Distinct(c: seq<Index>) {
    forall i, j | 0 <= i < j < |c| :: c[i] != c[j]
  }

  ghost function At(c: seq<Index>, i: int): Index {
    if 0 <= i < |c| then c[i] else NULL_IDX
  }

  /** The orders in these slots. */
  ghost function OrdersIn(pool: seq<PoolOrder>, c: seq<Index>): (q: seq<Order>)
    ensures |q| == |c|
  {
    seq(|c|, i requires 0 <= i < |c| => if 0 <= c[i] < |pool| then pool[c[i]].View() else BLANK.View())
  }

  /** The links of chain c run from head to tail and back. */
  ghost predicate Linked(pool: seq<PoolOrder>, c: seq<Index>)
    requires InPool(pool, c)
  {
    forall i {:trigger pool[c[i]]} | 0 <= i < |c| ::
      pool[c[i]].prev == At(c, i - 1) && pool[c[i]].next == At(c, i + 1)
  }

  ghost predicate Labelled(pool: seq<PoolOrder>, side: Side, price: Price, c: seq<Index>)
    requires InPool(pool, c)
  {
    forall i {:trigger pool[c[i]]} | 0 <= i < |c| :: pool[c[i]].side == side && pool[c[i]].price == price
  }

  /** The level's list runs through exactly the slots of c, without repetition. */
  ghost predicate ListOk(pool: seq<PoolOrder>, lvl: PriceLevel, c: seq<Index>) {
    && InPool(pool, c) && Distinct(c) && Linked(pool, c)
    && lvl.head == At(c, 0) && lvl.tail == At(c, |c| - 1)
    && lvl.orderCount == |c|
  }

  /** The cached depth is the true depth modulo 2^32. */
  ghost predicate DepthOk(pool: seq<PoolOrder>, lvl: PriceLevel, c: seq<Index>) {
    lvl.totalQty == Wrap32(Volume(OrdersIn(pool, c)))
  }

  ghost predicate LevelOk(pool: seq<PoolOrder>, side: Side, price: Price, lvl: PriceLevel, c: seq<Index>) {
    ListOk(pool, lvl, c) && Labelled(pool, side, price, c) && DepthOk(pool, lvl, c)
  }

  ghost predicate SameButLinks(a: PoolOrder, b: PoolOrder) {
    b == a.(prev := b.prev, next := b.next)
  }

  /** Only links moved, and only within the chain c. */
  ghost predicate Relinked(pool: seq<PoolOrder>, pool': seq<PoolOrder>, c: seq<Index>) {
    && |pool'| == |pool|
    && (forall i | 0 <= i < |pool| :: SameButLinks(pool[i], pool'[i]))
    && (forall i | 0 <= i < |pool| && i !in c :: pool'[i] == pool[i])
  }

  lemma {:induction false} VolumeConcat(p: seq<Order>, q: seq<Order>)
    ensures Volume(p + q) == Volume(p) + Volume(q)
  {
    if p == [] {
      assert p + q == q;
    } else {
      VolumeConcat(p[1..], q);
      assert (p + q)[1..] == p[1..] + q;
    }
  }

  lemma VolumeAround(q: seq<Order>, k: nat)
    requires k < |q|
    ensures Volume(q) == Volume(q[..k]) + q[k].quantity + Volume(q[k + 1..])
    ensures Volume(Without(q, k)) == Volume(q) - q[k].quantity
    ensures forall o: Order :: Volume(q[k := o]) == Volume(q) - q[k].quantity + o.quantity
  {
    VolumeConcat(q[..k], q[k + 1..]);
    forall o: Order ensures Volume(q[k := o]) == Volume(q[..k]) + o.quantity + Volume(q[k + 1..]) {
      assert q[k := o] == q[..k] + ([o] + q[k + 1..]);
      VolumeConcat(q[..k], [o] + q[k + 1..]);
    }
    assert q[k := q[k]] == q;
  }

  lemma WrapAdd(a: int, b: int)
    ensures Wrap32(Wrap32(a) + b) == Wrap32(a + b)
  {
  }

  /** What DllAppend writes. */
  ghost function Appended(pool: seq<PoolOrder>, lvl: PriceLevel, idx: Index): seq<PoolOrder>
    requires 0 <= idx < |pool| && lvl.tail < |pool|
  {
    var linked := pool[idx := pool[idx].(prev := lvl.tail, next := NULL_IDX)];
    if lvl.tail >= 0 then linked[lvl.tail := linked[lvl.tail].(next := idx)] else linked
  }

  lemma AppendKeepsList(pool: seq<PoolOrder>, lvl: PriceLevel, lvl': PriceLevel, c: seq<Index>, idx: Index)
    requires ListOk(pool, lvl, c) && 0 <= idx < |pool| && idx !in c
    requires lvl'.head == (if lvl.tail == NULL_IDX then idx else lvl.head)
    requires lvl'.tail == idx && lvl'.orderCount == lvl.orderCount + 1
    ensures Relinked(pool, Appended(pool, lvl, idx), c + [idx])
    ensures ListOk(Appended(pool, lvl, idx), lvl', c + [idx])
  {
    var c', pool' := c + [idx], Appended(pool, lvl, idx);
    forall i {:trigger pool'[c'[i]]} | 0 <= i < |c'|
      ensures pool'[c'[i]].prev == At(c', i - 1) && pool'[c'[i]].next == At(c', i + 1)
    {
      if i < |c| {
        assert pool[c[i]].prev == At(c, i - 1) && pool[c[i]].next == At(c, i + 1);
      }
    }
  }

  /** What DllRemove writes. */
  ghost function Detached(pool: seq<PoolOrder>, idx: Index): seq<PoolOrder>
    requires 0 <= idx < |pool| && pool[idx].prev < |pool| && pool[idx].next < |pool|
  {
    var o := pool[idx];
    var p1 := if o.prev >= 0 then pool[o.prev := pool[o.prev].(next := o.next)] else pool;
    var p2 := if o.next >= 0 then p1[o.next := p1[o.next].(prev := o.prev)] else p1;
    p2[idx := p2[idx].(prev := NULL_IDX, next := NULL_IDX)]
  }

  lemma DetachedAt(pool: seq<PoolOrder>, c: seq<Index>, k: nat, j: nat)
    requires InPool(pool, c) && Distinct(c) && Linked(pool, c) && k < |c| && j < |c| && j != k
    requires pool[c[k]].prev == At(c, k - 1) && pool[c[k]].next == At(c, k + 1)
    ensures Detached(pool, c[k])[c[j]] ==
            pool[c[j]].(prev := if j == k + 1 then At(c, k - 1) else At(c, j - 1),
                        next := if j + 1 == k then At(c, k + 1) else At(c, j + 1))
  {
  }

  lemma DetachedRelinks(pool: seq<PoolOrder>, c: seq<Index>, k: nat)
    requires InPool(pool, c) && Linked(pool, c) && k < |c|
    ensures pool[c[k]].prev == At(c, k - 1) && pool[c[k]].next == At(c, k + 1)
    ensures Relinked(pool, Detached(pool, c[k]), c)
  {
  }

  /** The neighbours of position k, stitched together, link the chain without it. */
  lemma StitchedLinks(pool: seq<PoolOrder>, c: seq<Index>, k: nat)
    requires InPool(pool, c) && k < |c|
    requires forall j {:trigger pool[c[j]]} | 0 <= j < |c| && j != k ::
               && pool[c[j]].prev == (if j == k + 1 then At(c, k - 1) else At(c, j - 1))
               && pool[c[j]].next == (if j + 1 == k then At(c, k + 1) else At(c, j + 1))
    ensures InPool(pool, Without(c, k)) && Linked(pool, Without(c, k))
  {
  }

  lemma RemoveKeepsList(pool: seq<PoolOrder>, pool': seq<PoolOrder>, lvl: PriceLevel, lvl': PriceLevel,
                        c: seq<Index>, k: nat)
    requires ListOk(pool, lvl, c) && k < |c|
    requires pool[c[k]].prev == At(c, k - 1) && pool[c[k]].next == At(c, k + 1)
    requires pool' == Detached(pool, c[k])
    requires lvl'.head == (if pool[c[k]].prev == NULL_IDX then pool[c[k]].next else lvl.head)
    requires lvl'.tail == (if pool[c[k]].next == NULL_IDX then pool[c[k]].prev else lvl.tail)
    requires lvl'.orderCount == lvl.orderCount - 1
    ensures ListOk(pool', lvl', Without(c, k))
  {
    forall j {:trigger pool'[c[j]]} | 0 <= j < |c| && j != k
      ensures pool'[c[j]].prev == (if j == k + 1 then At(c, k - 1) else At(c, j - 1))
      ensures pool'[c[j]].next == (if j + 1 == k then At(c, k + 1) else At(c, j + 1))
    {
      DetachedAt(pool, c, k, j);
    }
    StitchedLinks(pool', c, k);
    WithoutEnds(c, k);
  }

  lemma WithoutEnds(c: seq<Index>, k: nat)
    requires (forall i | 0 <= i < |c| :: c[i] >= 0) && Distinct(c) && k < |c|
    ensures Distinct(Without(c, k)) && |Without(c, k)| == |c| - 1
    ensures At(Without(c, k), 0) == if At(c, k - 1) == NULL_IDX then At(c, k + 1) else At(c, 0)
    ensures At(Without(c, k), |c| - 2) == if At(c, k + 1) == NULL_IDX then At(c, k - 1) else At(c, |c| - 1)
  {
  }

  lemma RelinkedKeepsOrders(pool: seq<PoolOrder>, pool': seq<PoolOrder>, linked: seq<Index>, c: seq<Index>)
    requires Relinked(pool, pool', linked)
    ensures OrdersIn(pool', c) == OrdersIn(pool, c)
  {
  }

  lemma RelinkedViews(pool: seq<PoolOrder>, pool': seq<PoolOrder>, c: seq<Index>)
    requires Relinked(pool, pool', c)
    ensures |pool'| == |pool| && forall i | 0 <= i < |pool| :: SameButLinks(pool[i], pool'[i])
  {
  }

  lemma RelinkedKeepsLabels(pool: seq<PoolOrder>, pool': seq<PoolOrder>, linked: seq<Index>, side: Side,
                            price: Price, c: seq<Index>)
    requires Relinked(pool, pool', linked) && InPool(pool, c) && Labelled(pool, side, price, c)
    ensures Labelled(pool', side, price, c)
  {
  }

  lemma AppendKeepsDepth(pool: seq<PoolOrder>, pool': seq<PoolOrder>, lvl: PriceLevel, lvl': PriceLevel,
                         c: seq<Index>, idx: Index)
    requires DepthOk(pool, lvl, c) && 0 <= idx < |pool| && Relinked(pool, pool', c + [idx])
    requires lvl'.totalQty == Wrap32(lvl.totalQty + pool[idx].quantity)
    ensures DepthOk(pool', lvl', c + [idx])
  {
    RelinkedKeepsOrders(pool, pool', c + [idx], c + [idx]);
    assert OrdersIn(pool, c + [idx]) == OrdersIn(pool, c) + [pool[idx].View()];
    VolumeConcat(OrdersIn(pool, c), [pool[idx].View()]);
    WrapAdd(Volume(OrdersIn(pool, c)), pool[idx].quantity);
  }

  lemma AppendKeepsLevel(pool: seq<PoolOrder>, side: Side, price: Price, lvl: PriceLevel, lvl': PriceLevel,
                         c: seq<Index>, idx: Index)
    requires LevelOk(pool, side, price, lvl, c)
    requires 0 <= idx < |pool| && idx !in c && pool[idx].side == side && pool[idx].price == price
    requires lvl'.head == (if lvl.tail == NULL_IDX then idx else lvl.head)
    requires lvl'.tail == idx && lvl'.orderCount == lvl.orderCount + 1
    requires lvl'.totalQty == Wrap32(lvl.totalQty + pool[idx].quantity)
    ensures Relinked(pool, Appended(pool, lvl, idx), c + [idx])
    ensures LevelOk(Appended(pool, lvl, idx), side, price, lvl', c + [idx])
  {
    var pool' := Appended(pool, lvl, idx);
    AppendKeepsList(pool, lvl, lvl', c, idx);
    assert Labelled(pool, side, price, c + [idx]);
    RelinkedKeepsLabels(pool, pool', c + [idx], side, price, c + [idx]);
    AppendKeepsDepth(pool, pool', lvl, lvl', c, idx);
  }

  lemma WithoutLabelled(pool: seq<PoolOrder>, side: Side, price: Price, c: seq<Index>, k: nat)
    requires InPool(pool, c) && Labelled(pool, side, price, c) && k < |c|
    ensures InPool(pool, Without(c, k)) && Labelled(pool, side, price, Without(c, k))
  {
  }

  lemma RemoveKeepsDepth(pool: seq<PoolOrder>, pool': seq<PoolOrder>, lvl: PriceLevel, lvl': PriceLevel,
                         c: seq<Index>, k: nat)
    requires DepthOk(pool, lvl, c) && InPool(pool, c) && k < |c| && Relinked(pool, pool', c)
    requires lvl'.totalQty == Wrap32(lvl.totalQty - pool[c[k]].quantity)
    ensures DepthOk(pool', lvl', Without(c, k))
  {
    RelinkedKeepsOrders(pool, pool', c, Without(c, k));
    assert OrdersIn(pool, Without(c, k)) == Without(OrdersIn(pool, c), k);
    VolumeAround(OrdersIn(pool, c), k);
    var n: int := pool[c[k]].quantity;
    WrapAdd(Volume(OrdersIn(pool, c)), -n);
  }

  lemma RemoveKeepsLevel(pool: seq<PoolOrder>, side: Side, price: Price, lvl: PriceLevel, lvl': PriceLevel,
                         c: seq<Index>, k: nat)
    requires LevelOk(pool, side, price, lvl, c) && k < |c|
    requires lvl'.head == (if pool[c[k]].prev == NULL_IDX then pool[c[k]].next else lvl.head)
    requires lvl'.tail == (if pool[c[k]].next == NULL_IDX then pool[c[k]].prev else lvl.tail)
    requires lvl'.totalQty == Wrap32(lvl.totalQty - pool[c[k]].quantity)
    requires lvl'.orderCount == lvl.orderCount - 1
    ensures pool[c[k]].prev < |pool| && pool[c[k]].next < |pool|
    ensures Relinked(pool, Detached(pool, c[k]), c)
    ensures LevelOk(Detached(pool, c[k]), side, price, lvl', Without(c, k))
  {
    DetachedRelinks(pool, c, k);
    var c', pool' := Without(c, k), Detached(pool, c[k]);
    RemoveKeepsList(pool, pool', lvl, lvl', c, k);
    RelinkedKeepsLabels(pool, pool', c, side, price, c);
    WithoutLabelled(pool', side, price, c, k);
    RemoveKeepsDepth(pool, pool', lvl, lvl', c, k);
  }

  lemma ResizeOrders(pool: seq<PoolOrder>, c: seq<Index>, k: nat, n: Quantity)
    requires InPool(pool, c) && Distinct(c) && k < |c|
    ensures OrdersIn(pool[c[k] := pool[c[k]].(quantity := n)], c) ==
            OrdersIn(pool, c)[k := OrdersIn(pool, c)[k].(quantity := n)]
  {
  }

  lemma ResizeKeepsList(pool: seq<PoolOrder>, lvl: PriceLevel, lvl': PriceLevel, c: seq<Index>, k: nat, n: Quantity)
    requires ListOk(pool, lvl, c) && k < |c| && lvl' == lvl.(totalQty := lvl'.totalQty)
    ensures ListOk(pool[c[k] := pool[c[k]].(quantity := n)], lvl', c)
  {
  }

  lemma ResizeKeepsDepth(pool: seq<PoolOrder>, lvl: PriceLevel, lvl': PriceLevel, c: seq<Index>, k: nat, n: Quantity)
    requires InPool(pool, c) && Distinct(c) && DepthOk(pool, lvl, c) && k < |c|
    requires lvl'.totalQty == Wrap32(lvl.totalQty - pool[c[k]].quantity + n)
    ensures DepthOk(pool[c[k] := pool[c[k]].(quantity := n)], lvl', c)
  {
    ResizeOrders(pool, c, k, n);
    VolumeAround(OrdersIn(pool, c), k);
    WrapAdd(Volume(OrdersIn(pool, c)), n - pool[c[k]].quantity);
  }

  lemma ResizeKeepsLevel(pool: seq<PoolOrder>, side: Side, price: Price, lvl: PriceLevel, lvl': PriceLevel,
                         c: seq<Index>, k: nat, n: Quantity)
    requires LevelOk(pool, side, price, lvl, c) && k < |c|
    requires lvl' == lvl.(totalQty := lvl'.totalQty)
    requires lvl'.totalQty == Wrap32(lvl.totalQty - pool[c[k]].quantity + n)
    ensures LevelOk(pool[c[k] := pool[c[k]].(quantity := n)], side, price, lvl', c)
  {
    ResizeKeepsList(pool, lvl, lvl', c, k, n);
    ResizeKeepsDepth(pool, lvl, lvl', c, k, n);
    var pool' := pool[c[k] := pool[c[k]].(quantity := n)];
    assert forall i {:trigger pool'[c[i]]} | 0 <= i < |c| ::
        pool'[c[i]].side == pool[c[i]].side && pool'[c[i]].price == pool[c[i]].price;
  }

  /** The neighbours DllAppend and DllRemove follow lie in the pool. */
  lemma LevelEnds(pool: seq<PoolOrder>, side: Side, price: Price, lvl: PriceLevel, c: seq<Index>)
    requires LevelOk(pool, side, price, lvl, c)
    ensures InPool(pool, c) && lvl.orderCount == |c|
    ensures lvl.tail == NULL_IDX || 0 <= lvl.tail < |pool|
  {
  }

  lemma LevelNeighbours(pool: seq<PoolOrder>, side: Side, price: Price, lvl: PriceLevel, c: seq<Index>, k: nat)
    requires LevelOk(pool, side, price, lvl, c) && k < |c|
    ensures 0 <= c[k] < |pool|
    ensures pool[c[k]].prev == NULL_IDX || 0 <= pool[c[k]].prev < |pool|
    ensures pool[c[k]].next == NULL_IDX || 0 <= pool[c[k]].next < |pool|
  {
  }

  lemma LevelNext(pool: seq<PoolOrder>, side: Side, price: Price, lvl: PriceLevel, c: seq<Index>, k: nat)
    requires LevelOk(pool, side, price, lvl, c) && k < |c|
    ensures 0 <= c[k] < |pool| && pool[c[k]].next == At(c, k + 1)
  {
  }

  /** A level does not notice changes to other slots. */
  lemma LevelFrame(pool: seq<PoolOrder>, pool': seq<PoolOrder>, side: Side, price: Price, lvl: PriceLevel,
                   c: seq<Index>)
    requires LevelOk(pool, side, price, lvl, c) && |pool'| == |pool|
    requires forall i | 0 <= i < |pool| && pool[i].side == side && pool[i].price == price && i in c ::
               pool'[i] == pool[i]
    ensures LevelOk(pool', side, price, lvl, c)
    ensures OrdersIn(pool', c) == OrdersIn(pool, c)
  {
    assert forall i {:trigger pool'[c[i]]} | 0 <= i < |c| :: pool'[c[i]] == pool[c[i]];
    assert OrdersIn(pool', c) == OrdersIn(pool, c);
  }
}
