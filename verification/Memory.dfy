/**
  The whole memory of the engine and its invariant. Linking a slot, unlinking one, changing a
  quantity and erasing an empty level each keep it, and each is one step on the abstract queues.
 */
module Memory {
  import opened Types
  import opened PriceTimeQueue
  import opened PriceMap
  import opened SlotPool
  import opened Matching

  /** One side's price map, and for each level the slots its list runs through. */
  datatype Ladder = Ladder(levels: map<Price, PriceLevel>, chains: map<Price, seq<Index>>)

  datatype Memory = Memory(
    pool: seq<PoolOrder>,
    free: seq<Index>,
    ids: map<OrderId, Index>,
    bids: Ladder,
    asks: Ladder)
  {
    ghost function On(side: Side): Ladder {
      if side.Buy? then bids else asks
    }

    /** The slots of a side in price-time order, and the orders in them. */
    ghost function Slots(side: Side): seq<Index> {
      Flatten(side, On(side).chains, On(side).chains.Keys)
    }

    ghost function Queue(side: Side): seq<Order> {
      OrdersIn(pool, Slots(side))
    }

    ghost function Contents(): Book {
      Book(Queue(Buy), Queue(Sell))
    }

    /** Slot i is in the list its own side and price name. */
    ghost predicate InBook(i: Index) {
      && 0 <= i < |pool|
      && var chains := On(pool[i].side).chains;
         pool[i].price in chains && i in chains[pool[i].price]
    }
  }

  ghost predicate LadderOk(pool: seq<PoolOrder>, side: Side, l: Ladder) {
    && l.levels.Keys == l.chains.Keys
    && forall p | p in l.chains :: LevelOk(pool, side, p, l.levels[p], l.chains[p])
  }

  /** Every slot is in exactly one place: a list, the free list, or the hands of the running operation. */
  ghost predicate SlotsOk(m: Memory, held: set<Index>) {
    && InPool(m.pool, m.free) && Distinct(m.free)
    && (forall i | i in held :: 0 <= i < |m.pool| && i !in m.free)
    && (forall i: Index | 0 <= i < |m.pool| :: m.InBook(i) <==> i !in m.free && i !in held)
  }

  /** The id map is a bijection between resting ids and linked slots. */
  ghost predicate IdsOk(m: Memory) {
    && (forall i: Index | m.InBook(i) :: m.pool[i].orderId in m.ids && m.ids[m.pool[i].orderId] == i)
    && (forall id | id in m.ids :: m.InBook(m.ids[id]) && m.pool[m.ids[id]].orderId == id)
  }

  ghost predicate CountsOk(m: Memory, held: set<Index>) {
    && |m.pool| <= 0x7fff_ffff
    && |m.ids| + |m.free| + |held| == |m.pool|
    && |m.Slots(Buy)| + |m.Slots(Sell)| == |m.ids|
  }

  ghost predicate Inv(m: Memory, held: set<Index>) {
    && LadderOk(m.pool, Buy, m.bids) && LadderOk(m.pool, Sell, m.asks)
    && SlotsOk(m, held) && IdsOk(m) && CountsOk(m, held)
  }

  ghost predicate NoEmptyLevel(m: Memory) {
    && (forall p | p in m.bids.chains :: m.bids.chains[p] != [])
    && (forall p | p in m.asks.chains :: m.asks.chains[p] != [])
  }

  // ---------------------------------------------------------------- the flat queues

  lemma SlotsAreInBook(m: Memory, side: Side, k: nat)
    requires LadderOk(m.pool, side, m.On(side)) && k < |m.Slots(side)|
    ensures m.InBook(m.Slots(side)[k]) && m.pool[m.Slots(side)[k]].side == side
  {
    var chains := m.On(side).chains;
    var p := FlattenMember(side, chains, chains.Keys, k);
    var j :| 0 <= j < |chains[p]| && chains[p][j] == m.Slots(side)[k];
    assert m.pool[chains[p][j]].price == p;
  }

  lemma {:induction false} FlattenDistinct(pool: seq<PoolOrder>, side: Side, l: Ladder, keys: set<Price>)
    requires LadderOk(pool, side, l) && keys <= l.chains.Keys
    ensures Distinct(Flatten(side, l.chains, keys)) && InPool(pool, Flatten(side, l.chains, keys))
    ensures forall k | 0 <= k < |Flatten(side, l.chains, keys)| ::
              pool[Flatten(side, l.chains, keys)[k]].price in keys
    decreases |keys|
  {
    hide LevelOk, LadderOk;
    if keys != {} {
      var p := Best(side, keys);
      FlattenDistinct(pool, side, l, keys - {p});
      LevelFacts(pool, side, l, p);
      DistinctLevels(pool, side, p, l.chains[p], Flatten(side, l.chains, keys - {p}), keys - {p});
    }
  }

  lemma DistinctLevels(pool: seq<PoolOrder>, side: Side, p: Price, c: seq<Index>, rest: seq<Index>, keys: set<Price>)
    requires InPool(pool, c) && Distinct(c) && Labelled(pool, side, p, c) && InPool(pool, rest) && Distinct(rest)
    requires p !in keys && forall k | 0 <= k < |rest| :: pool[rest[k]].price in keys
    ensures Distinct(c + rest) && InPool(pool, c + rest)
    ensures forall k | 0 <= k < |c + rest| :: pool[(c + rest)[k]].price in keys + {p}
  {
    forall k | 0 <= k < |c| ensures pool[c[k]].price == p {}
  }

  lemma SlotsDistinct(m: Memory, side: Side)
    requires LadderOk(m.pool, side, m.On(side))
    ensures Distinct(m.Slots(side)) && InPool(m.pool, m.Slots(side))
  {
    FlattenDistinct(m.pool, side, m.On(side), m.On(side).chains.Keys);
  }

  /** Where slot k of the list at price p stands in the side's queue. */
  ghost function Position(m: Memory, side: Side, p: Price, k: nat): nat {
    |Flatten(side, m.On(side).chains, Ahead(side, m.On(side).chains.Keys, p))| + k
  }

  /** Replacing one level's list replaces that stretch of the queue. */
  lemma ReplaceLevel(side: Side, chains: map<Price, seq<Index>>, chains': map<Price, seq<Index>>, p: Price,
                     c: seq<Index>)
    requires chains' == chains[p := c]
    ensures var a := Flatten(side, chains, Ahead(side, chains.Keys, p));
            var b := Flatten(side, chains, Behind(side, chains.Keys, p));
            && Flatten(side, chains, chains.Keys) == a + Own(chains, chains.Keys, p) + b
            && Flatten(side, chains', chains'.Keys) == a + c + b
  {
    var ahead, behind := Ahead(side, chains.Keys, p), Behind(side, chains.Keys, p);
    FlattenSplit(side, chains, chains.Keys, p);
    FlattenSplit(side, chains', chains'.Keys, p);
    assert Ahead(side, chains'.Keys, p) == ahead && Behind(side, chains'.Keys, p) == behind;
    FlattenSame(side, chains, chains', ahead);
    FlattenSame(side, chains, chains', behind);
  }

  // ---------------------------------------------------------------- one level changes

  /** No slot changes the side, price or id it is labelled with. */
  ghost predicate SameLabels(pool: seq<PoolOrder>, pool': seq<PoolOrder>) {
    && |pool'| == |pool|
    && (forall i | 0 <= i < |pool| ::
          && pool'[i].side == pool[i].side && pool'[i].price == pool[i].price
          && pool'[i].orderId == pool[i].orderId)
  }

  /** Slots change only on one side at one price. */
  ghost predicate ChangesOnly(pool: seq<PoolOrder>, pool': seq<PoolOrder>, side: Side, p: Price) {
    && |pool'| == |pool|
    && (forall i | 0 <= i < |pool| && pool'[i] != pool[i] :: pool[i].side == side && pool[i].price == p)
  }

  /** The price maps differ at one level only. */
  ghost predicate LevelSet(m: Memory, m': Memory, side: Side, p: Price, lvl: PriceLevel, c: seq<Index>) {
    && m'.On(side) == Ladder(m.On(side).levels[p := lvl], m.On(side).chains[p := c])
    && m'.On(side.Opposite()) == m.On(side.Opposite())
  }

  lemma LevelSetLadders(m: Memory, m': Memory, side: Side, p: Price, lvl: PriceLevel, c: seq<Index>)
    requires LevelSet(m, m', side, p, lvl, c) && ChangesOnly(m.pool, m'.pool, side, p)
    requires LevelOk(m'.pool, side, p, lvl, c)
    requires LadderOk(m.pool, Buy, m.bids) && LadderOk(m.pool, Sell, m.asks)
    ensures LadderOk(m'.pool, Buy, m'.bids) && LadderOk(m'.pool, Sell, m'.asks)
  {
    forall s: Side, q | q in m.On(s).chains && !(s == side && q == p)
      ensures LevelOk(m'.pool, s, q, m.On(s).levels[q], m.On(s).chains[q])
    {
      LevelFrame(m.pool, m'.pool, s, q, m.On(s).levels[q], m.On(s).chains[q]);
    }
    assert m'.On(Buy) == m'.bids && m'.On(Sell) == m'.asks;
  }

  lemma UnlinkInBook(m: Memory, m': Memory, side: Side, p: Price, k: nat, lvl: PriceLevel)
    requires p in m.On(side).chains && k < |m.On(side).chains[p]|
    requires var c := m.On(side).chains[p];
             && LevelSet(m, m', side, p, lvl, Without(c, k)) && Distinct(c)
             && 0 <= c[k] < |m.pool| && m.pool[c[k]].side == side && m.pool[c[k]].price == p
    requires SameLabels(m.pool, m'.pool)
    ensures m.InBook(m.On(side).chains[p][k])
    ensures forall i: Index :: m'.InBook(i) <==> m.InBook(i) && i != m.On(side).chains[p][k]
  {
  }

  lemma ReleaseKeepsSlots(m: Memory, m': Memory, held: set<Index>, idx: Index)
    requires SlotsOk(m, held) && m.InBook(idx)
    requires forall i: Index :: m'.InBook(i) <==> m.InBook(i) && i != idx
    requires |m'.pool| == |m.pool| && m'.free == m.free + [idx]
    ensures SlotsOk(m', held)
  {
  }

  lemma ReleaseKeepsIds(m: Memory, m': Memory, idx: Index)
    requires IdsOk(m) && m.InBook(idx) && SameLabels(m.pool, m'.pool)
    requires forall i: Index :: m'.InBook(i) <==> m.InBook(i) && i != idx
    requires m'.ids == m.ids - {m.pool[idx].orderId}
    ensures IdsOk(m') && |m'.ids| == |m.ids| - 1
  {
    assert m'.ids.Keys == m.ids.Keys - {m.pool[idx].orderId};
    assert |m'.ids| == |m'.ids.Keys| && |m.ids| == |m.ids.Keys|;
  }

  lemma WithoutInMiddle<T>(a: seq<T>, c: seq<T>, b: seq<T>, k: nat)
    requires k < |c|
    ensures a + Without(c, k) + b == Without(a + c + b, |a| + k)
  {
  }

  lemma OrdersWithout(pool: seq<PoolOrder>, c: seq<Index>, k: nat)
    requires k < |c|
    ensures OrdersIn(pool, Without(c, k)) == Without(OrdersIn(pool, c), k)
  {
  }

  lemma UnlinkQueues(m: Memory, m': Memory, side: Side, p: Price, k: nat, lvl: PriceLevel)
    requires p in m.On(side).chains && k < |m.On(side).chains[p]|
    requires LevelSet(m, m', side, p, lvl, Without(m.On(side).chains[p], k))
    requires Relinked(m.pool, m'.pool, m.On(side).chains[p])
    ensures var pos := Position(m, side, p, k);
            && pos < |m.Slots(side)| && m.Slots(side)[pos] == m.On(side).chains[p][k]
            && m'.Slots(side) == Without(m.Slots(side), pos)
            && m'.Queue(side) == Without(m.Queue(side), pos)
    ensures m'.Slots(side.Opposite()) == m.Slots(side.Opposite())
    ensures m'.Queue(side.Opposite()) == m.Queue(side.Opposite())
  {
    hide Relinked, OrdersIn, Flatten, Without;
    var l := m.On(side);
    var c, pos := l.chains[p], Position(m, side, p, k);
    ReplaceLevel(side, l.chains, m'.On(side).chains, p, Without(c, k));
    WithoutInMiddle(Flatten(side, l.chains, Ahead(side, l.chains.Keys, p)), c,
                    Flatten(side, l.chains, Behind(side, l.chains.Keys, p)), k);
    RelinkedKeepsOrders(m.pool, m'.pool, c, m'.Slots(side));
    RelinkedKeepsOrders(m.pool, m'.pool, c, m.Slots(side.Opposite()));
    OrdersWithout(m.pool, m.Slots(side), pos);
  }

  /** The state after the slot at position k of the list at p is unlinked, forgotten and freed. */
  ghost predicate Unlinks(m: Memory, m': Memory, side: Side, p: Price, k: nat, lvl: PriceLevel) {
    && p in m.On(side).chains && k < |m.On(side).chains[p]|
    && var c := m.On(side).chains[p];
       && LevelSet(m, m', side, p, lvl, Without(c, k))
       && LevelOk(m'.pool, side, p, lvl, Without(c, k))
       && Relinked(m.pool, m'.pool, c)
       && m'.free == m.free + [c[k]]
       && 0 <= c[k] < |m.pool|
       && m'.ids == m.ids - {m.pool[c[k]].orderId}
  }

  lemma RelinkedChangesOnly(pool: seq<PoolOrder>, pool': seq<PoolOrder>, side: Side, p: Price, c: seq<Index>)
    requires Relinked(pool, pool', c) && InPool(pool, c) && Labelled(pool, side, p, c)
    ensures ChangesOnly(pool, pool', side, p) && SameLabels(pool, pool')
  {
  }

  /** Unlinking takes one order out of its queue and leaves all others in place. */
  lemma UnlinkKeepsInv(m: Memory, m': Memory, held: set<Index>, side: Side, p: Price, k: nat, lvl: PriceLevel)
    requires Inv(m, held) && Unlinks(m, m', side, p, k, lvl)
    ensures Inv(m', held)
    ensures var pos := Position(m, side, p, k);
            && pos < |m.Slots(side)| && m.Slots(side)[pos] == m.On(side).chains[p][k]
            && m'.Slots(side) == Without(m.Slots(side), pos)
            && m'.Queue(side) == Without(m.Queue(side), pos)
    ensures m'.Slots(side.Opposite()) == m.Slots(side.Opposite())
    ensures m'.Queue(side.Opposite()) == m.Queue(side.Opposite())
  {
    hide LadderOk, LevelOk, SlotsOk, IdsOk, Relinked, SameLabels, ChangesOnly, Without, Flatten, OrdersIn;
    var c := m.On(side).chains[p];
    LevelFacts(m.pool, side, m.On(side), p);
    SlotLabel(m.pool, side, p, c, k);
    RelinkedChangesOnly(m.pool, m'.pool, side, p, c);
    LevelSetLadders(m, m', side, p, lvl, Without(c, k));
    UnlinkInBook(m, m', side, p, k, lvl);
    ReleaseKeepsSlots(m, m', held, c[k]);
    ReleaseKeepsIds(m, m', c[k]);
    UnlinkQueues(m, m', side, p, k, lvl);
    assert |Without(m.Slots(side), Position(m, side, p, k))| == |m.Slots(side)| - 1 by {
      WithoutLength(m.Slots(side), Position(m, side, p, k));
    }
  }

  lemma WithoutLength<T>(c: seq<T>, k: nat)
    requires k < |c|
    ensures |Without(c, k)| == |c| - 1
  {
  }

  lemma LevelFacts(pool: seq<PoolOrder>, side: Side, l: Ladder, p: Price)
    requires LadderOk(pool, side, l) && p in l.chains
    ensures p in l.levels && LevelOk(pool, side, p, l.levels[p], l.chains[p])
    ensures InPool(pool, l.chains[p]) && Distinct(l.chains[p]) && Labelled(pool, side, p, l.chains[p])
  {
  }

  lemma SlotLabel(pool: seq<PoolOrder>, side: Side, p: Price, c: seq<Index>, k: nat)
    requires InPool(pool, c) && Labelled(pool, side, p, c) && k < |c|
    ensures pool[c[k]].side == side && pool[c[k]].price == p
  {
  }

  // ---------------------------------------------------------------- linking

  /** The list at a price, empty when the price has no level. */
  ghost function ChainAt(l: Ladder, p: Price): seq<Index> {
    Own(l.chains, l.chains.Keys, p)
  }

  /** The state after the held slot idx joins the tail of the list its side and price name. */
  ghost predicate Links(m: Memory, m': Memory, idx: Index, lvl: PriceLevel) {
    && 0 <= idx < |m.pool|
    && var o := m.pool[idx];
       var c := ChainAt(m.On(o.side), o.price) + [idx];
       && LevelSet(m, m', o.side, o.price, lvl, c)
       && LevelOk(m'.pool, o.side, o.price, lvl, c)
       && Relinked(m.pool, m'.pool, c)
       && m'.free == m.free
       && m'.ids == m.ids[o.orderId := idx]
  }

  lemma LinkInBook(m: Memory, m': Memory, side: Side, p: Price, idx: Index, lvl: PriceLevel)
    requires LevelSet(m, m', side, p, lvl, ChainAt(m.On(side), p) + [idx])
    requires SameLabels(m.pool, m'.pool) && 0 <= idx < |m.pool|
    requires m.pool[idx].side == side && m.pool[idx].price == p
    ensures forall i: Index :: m'.InBook(i) <==> m.InBook(i) || i == idx
  {
  }

  lemma AdmitKeepsSlots(m: Memory, m': Memory, held: set<Index>, idx: Index)
    requires SlotsOk(m, held) && idx in held
    requires forall i: Index :: m'.InBook(i) <==> m.InBook(i) || i == idx
    requires |m'.pool| == |m.pool| && m'.free == m.free
    ensures SlotsOk(m', held - {idx})
  {
  }

  lemma AdmitKeepsIds(m: Memory, m': Memory, idx: Index)
    requires IdsOk(m) && SameLabels(m.pool, m'.pool)
    requires 0 <= idx < |m.pool| && m.pool[idx].orderId !in m.ids
    requires forall i: Index :: m'.InBook(i) <==> m.InBook(i) || i == idx
    requires m'.ids == m.ids[m.pool[idx].orderId := idx]
    ensures IdsOk(m') && |m'.ids| == |m.ids| + 1
  {
    forall i: Index | m'.InBook(i)
      ensures m'.pool[i].orderId in m'.ids && m'.ids[m'.pool[i].orderId] == i
    {
      if i != idx {
        assert m.InBook(i);
      }
    }
    forall id | id in m'.ids ensures m'.InBook(m'.ids[id]) && m'.pool[m'.ids[id]].orderId == id {
      if id != m.pool[idx].orderId {
        assert m.InBook(m.ids[id]);
      }
    }
  }

  lemma FlattenPrices(pool: seq<PoolOrder>, side: Side, l: Ladder, keys: set<Price>)
    requires LadderOk(pool, side, l) && keys <= l.chains.Keys
    ensures var f := Flatten(side, l.chains, keys);
            InPool(pool, f) && forall k | 0 <= k < |f| :: pool[f[k]].price in keys
  {
  }

  /** Joining the tail of a level is insertion in price-time order. */
  lemma TailIsInsert(pool: seq<PoolOrder>, side: Side, l: Ladder, p: Price, idx: Index)
    requires LadderOk(pool, side, l) && 0 <= idx < |pool| && pool[idx].price == p
    ensures Ahead(side, l.chains.Keys, p) <= l.chains.Keys && Behind(side, l.chains.Keys, p) <= l.chains.Keys
    ensures var a := Flatten(side, l.chains, Ahead(side, l.chains.Keys, p));
            var b := Flatten(side, l.chains, Behind(side, l.chains.Keys, p));
            OrdersIn(pool, a + (ChainAt(l, p) + [idx]) + b) ==
            Insert(side, OrdersIn(pool, Flatten(side, l.chains, l.chains.Keys)), pool[idx].View())
  {
    hide LevelOk;
    var keys := l.chains.Keys;
    SplitSubsets(side, keys, p);
    var a, c, b := Flatten(side, l.chains, Ahead(side, keys, p)), ChainAt(l, p),
                   Flatten(side, l.chains, Behind(side, keys, p));
    FlattenSplit(side, l.chains, keys, p);
    FlattenPrices(pool, side, l, Ahead(side, keys, p));
    FlattenPrices(pool, side, l, Behind(side, keys, p));
    if p in l.chains {
      LevelFacts(pool, side, l, p);
    }
    InsertBetween(pool, side, a, c, b, idx);
  }

  lemma InsertBetween(pool: seq<PoolOrder>, side: Side, a: seq<Index>, c: seq<Index>, b: seq<Index>, idx: Index)
    requires InPool(pool, a) && InPool(pool, b) && InPool(pool, c) && 0 <= idx < |pool|
    requires forall i | 0 <= i < |a| :: !Better(side, pool[idx].price, pool[a[i]].price)
    requires forall i {:trigger pool[c[i]]} | 0 <= i < |c| :: !Better(side, pool[idx].price, pool[c[i]].price)
    requires forall i | 0 <= i < |b| :: Better(side, pool[idx].price, pool[b[i]].price)
    ensures OrdersIn(pool, a + (c + [idx]) + b) == Insert(side, OrdersIn(pool, a + c + b), pool[idx].View())
  {
    var q, o := OrdersIn(pool, a + c + b), pool[idx].View();
    var k := |a| + |c|;
    forall i | 0 <= i < k ensures !Better(side, o.price, q[i].price) {
      if i >= |a| {
        assert (a + c + b)[i] == c[i - |a|];
      } else {
        assert (a + c + b)[i] == a[i];
      }
    }
    if k < |q| {
      assert (a + c + b)[k] == b[0];
    }
    InsertAt(side, q, o, k);
    assert OrdersIn(pool, a + (c + [idx]) + b) == q[..k] + [o] + q[k..];
  }

  lemma LinkQueues(m: Memory, m': Memory, side: Side, p: Price, idx: Index, lvl: PriceLevel)
    requires LadderOk(m.pool, side, m.On(side)) && 0 <= idx < |m.pool| && m.pool[idx].price == p
    requires LevelSet(m, m', side, p, lvl, ChainAt(m.On(side), p) + [idx])
    requires Relinked(m.pool, m'.pool, ChainAt(m.On(side), p) + [idx])
    ensures m'.Queue(side) == Insert(side, m.Queue(side), m.pool[idx].View())
    ensures m'.Queue(side.Opposite()) == m.Queue(side.Opposite())
    ensures |m'.Slots(side)| == |m.Slots(side)| + 1
    ensures m'.Slots(side.Opposite()) == m.Slots(side.Opposite())
  {
    hide LadderOk, Relinked, OrdersIn, Flatten;
    var c := ChainAt(m.On(side), p) + [idx];
    ReplaceLevel(side, m.On(side).chains, m'.On(side).chains, p, c);
    TailIsInsert(m.pool, side, m.On(side), p, idx);
    RelinkedKeepsOrders(m.pool, m'.pool, c, m'.Slots(side));
    RelinkedKeepsOrders(m.pool, m'.pool, c, m.Slots(side.Opposite()));
  }

  lemma LevelSetLabels(pool: seq<PoolOrder>, pool': seq<PoolOrder>, side: Side, p: Price, lvl: PriceLevel,
                       c: seq<Index>)
    requires LevelOk(pool', side, p, lvl, c) && Relinked(pool, pool', c)
    ensures ChangesOnly(pool, pool', side, p) && SameLabels(pool, pool')
  {
  }

  /** Linking inserts one order behind its equals. */
  lemma LinkKeepsInv(m: Memory, m': Memory, held: set<Index>, idx: Index, lvl: PriceLevel)
    requires Inv(m, held) && idx in held && Links(m, m', idx, lvl) && m.pool[idx].orderId !in m.ids
    ensures Inv(m', held - {idx})
    ensures m'.Queue(m.pool[idx].side) == Insert(m.pool[idx].side, m.Queue(m.pool[idx].side), m.pool[idx].View())
    ensures m'.Queue(m.pool[idx].side.Opposite()) == m.Queue(m.pool[idx].side.Opposite())
  {
    hide LadderOk, LevelOk, SlotsOk, IdsOk, Relinked, SameLabels, ChangesOnly;
    var side, p := m.pool[idx].side, m.pool[idx].price;
    var c := ChainAt(m.On(side), p) + [idx];
    LevelSetLabels(m.pool, m'.pool, side, p, lvl, c);
    LevelSetLadders(m, m', side, p, lvl, c);
    LinkInBook(m, m', side, p, idx, lvl);
    AdmitKeepsSlots(m, m', held, idx);
    AdmitKeepsIds(m, m', idx);
    LinkQueues(m, m', side, p, idx, lvl);
  }

  /** What InsertIntoBook relies on when it appends to an existing or a new level. */
  lemma BeforeLink(m: Memory, idx: Index, side: Side, p: Price)
    requires Inv(m, {idx})
    ensures 0 <= idx < |m.pool| && idx !in ChainAt(m.On(side), p) && |ChainAt(m.On(side), p)| < 0x7fff_ffff
    ensures p in m.On(side).levels <==> p in m.On(side).chains
    ensures LevelOk(m.pool, side, p, if p in m.On(side).levels then m.On(side).levels[p] else NEW_LEVEL,
                    ChainAt(m.On(side), p))
  {
    hide LevelOk, IdsOk;
    assert idx in {idx} && !m.InBook(idx);
    var l := m.On(side);
    if p in l.chains {
      LevelFacts(m.pool, side, l, p);
      forall k | 0 <= k < |l.chains[p]| ensures l.chains[p][k] != idx {
        ChainInBook(m, side, p, k);
      }
      ReplaceLevel(side, l.chains, l.chains, p, l.chains[p]);
      assert l.chains[p := l.chains[p]] == l.chains;
    } else {
      NewLevelOk(m.pool, side, p);
    }
  }

  lemma NewLevelOk(pool: seq<PoolOrder>, side: Side, p: Price)
    ensures LevelOk(pool, side, p, NEW_LEVEL, [])
  {
  }

  lemma LinkKeepsNoEmpty(m: Memory, m': Memory, idx: Index, lvl: PriceLevel)
    requires NoEmptyLevel(m) && Links(m, m', idx, lvl)
    ensures NoEmptyLevel(m')
  {
  }

  // ---------------------------------------------------------------- quantities

  /** The state after the slot at position k of the list at p is given quantity n. */
  ghost predicate Resizes(m: Memory, m': Memory, side: Side, p: Price, k: nat, n: Quantity, lvl: PriceLevel) {
    && p in m.On(side).chains && k < |m.On(side).chains[p]|
    && var c := m.On(side).chains[p];
       && LevelSet(m, m', side, p, lvl, c)
       && LevelOk(m'.pool, side, p, lvl, c)
       && 0 <= c[k] < |m.pool|
       && m'.pool == m.pool[c[k] := m.pool[c[k]].(quantity := n)]
       && m'.free == m.free && m'.ids == m.ids
  }

  lemma ResizeInBook(m: Memory, m': Memory, side: Side, p: Price, lvl: PriceLevel)
    requires p in m.On(side).chains && LevelSet(m, m', side, p, lvl, m.On(side).chains[p])
    requires SameLabels(m.pool, m'.pool)
    ensures forall i: Index :: m'.InBook(i) <==> m.InBook(i)
  {
  }

  lemma ResizeQueues(m: Memory, m': Memory, side: Side, p: Price, k: nat, n: Quantity, lvl: PriceLevel)
    requires LadderOk(m.pool, Buy, m.bids) && LadderOk(m.pool, Sell, m.asks)
    requires Resizes(m, m', side, p, k, n, lvl)
    ensures m'.Slots(side) == m.Slots(side) && m'.Slots(side.Opposite()) == m.Slots(side.Opposite())
    ensures var pos := Position(m, side, p, k);
            && pos < |m.Slots(side)| && m.Slots(side)[pos] == m.On(side).chains[p][k]
            && m'.Queue(side) == m.Queue(side)[pos := m.Queue(side)[pos].(quantity := n)]
    ensures m'.Queue(side.Opposite()) == m.Queue(side.Opposite())
  {
    hide LadderOk, LevelOk, Flatten;
    var l := m.On(side);
    var c := l.chains[p];
    assert m'.On(side).chains == l.chains;
    ReplaceLevel(side, l.chains, l.chains, p, c);
    SlotsDistinct(m, side);
    ResizeOrders(m.pool, m.Slots(side), Position(m, side, p, k), n);
    LevelFacts(m.pool, side, l, p);
    SlotLabel(m.pool, side, p, c, k);
    forall i | 0 <= i < |m.Slots(side.Opposite())| ensures m.Slots(side.Opposite())[i] != c[k] {
      SlotsAreInBook(m, side.Opposite(), i);
    }
    assert OrdersIn(m'.pool, m.Slots(side.Opposite())) == OrdersIn(m.pool, m.Slots(side.Opposite()));
  }

  lemma SetKeepsLabels(pool: seq<PoolOrder>, side: Side, p: Price, idx: Index, n: Quantity)
    requires 0 <= idx < |pool| && pool[idx].side == side && pool[idx].price == p
    ensures SameLabels(pool, pool[idx := pool[idx].(quantity := n)])
    ensures ChangesOnly(pool, pool[idx := pool[idx].(quantity := n)], side, p)
  {
  }

  lemma SameInBookKeeps(m: Memory, m': Memory, held: set<Index>)
    requires SlotsOk(m, held) && IdsOk(m) && SameLabels(m.pool, m'.pool)
    requires forall i: Index :: m'.InBook(i) <==> m.InBook(i)
    requires m'.free == m.free && m'.ids == m.ids
    ensures SlotsOk(m', held) && IdsOk(m')
  {
  }

  /** Changing a quantity changes that one order and keeps its place. */
  lemma ResizeKeepsInv(m: Memory, m': Memory, held: set<Index>, side: Side, p: Price, k: nat, n: Quantity,
                       lvl: PriceLevel)
    requires Inv(m, held) && Resizes(m, m', side, p, k, n, lvl)
    ensures Inv(m', held)
    ensures m'.Slots(side) == m.Slots(side) && m'.Slots(side.Opposite()) == m.Slots(side.Opposite())
    ensures var pos := Position(m, side, p, k);
            && pos < |m.Slots(side)| && m.Slots(side)[pos] == m.On(side).chains[p][k]
            && m'.Queue(side) == m.Queue(side)[pos := m.Queue(side)[pos].(quantity := n)]
    ensures m'.Queue(side.Opposite()) == m.Queue(side.Opposite())
  {
    hide LadderOk, LevelOk, SlotsOk, IdsOk, SameLabels, ChangesOnly;
    var c := m.On(side).chains[p];
    LevelFacts(m.pool, side, m.On(side), p);
    SlotLabel(m.pool, side, p, c, k);
    SetKeepsLabels(m.pool, side, p, c[k], n);
    LevelSetLadders(m, m', side, p, lvl, c);
    ResizeInBook(m, m', side, p, lvl);
    SameInBookKeeps(m, m', held);
    ResizeQueues(m, m', side, p, k, n, lvl);
  }

  // ---------------------------------------------------------------- erasing a level

  /** The state after the empty level at p is erased. */
  ghost predicate Erases(m: Memory, m': Memory, side: Side, p: Price) {
    && p in m.On(side).chains && m.On(side).chains[p] == []
    && m'.On(side) == Ladder(m.On(side).levels - {p}, m.On(side).chains - {p})
    && m'.On(side.Opposite()) == m.On(side.Opposite())
    && m'.pool == m.pool && m'.free == m.free && m'.ids == m.ids
  }

  lemma EraseSlots(m: Memory, m': Memory, side: Side, p: Price)
    requires Erases(m, m', side, p)
    ensures m'.Slots(side) == m.Slots(side) && m'.Slots(side.Opposite()) == m.Slots(side.Opposite())
  {
    var chains := m.On(side).chains;
    FlattenErase(side, chains, chains.Keys, p);
    FlattenSame(side, chains, chains - {p}, chains.Keys - {p});
    assert (chains - {p}).Keys == chains.Keys - {p};
  }

  lemma EraseLadders(m: Memory, m': Memory, side: Side, p: Price)
    requires LadderOk(m.pool, Buy, m.bids) && LadderOk(m.pool, Sell, m.asks) && Erases(m, m', side, p)
    ensures LadderOk(m'.pool, Buy, m'.bids) && LadderOk(m'.pool, Sell, m'.asks)
  {
  }

  lemma EraseInBook(m: Memory, m': Memory, side: Side, p: Price)
    requires Erases(m, m', side, p)
    ensures forall i: Index :: m'.InBook(i) <==> m.InBook(i)
  {
  }

  /** Erasing an empty level is invisible in the book. */
  lemma EraseKeepsInv(m: Memory, m': Memory, held: set<Index>, side: Side, p: Price)
    requires Inv(m, held) && Erases(m, m', side, p)
    ensures Inv(m', held)
    ensures m'.Slots(side) == m.Slots(side) && m'.Slots(side.Opposite()) == m.Slots(side.Opposite())
    ensures m'.Queue(side) == m.Queue(side) && m'.Queue(side.Opposite()) == m.Queue(side.Opposite())
  {
    hide LadderOk, SlotsOk, IdsOk;
    EraseSlots(m, m', side, p);
    EraseLadders(m, m', side, p);
    EraseInBook(m, m', side, p);
    SameInBookKeeps(m, m', held) by {
      assert SameLabels(m.pool, m'.pool);
    }
  }

  // ---------------------------------------------------------------- slots outside the book

  /** Only slots outside the book changed hands or contents. */
  ghost predicate OffBook(m: Memory, m': Memory, held: set<Index>, held': set<Index>) {
    && m'.bids == m.bids && m'.asks == m.asks && m'.ids == m.ids
    && |m'.pool| == |m.pool|
    && (forall i: Index | 0 <= i < |m.pool| && i !in m.free && i !in held :: m'.pool[i] == m.pool[i])
    && InPool(m'.pool, m'.free) && Distinct(m'.free)
    && (forall i | i in held' :: 0 <= i < |m'.pool| && i !in m'.free)
    && (forall i: Index | 0 <= i < |m.pool| ::
          i !in m.free && i !in held <==> i !in m'.free && i !in held')
    && |m'.free| + |held'| == |m.free| + |held|
  }

  lemma ChainInBook(m: Memory, side: Side, p: Price, k: nat)
    requires LadderOk(m.pool, side, m.On(side)) && p in m.On(side).chains && k < |m.On(side).chains[p]|
    ensures m.InBook(m.On(side).chains[p][k])
  {
  }

  lemma OffBookLadder(m: Memory, m': Memory, held: set<Index>, held': set<Index>, side: Side)
    requires LadderOk(m.pool, side, m.On(side)) && SlotsOk(m, held) && OffBook(m, m', held, held')
    ensures LadderOk(m'.pool, side, m'.On(side)) && m'.Queue(side) == m.Queue(side)
  {
    hide LevelOk, Flatten;
    var l := m.On(side);
    forall p | p in l.chains ensures LevelOk(m'.pool, side, p, l.levels[p], l.chains[p]) {
      var c := l.chains[p];
      forall k | 0 <= k < |c| ensures 0 <= c[k] < |m.pool| && m'.pool[c[k]] == m.pool[c[k]] {
        ChainInBook(m, side, p, k);
      }
      LevelFrame(m.pool, m'.pool, side, p, l.levels[p], c);
    }
    forall k | 0 <= k < |m.Slots(side)|
      ensures 0 <= m.Slots(side)[k] < |m.pool| && m'.pool[m.Slots(side)[k]] == m.pool[m.Slots(side)[k]]
    {
      SlotsAreInBook(m, side, k);
    }
    assert OrdersIn(m'.pool, m.Slots(side)) == OrdersIn(m.pool, m.Slots(side));
  }

  lemma InBookIffInChain(m: Memory, i: Index)
    requires LadderOk(m.pool, Buy, m.bids) && LadderOk(m.pool, Sell, m.asks)
    ensures m.InBook(i) <==> exists side: Side, p :: p in m.On(side).chains && i in m.On(side).chains[p]
  {
    forall side: Side, p | p in m.On(side).chains && i in m.On(side).chains[p] ensures m.InBook(i) {
      var k :| 0 <= k < |m.On(side).chains[p]| && m.On(side).chains[p][k] == i;
      ChainInBook(m, side, p, k);
    }
    if m.InBook(i) {
      assert m.pool[i].price in m.On(m.pool[i].side).chains;
    }
  }

  /** Taking, writing or returning a slot that no list holds is invisible in the book. */
  lemma OffBookKeepsInv(m: Memory, m': Memory, held: set<Index>, held': set<Index>)
    requires Inv(m, held) && OffBook(m, m', held, held')
    ensures Inv(m', held')
    ensures m'.Queue(Buy) == m.Queue(Buy) && m'.Queue(Sell) == m.Queue(Sell)
    ensures m'.Slots(Buy) == m.Slots(Buy) && m'.Slots(Sell) == m.Slots(Sell)
  {
    hide LadderOk;
    OffBookLadder(m, m', held, held', Buy);
    OffBookLadder(m, m', held, held', Sell);
    forall i: Index ensures m'.InBook(i) <==> m.InBook(i) {
      InBookIffInChain(m, i);
      InBookIffInChain(m', i);
    }
    OffBookSlots(m, m', held, held');
  }

  lemma OffBookSlots(m: Memory, m': Memory, held: set<Index>, held': set<Index>)
    requires SlotsOk(m, held) && IdsOk(m) && OffBook(m, m', held, held')
    requires forall i: Index :: m'.InBook(i) <==> m.InBook(i)
    ensures SlotsOk(m', held') && IdsOk(m')
  {
  }

  /** The last free slot is taken and written. */
  lemma TakeKeepsInv(m: Memory, m': Memory, idx: Index, x: PoolOrder)
    requires Inv(m, {}) && m.free == m'.free + [idx]
    ensures 0 <= idx < |m.pool|
    ensures m' == m.(free := m'.free, pool := m.pool[idx := x]) ==>
              && Inv(m', {idx}) && idx !in m'.free && m'.Contents() == m.Contents()
              && m'.Slots(Buy) == m.Slots(Buy) && m'.Slots(Sell) == m.Slots(Sell)
  {
    hide LadderOk, IdsOk;
    assert m.free[|m.free| - 1] == idx;
    forall i ensures i in m.free <==> i in m'.free || i == idx {}
    forall i, j | 0 <= i < j < |m'.free| ensures m'.free[i] != m'.free[j] && m'.free[i] != idx {
      assert m.free[i] == m'.free[i] && m.free[j] == m'.free[j];
    }
    forall i | 0 <= i < |m'.free| ensures 0 <= m'.free[i] < |m.pool| && m'.free[i] != idx {
      assert m.free[i] == m'.free[i];
    }
    if m' == m.(free := m'.free, pool := m.pool[idx := x]) {
      OffBookKeepsInv(m, m', {}, {idx});
    }
  }

  /** The held slot is written. */
  lemma WriteKeepsInv(m: Memory, m': Memory, idx: Index, x: PoolOrder)
    requires Inv(m, {idx})
    ensures 0 <= idx < |m.pool| && !m.InBook(idx)
    ensures m' == m.(pool := m.pool[idx := x]) ==>
              && Inv(m', {idx}) && m'.Contents() == m.Contents()
              && m'.Slots(Buy) == m.Slots(Buy) && m'.Slots(Sell) == m.Slots(Sell)
  {
    hide LadderOk, IdsOk;
    assert idx in {idx};
    if m' == m.(pool := m.pool[idx := x]) {
      OffBookKeepsInv(m, m', {idx}, {idx});
    }
  }

  /** The held slot is returned. */
  lemma ReturnKeepsInv(m: Memory, m': Memory, idx: Index)
    requires Inv(m, {idx}) && m' == m.(free := m.free + [idx])
    ensures Inv(m', {}) && m'.Contents() == m.Contents()
    ensures m'.Slots(Buy) == m.Slots(Buy) && m'.Slots(Sell) == m.Slots(Sell)
  {
    hide LadderOk, IdsOk;
    assert idx in {idx};
    OffBookKeepsInv(m, m', {idx}, {});
  }
}
