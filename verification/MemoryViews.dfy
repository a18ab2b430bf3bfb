/**
  What the engine's steps and loops read off the memory, and what each step means for the abstract
  queues: fills, removals, rounds of the matching loop, walks over the lists, cached depths.
 */
module MemoryViews {
  import opened Types
  import opened Rules
  import opened PriceTimeQueue
  import opened PriceMap
  import opened SlotPool
  import opened Memory
  import opened Matching
  import opened Engine
  import opened Invariants
  import opened BulkCancel
  import opened Depth

  // ---------------------------------------------------------------- what a fill and a removal mean

  /** Slot idx stands at position k of the list at p. */
  ghost predicate HasSlot(m: Memory, side: Side, p: Price, k: nat, idx: Index) {
    && p in m.On(side).chains && k < |m.On(side).chains[p]| && m.On(side).chains[p][k] == idx
    && 0 <= idx < |m.pool|
  }

  /** n was taken from the order at position pos of the side's queue, and nothing else changed. */
  ghost predicate QuantityTaken(m: Memory, m': Memory, side: Side, idx: Index, n: Quantity, pos: nat) {
    && 0 <= idx < |m.pool| && n <= m.pool[idx].quantity
    && pos < |m.Slots(side)| && m.Slots(side)[pos] == idx
    && m'.pool == m.pool[idx := m.pool[idx].(quantity := m.pool[idx].quantity - n)]
    && m'.Slots(side) == m.Slots(side)
    && m'.Queue(side) == m.Queue(side)[pos := m.pool[idx].View().(quantity := m.pool[idx].quantity - n)]
    && m'.Queue(side.Opposite()) == m.Queue(side.Opposite())
    && m'.On(side).levels.Keys == m.On(side).levels.Keys
    && m'.On(side.Opposite()) == m.On(side.Opposite())
  }

  /** The order at position pos left the side's queue, and no other order changed. */
  ghost predicate TakenOut(m: Memory, m': Memory, side: Side, idx: Index, pos: nat) {
    && pos < |m.Slots(side)| && m.Slots(side)[pos] == idx
    && m'.Slots(side) == Without(m.Slots(side), pos)
    && m'.Queue(side) == Without(m.Queue(side), pos)
    && m'.Queue(side.Opposite()) == m.Queue(side.Opposite())
    && m'.On(side).levels.Keys == m.On(side).levels.Keys
    && |m'.pool| == |m.pool|
    && (forall i: Index | 0 <= i < |m.pool| :: SameButLinks(m.pool[i], m'.pool[i]))
  }

  /** n was taken from the front of the side's queue, and slots in other hands kept their orders. */
  ghost predicate FrontConsumed(m: Memory, m': Memory, held: set<Index>, side: Side, p: Price, n: Quantity) {
    && m.Slots(side) != [] && 0 <= m.Slots(side)[0] < |m.pool|
    && m.Queue(side) != [] && n <= m.Queue(side)[0].quantity
    && var gone := m.Queue(side)[0].quantity == n;
       && m'.Queue(side) == Consume(m.Queue(side), n)
       && m'.Slots(side) == (if gone then m.Slots(side)[1..] else m.Slots(side))
       && m'.Queue(side.Opposite()) == m.Queue(side.Opposite())
       && m'.On(side).levels.Keys == m.On(side).levels.Keys
       && m'.On(side.Opposite()) == m.On(side.Opposite())
       && p in m.On(side).chains && m.On(side).chains[p] != []
       && m'.On(side).chains == m.On(side).chains[p := if gone then m.On(side).chains[p][1..] else m.On(side).chains[p]]
       && |m'.pool| == |m.pool|
       && (forall i | i in held && 0 <= i < |m.pool| :: SameButLinks(m.pool[i], m'.pool[i]))
  }

  lemma PartlyConsumed(m: Memory, m': Memory, held: set<Index>, side: Side, p: Price, idx: Index, n: Quantity)
    requires HasSlot(m, side, p, 0, idx) && idx !in held
    requires QuantityTaken(m, m', side, idx, n, 0) && n < m.pool[idx].quantity
    requires m'.On(side).chains == m.On(side).chains
    ensures FrontConsumed(m, m', held, side, p, n)
  {
  }

  lemma FullyConsumed(m: Memory, m1: Memory, m': Memory, held: set<Index>, side: Side, p: Price, idx: Index,
                      n: Quantity)
    requires HasSlot(m, side, p, 0, idx) && idx !in held
    requires QuantityTaken(m, m1, side, idx, n, 0) && n == m.pool[idx].quantity
    requires m1.On(side).chains == m.On(side).chains
    requires TakenOut(m1, m', side, idx, 0)
    requires m'.On(side).chains == m1.On(side).chains[p := Without(m1.On(side).chains[p], 0)]
    requires m'.On(side.Opposite()) == m1.On(side.Opposite())
    ensures FrontConsumed(m, m', held, side, p, n)
  {
    hide Flatten;
    QueueAt(m, side, 0);
    assert Without(m.Slots(side), 0) == m.Slots(side)[1..];
    assert Without(m1.Queue(side), 0) == m.Queue(side)[1..];
    assert Without(m.On(side).chains[p], 0) == m.On(side).chains[p][1..];
    forall i | i in held && 0 <= i < |m.pool| ensures SameButLinks(m.pool[i], m'.pool[i]) {
      assert SameButLinks(m1.pool[i], m'.pool[i]);
    }
  }

  /** The best level, when its list is not empty, gives the slot the loops work on. */
  lemma BestHead(m: Memory, held: set<Index>, side: Side, p: Price)
    requires Inv(m, held) && p in m.On(side).levels && IsBest(side, m.On(side).levels.Keys, p)
    ensures p in m.On(side).chains
    ensures m.On(side).levels[p].head == NULL_IDX <==> m.On(side).chains[p] == []
    ensures m.On(side).chains[p] != [] ==>
              var idx := m.On(side).levels[p].head;
              && HasSlot(m, side, p, 0, idx) && idx !in held
              && Position(m, side, p, 0) == 0
              && m.Slots(side) != [] && m.Slots(side)[0] == idx
              && m.Queue(side) != [] && m.Queue(side)[0] == m.pool[idx].View()
              && m.pool[idx].price == p && m.pool[idx].side == side
  {
    hide LevelOk, IdsOk;
    HeadIsFirst(m, side, p);
    if m.On(side).chains[p] != [] {
      ChainInBook(m, side, p, 0);
    }
  }

  // ---------------------------------------------------------------- reading the book

  lemma InvLevel(m: Memory, held: set<Index>, side: Side, p: Price)
    requires Inv(m, held)
    ensures m.On(side).levels.Keys == m.On(side).chains.Keys
    ensures p in m.On(side).chains ==>
              var c := m.On(side).chains[p];
              && LevelOk(m.pool, side, p, m.On(side).levels[p], c)
              && InPool(m.pool, c) && Distinct(c) && Labelled(m.pool, side, p, c)
              && m.On(side).levels[p].head == At(c, 0)
              && m.On(side).levels[p].orderCount == |c|
  {
  }

  /** The best level's head is the first order of the side. */
  lemma HeadIsFirst(m: Memory, side: Side, p: Price)
    requires LadderOk(m.pool, side, m.On(side)) && IsBest(side, m.On(side).levels.Keys, p)
    ensures p in m.On(side).chains && Position(m, side, p, 0) == 0
    ensures m.On(side).chains[p] != [] ==>
              && m.Slots(side) != []
              && m.Slots(side)[0] == m.On(side).levels[p].head == m.On(side).chains[p][0]
              && 0 <= m.Slots(side)[0] < |m.pool|
              && m.pool[m.Slots(side)[0]].side == side && m.pool[m.Slots(side)[0]].price == p
              && m.Queue(side)[0] == m.pool[m.Slots(side)[0]].View()
    ensures m.On(side).levels[p].head == NULL_IDX <==> m.On(side).chains[p] == []
  {
  }

  /** A book without empty levels has a first order exactly when it has a level. */
  lemma EmptyQueue(m: Memory, side: Side)
    requires LadderOk(m.pool, side, m.On(side)) && NoEmptyLevel(m)
    ensures m.Slots(side) == [] <==> m.On(side).levels == map[]
    ensures m.On(side).levels != map[] ==>
              && m.Queue(side) != []
              && m.Queue(side)[0].price == Best(side, m.On(side).levels.Keys)
  {
    if m.On(side).levels != map[] {
      assert m.On(side).levels.Keys != {};
      HeadIsFirst(m, side, Best(side, m.On(side).levels.Keys));
    } else {
      assert m.On(side).chains.Keys == {};
    }
  }

  lemma QueueAt(m: Memory, side: Side, k: nat)
    requires k < |m.Slots(side)| && 0 <= m.Slots(side)[k] < |m.pool|
    ensures m.Queue(side)[k] == m.pool[m.Slots(side)[k]].View()
  {
  }

  /** An id rests on a side exactly when the id map names a slot of that side. */
  lemma IdsAreQueued(m: Memory, held: set<Index>, side: Side, id: OrderId)
    requires Inv(m, held)
    ensures Holds(m.Queue(side), id) <==> id in m.ids && m.pool[m.ids[id]].side == side
  {
    hide LadderOk;
    if Holds(m.Queue(side), id) {
      var o :| o in m.Queue(side) && o.id == id;
      var k :| 0 <= k < |m.Queue(side)| && m.Queue(side)[k] == o;
      SlotsAreInBook(m, side, k);
      assert m.pool[m.Slots(side)[k]].orderId == id;
    }
    if id in m.ids && m.pool[m.ids[id]].side == side {
      var k := FindSlot(m, side, m.ids[id]);
      assert m.Queue(side)[k].id == id && m.Queue(side)[k] in m.Queue(side);
    }
  }

  lemma FindSlot(m: Memory, side: Side, idx: Index) returns (k: nat)
    requires m.InBook(idx) && m.pool[idx].side == side
    ensures k < |m.Slots(side)| && m.Slots(side)[k] == idx
  {
    hide Flatten;
    var p := m.pool[idx].price;
    var c := m.On(side).chains[p];
    var j :| 0 <= j < |c| && c[j] == idx;
    ReplaceLevel(side, m.On(side).chains, m.On(side).chains, p, c);
    assert m.On(side).chains[p := c] == m.On(side).chains;
    k := Position(m, side, p, j);
  }

  /** No two queue positions share an id. */
  lemma QueueUnique(m: Memory, held: set<Index>, side: Side)
    requires Inv(m, held)
    ensures Unique(m.Queue(side))
  {
    hide LadderOk;
    SlotsDistinct(m, side);
    var s := m.Slots(side);
    forall i, j | 0 <= i < j < |s| ensures m.Queue(side)[i].id != m.Queue(side)[j].id {
      SlotsAreInBook(m, side, i);
      SlotsAreInBook(m, side, j);
      assert m.ids[m.pool[s[i]].orderId] == s[i] && m.ids[m.pool[s[j]].orderId] == s[j];
    }
  }

  lemma {:induction false} FlattenSorted(pool: seq<PoolOrder>, side: Side, l: Ladder, keys: set<Price>)
    requires LadderOk(pool, side, l) && keys <= l.chains.Keys
    ensures Sorted(side, OrdersIn(pool, Flatten(side, l.chains, keys)))
    decreases |keys|
  {
    if keys != {} {
      var p := Best(side, keys);
      var rest := Flatten(side, l.chains, keys - {p});
      FlattenSorted(pool, side, l, keys - {p});
      FlattenPrices(pool, side, l, keys - {p});
      LevelFacts(pool, side, l, p);
      SortedLevels(pool, side, p, l.chains[p], rest);
    }
  }

  lemma SortedLevels(pool: seq<PoolOrder>, side: Side, p: Price, c: seq<Index>, rest: seq<Index>)
    requires InPool(pool, c) && Labelled(pool, side, p, c) && InPool(pool, rest)
    requires Sorted(side, OrdersIn(pool, rest))
    requires forall k | 0 <= k < |rest| :: !Better(side, pool[rest[k]].price, p)
    ensures Sorted(side, OrdersIn(pool, c + rest))
  {
    var q := OrdersIn(pool, c + rest);
    forall i | 0 <= i < |q| ensures if i < |c| then q[i].price == p else q[i] == OrdersIn(pool, rest)[i - |c|] {
      if i < |c| {
        SlotLabel(pool, side, p, c, i);
      }
    }
  }

  lemma QueueSorted(m: Memory, side: Side)
    requires LadderOk(m.pool, side, m.On(side))
    ensures Sorted(side, m.Queue(side))
  {
    FlattenSorted(m.pool, side, m.On(side), m.On(side).chains.Keys);
  }

  // ---------------------------------------------------------------- cancelling

  /** The slot the id map names stands in the list of its own side and price. */
  lemma SlotOf(m: Memory, held: set<Index>, id: OrderId) returns (k: nat)
    requires Inv(m, held) && id in m.ids
    ensures 0 <= m.ids[id] < |m.pool| && m.pool[m.ids[id]].orderId == id
    ensures HasSlot(m, m.pool[m.ids[id]].side, m.pool[m.ids[id]].price, k, m.ids[id])
  {
    hide LadderOk, SlotsOk;
    var idx := m.ids[id];
    assert m.InBook(idx);
    var c := m.On(m.pool[idx].side).chains[m.pool[idx].price];
    k :| 0 <= k < |c| && c[k] == idx;
  }

  lemma CancelUnknown(m: Memory, id: OrderId)
    requires Inv(m, {}) && id !in m.ids
    ensures Cancel(m.Contents(), id) == m.Contents()
  {
    hide Inv;
    IdsAreQueued(m, {}, Buy, id);
    IdsAreQueued(m, {}, Sell, id);
    RemoveAbsent(m.Queue(Buy), id);
    RemoveAbsent(m.Queue(Sell), id);
  }

  lemma CancelKnown(m: Memory, id: OrderId, side: Side, pos: nat)
    requires Inv(m, {}) && id in m.ids && 0 <= m.ids[id] < |m.pool| && m.pool[m.ids[id]].orderId == id
    requires m.pool[m.ids[id]].side == side && pos < |m.Slots(side)| && m.Slots(side)[pos] == m.ids[id]
    ensures Cancel(m.Contents(), id) ==
            Facing(side, Without(m.Queue(side), pos), m.Queue(side.Opposite()))
  {
    hide Inv, Without;
    IdsAreQueued(m, {}, side.Opposite(), id);
    RemoveAbsent(m.Queue(side.Opposite()), id);
    QueueAt(m, side, pos);
    QueueUnique(m, {}, side);
    RemoveAt(m.Queue(side), pos);
  }

  /** Taking one slot out and erasing its level if that emptied it leaves no empty level. */
  lemma NoEmptyAfter(m: Memory, m1: Memory, m': Memory, side: Side, p: Price)
    requires NoEmptyLevel(m) && p in m.On(side).chains
    requires m1.On(side).chains.Keys == m.On(side).chains.Keys
    requires forall q | q in m.On(side).chains && q != p :: m1.On(side).chains[q] == m.On(side).chains[q]
    requires m1.On(side.Opposite()) == m.On(side.Opposite()) == m'.On(side.Opposite())
    requires m'.On(side).chains ==
             if m1.On(side).chains[p] != [] then m1.On(side).chains else m1.On(side).chains - {p}
    ensures NoEmptyLevel(m')
  {
  }

  lemma NoEmptyAfterBoth(m: Memory, m1: Memory, m': Memory, bid: Price, ask: Price)
    requires NoEmptyLevel(m) && bid in m1.bids.chains && ask in m1.asks.chains
    requires m1.bids.chains == m.bids.chains[bid := m1.bids.chains[bid]]
    requires m1.asks.chains == m.asks.chains[ask := m1.asks.chains[ask]]
    requires m'.bids.chains == if m1.bids.chains[bid] != [] then m1.bids.chains else m1.bids.chains - {bid}
    requires m'.asks.chains == if m1.asks.chains[ask] != [] then m1.asks.chains else m1.asks.chains - {ask}
    ensures NoEmptyLevel(m')
  {
  }

  lemma FewerKeys<T>(m: map<Price, T>, p: Price)
    requires p in m
    ensures |m - {p}| == |m| - 1
  {
  }

  /** Seen through the price maps, the loop's exit tests are those of the book. */
  lemma SettledNow(m: Memory)
    requires Inv(m, {}) && NoEmptyLevel(m)
    ensures Settled(m.Contents()) <==>
            m.bids.levels == map[] || m.asks.levels == map[]
            || !Tradeable(Best(Buy, m.bids.levels.Keys), Best(Sell, m.asks.levels.Keys))
  {
    hide NoEmptyLevel, LadderOk;
    EmptyQueue(m, Buy);
    EmptyQueue(m, Sell);
  }

  // ---------------------------------------------------------------- one round of the matching loop

  ghost predicate AtTop(m: Memory, bid: Price, ask: Price) {
    && bid in m.bids.levels && IsBest(Buy, m.bids.levels.Keys, bid)
    && ask in m.asks.levels && IsBest(Sell, m.asks.levels.Keys, ask)
    && bid in m.bids.chains && ask in m.asks.chains
    && (m.bids.levels[bid].head == NULL_IDX <==> m.bids.chains[bid] == [])
    && (m.asks.levels[ask].head == NULL_IDX <==> m.asks.chains[ask] == [])
  }

  /** Only the lists at these two prices changed; no level came or went. */
  ghost predicate TopsChanged(m: Memory, m': Memory, bid: Price, ask: Price) {
    && m'.bids.levels.Keys == m.bids.levels.Keys && m'.asks.levels.Keys == m.asks.levels.Keys
    && bid in m'.bids.chains && m'.bids.chains == m.bids.chains[bid := m'.bids.chains[bid]]
    && ask in m'.asks.chains && m'.asks.chains == m.asks.chains[ask := m'.asks.chains[ask]]
  }

  /** The heads traded: both queues gave n from their fronts, and at least one list got shorter. */
  ghost predicate HeadsTraded(m: Memory, m': Memory, bid: Price, ask: Price, n: Quantity) {
    && m.Queue(Buy) != [] && m.Queue(Sell) != []
    && n == Min(m.Queue(Buy)[0].quantity, m.Queue(Sell)[0].quantity)
    && m'.Contents() == Book(Consume(m.Queue(Buy), n), Consume(m.Queue(Sell), n))
    && TopsChanged(m, m', bid, ask)
    && bid in m.bids.chains && ask in m.asks.chains
    && |m'.bids.chains[bid]| + |m'.asks.chains[ask]| < |m.bids.chains[bid]| + |m.asks.chains[ask]|
  }

  lemma HeadsTradedBy(m: Memory, m1: Memory, m': Memory, bid: Price, ask: Price, n: Quantity)
    requires m.Queue(Buy) != [] && m.Queue(Sell) != []
    requires n == Min(m.Queue(Buy)[0].quantity, m.Queue(Sell)[0].quantity)
    requires FrontConsumed(m, m1, {}, Buy, bid, n) && FrontConsumed(m1, m', {}, Sell, ask, n)
    ensures HeadsTraded(m, m', bid, ask, n)
  {
  }

  lemma TopsChain(m: Memory, m1: Memory, m': Memory, bid: Price, ask: Price)
    requires TopsChanged(m, m1, bid, ask) && TopsChanged(m1, m', bid, ask)
    ensures TopsChanged(m, m', bid, ask)
  {
  }

  lemma TopAgain(m: Memory, m': Memory, bid: Price, ask: Price)
    requires AtTop(m, bid, ask) && TopsChanged(m, m', bid, ask) && Inv(m', {})
    ensures AtTop(m', bid, ask)
  {
    hide LevelOk, LadderOk;
    BestHead(m', {}, Buy, bid);
    BestHead(m', {}, Sell, ask);
  }

  lemma TopNow(m: Memory, bid: Price, ask: Price)
    requires Inv(m, {}) && m.bids.levels != map[] && m.asks.levels != map[]
    requires bid == Best(Buy, m.bids.levels.Keys) && ask == Best(Sell, m.asks.levels.Keys)
    ensures AtTop(m, bid, ask)
  {
    hide Inv;
    BestHead(m, {}, Buy, bid);
    BestHead(m, {}, Sell, ask);
  }

  lemma SameKeysSameSize<T>(m: map<Price, T>, m': map<Price, T>)
    requires m.Keys == m'.Keys
    ensures |m| == |m'|
  {
  }

  /** The two heads the loop is about to trade are the two front orders. */
  lemma TopHeads(m: Memory, bid: Price, ask: Price)
    requires Inv(m, {}) && AtTop(m, bid, ask) && m.bids.chains[bid] != [] && m.asks.chains[ask] != []
    ensures var b, a := m.bids.levels[bid].head, m.asks.levels[ask].head;
            && 0 <= b < |m.pool| && 0 <= a < |m.pool|
            && m.Queue(Buy) != [] && m.Queue(Buy)[0] == m.pool[b].View() && m.pool[b].price == bid
            && m.Queue(Sell) != [] && m.Queue(Sell)[0] == m.pool[a].View() && m.pool[a].price == ask
  {
    hide Inv;
    BestHead(m, {}, Buy, bid);
    BestHead(m, {}, Sell, ask);
  }

  /** The first order of a side is the head of its best level. */
  lemma FirstIsHead(m: Memory, held: set<Index>, side: Side)
    requires Inv(m, held) && NoEmptyLevel(m) && m.Slots(side) != []
    ensures var idx := m.Slots(side)[0];
            && 0 <= idx < |m.pool| && m.Queue(side) != [] && m.Queue(side)[0] == m.pool[idx].View()
            && m.pool[idx].price in m.On(side).levels
            && IsBest(side, m.On(side).levels.Keys, m.pool[idx].price)
            && m.On(side).levels[m.pool[idx].price].head == idx
  {
    hide Inv;
    InvLevel(m, held, side, 0);
    FirstLevel(m, held, side);
    BestHead(m, held, side, Best(side, m.On(side).levels.Keys));
  }

  lemma FirstLevel(m: Memory, held: set<Index>, side: Side)
    requires m.On(side).levels.Keys == m.On(side).chains.Keys && NoEmptyLevel(m) && m.Slots(side) != []
    ensures m.On(side).levels.Keys != {}
    ensures m.On(side).chains[Best(side, m.On(side).levels.Keys)] != []
  {
  }

  /** n was taken from the first order of the side, and slots in other hands kept their orders. */
  ghost predicate FrontTaken(m: Memory, m': Memory, held: set<Index>, side: Side, n: Quantity) {
    && m.Queue(side) != [] && m.Slots(side) != [] && n <= m.Queue(side)[0].quantity
    && m'.Queue(side) == Consume(m.Queue(side), n)
    && m'.Slots(side) == (if m.Queue(side)[0].quantity == n then m.Slots(side)[1..] else m.Slots(side))
    && m'.Queue(side.Opposite()) == m.Queue(side.Opposite())
    && |m'.pool| == |m.pool|
    && (forall i | i in held && 0 <= i < |m.pool| :: SameButLinks(m.pool[i], m'.pool[i]))
  }

  // ---------------------------------------------------------------- walking the lists

  /** The list at p occupies the side's queue from position base on. */
  ghost predicate StandsAt(m: Memory, side: Side, p: Price, base: nat)
    requires p in m.On(side).chains
  {
    && base + |m.On(side).chains[p]| <= |m.Slots(side)|
    && forall k | 0 <= k < |m.On(side).chains[p]| :: m.Slots(side)[base + k] == m.On(side).chains[p][k]
  }

  lemma StandsInChain(m: Memory, held: set<Index>, side: Side, p: Price, base: nat, k: nat)
    requires Inv(m, held) && p in m.On(side).chains && StandsAt(m, side, p, base)
    requires k < |m.On(side).chains[p]|
    ensures var idx := m.On(side).chains[p][k];
            && 0 <= idx < |m.pool| && m.Slots(side)[base + k] == idx
            && m.pool[idx].next == At(m.On(side).chains[p], k + 1)
            && m.Queue(side)[base + k] == m.pool[idx].View() && m.pool[idx].price == p
  {
    hide Flatten, Inv, LevelOk, OrdersIn;
    var c := m.On(side).chains[p];
    InvLevel(m, held, side, p);
    SlotLabel(m.pool, side, p, c, k);
    LevelNext(m.pool, side, p, m.On(side).levels[p], c, k);
    QueueAt(m, side, base + k);
  }

  /** The best remaining level stands where the walk has got to. */
  lemma NextLevel(m: Memory, held: set<Index>, side: Side, keys: set<Price>, base: nat)
    requires Inv(m, held) && NoEmptyLevel(m) && keys != {} && keys <= m.On(side).chains.Keys
    requires base <= |m.Slots(side)| && m.Slots(side)[base..] == Flatten(side, m.On(side).chains, keys)
    ensures var p := Best(side, keys);
            && p in m.On(side).chains && p in m.On(side).levels
            && StandsAt(m, side, p, base)
            && base < |m.Queue(side)| && m.Queue(side)[base].price == p
            && m.Slots(side)[base..][|m.On(side).chains[p]|..] == Flatten(side, m.On(side).chains, keys - {p})
  {
    hide Inv;
    var p := Best(side, keys);
    var c := m.On(side).chains[p];
    InvLevel(m, held, side, p);
    forall k | 0 <= k < |c| ensures base + k < |m.Slots(side)| && m.Slots(side)[base + k] == c[k] {
      assert m.Slots(side)[base..][k] == c[k];
    }
    assert |m.Slots(side)[base..]| >= |c|;
    assert StandsAt(m, side, p, base);
    StandsInChain(m, held, side, p, base, 0);
  }

  // ---------------------------------------------------------------- facts AddOrder needs

  lemma InvSorted(m: Memory, held: set<Index>, side: Side)
    requires Inv(m, held)
    ensures Sorted(side, m.Queue(side))
  {
    hide LevelOk;
    QueueSorted(m, side);
  }

  lemma EmptySides(m: Memory)
    requires Inv(m, {}) && NoEmptyLevel(m)
    ensures m.Queue(Buy) == [] <==> m.bids.levels == map[]
    ensures m.Queue(Sell) == [] <==> m.asks.levels == map[]
  {
    hide LadderOk, NoEmptyLevel;
    EmptyQueue(m, Buy);
    EmptyQueue(m, Sell);
  }

  lemma FirstPrices(m: Memory, side: Side)
    requires Inv(m, {}) && NoEmptyLevel(m)
    ensures m.On(side).levels != map[] ==>
              m.Queue(side) != [] && m.Queue(side)[0].price == Best(side, m.On(side).levels.Keys)
  {
    hide LevelOk, NoEmptyLevel;
    EmptyQueue(m, side);
  }

  /** The free list is empty exactly when every slot holds a resting order. */
  lemma FreeSlots(m: Memory)
    requires Inv(m, {})
    ensures m.free == [] <==> m.Contents().Count() >= |m.pool|
    ensures m.Contents().Count() == |m.ids| == |m.pool| - |m.free|
  {
  }

  lemma IdIsFresh(m: Memory, rules: ExchangeRules, id: OrderId, price: Price, quantity: Quantity)
    requires Inv(m, {}) && Validates(m.Contents(), rules, id, price, quantity)
    ensures id !in m.ids
  {
    hide Inv;
    IdsAreQueued(m, {}, Buy, id);
    IdsAreQueued(m, {}, Sell, id);
  }

  lemma SameChainsNoEmpty(m: Memory, m': Memory)
    requires NoEmptyLevel(m) && m'.bids.chains == m.bids.chains && m'.asks.chains == m.asks.chains
    ensures NoEmptyLevel(m')
  {
  }

  /** Looking an id up on a side finds the order in the slot the id map names. */
  lemma LookupIs(m: Memory, side: Side, id: OrderId)
    requires Inv(m, {})
    ensures id in m.ids ==> 0 <= m.ids[id] < |m.pool|
    ensures Lookup(m.Queue(side), id) ==
            if id in m.ids && m.pool[m.ids[id]].side == side then Some(m.pool[m.ids[id]].View()) else None
  {
    hide Inv, OrdersIn, Flatten;
    IdsAreQueued(m, {}, side, id);
    LookupFinds(m.Queue(side), id);
    if id in m.ids {
      var k := SlotOf(m, {}, id);
      if m.pool[m.ids[id]].side == side {
        var pos := SlotPosition(m, id);
        QueueUnique(m, {}, side);
        QueueAt(m, side, pos);
        LookupAt(m.Queue(side), pos);
      }
    }
  }

  lemma SlotPosition(m: Memory, id: OrderId) returns (pos: nat)
    requires Inv(m, {}) && id in m.ids
    ensures 0 <= m.ids[id] < |m.pool| && m.pool[m.ids[id]].orderId == id
    ensures var side := m.pool[m.ids[id]].side;
            pos < |m.Slots(side)| && m.Slots(side)[pos] == m.ids[id]
  {
    hide LadderOk;
    pos := FindSlot(m, m.pool[m.ids[id]].side, m.ids[id]);
  }

  lemma {:induction false} LookupAt(q: seq<Order>, k: nat)
    requires Unique(q) && k < |q|
    ensures Lookup(q, q[k].id) == Some(q[k])
  {
    if k > 0 {
      assert q[0].id != q[k].id;
      LookupAt(q[1..], k - 1);
    }
  }

  lemma SetQuantityIs(m: Memory, side: Side, id: OrderId, pos: nat, n: Quantity)
    requires Inv(m, {}) && id in m.ids && 0 <= m.ids[id] < |m.pool| && m.pool[m.ids[id]].orderId == id
    requires pos < |m.Slots(side)| && m.Slots(side)[pos] == m.ids[id]
    ensures SetQuantity(m.Queue(side), id, n) == m.Queue(side)[pos := m.pool[m.ids[id]].View().(quantity := n)]
  {
    hide Inv, Flatten;
    QueueUnique(m, {}, side);
    QueueAt(m, side, pos);
    SetQuantityAt(m.Queue(side), pos, n);
  }

  ghost predicate GoodForDayId(m: Memory, id: OrderId) {
    id in m.ids && 0 <= m.ids[id] < |m.pool| && m.pool[m.ids[id]].orderType == GoodForDay
  }

  /** A resting order's id names the slot that holds it. */
  lemma RestingId(m: Memory, side: Side, k: nat)
    requires Inv(m, {}) && k < |m.Queue(side)|
    ensures var o := m.Queue(side)[k];
            o.id in m.ids && 0 <= m.ids[o.id] < |m.pool| && m.pool[m.ids[o.id]].View() == o
  {
    hide LadderOk;
    SlotsAreInBook(m, side, k);
  }

  lemma TypesAreStored(m: Memory, ids: seq<OrderId>)
    requires Inv(m, {}) && forall id :: id in ids <==> GoodForDayId(m, id)
    ensures forall o | o in m.Queue(Buy) || o in m.Queue(Sell) :: o.id in ids <==> o.orderType == GoodForDay
  {
    hide Inv, OrdersIn, Flatten;
    forall side: Side, k | 0 <= k < |m.Queue(side)|
      ensures m.Queue(side)[k].id in ids <==> m.Queue(side)[k].orderType == GoodForDay
    {
      RestingId(m, side, k);
    }
  }

  lemma EveryIdListed(m: Memory, ids: seq<OrderId>)
    requires Inv(m, {}) && IdSet(ids) == m.ids.Keys
    ensures forall o | o in m.Queue(Buy) || o in m.Queue(Sell) :: o.id in ids
  {
    hide Inv, OrdersIn, Flatten;
    forall side: Side, k | 0 <= k < |m.Queue(side)| ensures m.Queue(side)[k].id in ids {
      RestingId(m, side, k);
      assert m.Queue(side)[k].id in IdSet(ids);
    }
  }

  /** What the memory stands for is always a tidy book. */
  lemma ValidIsTidy(m: Memory)
    requires Inv(m, {})
    ensures Tidy(m.Contents())
  {
    hide Inv, OrdersIn, Flatten;
    InvSorted(m, {}, Buy);
    InvSorted(m, {}, Sell);
    QueueUnique(m, {}, Buy);
    QueueUnique(m, {}, Sell);
    forall i, j | 0 <= i < |m.Queue(Buy)| && 0 <= j < |m.Queue(Sell)|
      ensures m.Queue(Buy)[i].id != m.Queue(Sell)[j].id
    {
      IdsAreQueued(m, {}, Buy, m.Queue(Buy)[i].id);
      IdsAreQueued(m, {}, Sell, m.Queue(Buy)[i].id);
      assert m.Queue(Buy)[i] in m.Queue(Buy) && m.Queue(Sell)[j] in m.Queue(Sell);
    }
  }

  /** A level caches the depth of its price, and a price without a level has none. */
  lemma CachedDepth(m: Memory, held: set<Index>, side: Side, p: Price)
    requires Inv(m, held)
    ensures Wrap32(DepthAt(m.Queue(side), p)) ==
            if p in m.On(side).levels then m.On(side).levels[p].totalQty else 0
  {
    hide LevelOk, SlotsOk, IdsOk, LadderOk, Flatten, OrdersIn, DepthAt, Volume;
    var l := m.On(side);
    var keys := l.chains.Keys;
    SplitSubsets(side, keys, p);
    var a, c, b := Flatten(side, l.chains, Ahead(side, keys, p)), ChainAt(l, p),
                   Flatten(side, l.chains, Behind(side, keys, p));
    FlattenSplit(side, l.chains, keys, p);
    FlattenPrices(m.pool, side, l, Ahead(side, keys, p));
    FlattenPrices(m.pool, side, l, Behind(side, keys, p));
    if p in l.chains {
      LevelFacts(m.pool, side, l, p);
    }
    DepthOfParts(m.pool, side, p, a, c, b);
    InvLevel(m, held, side, p);
    if p in l.chains {
      LevelDepth(m.pool, side, p, l.levels[p], c);
    } else {
      NoVolume(m.pool);
    }
  }

  lemma NoVolume(pool: seq<PoolOrder>)
    ensures Volume(OrdersIn(pool, [])) == 0
  {
  }

  lemma LevelDepth(pool: seq<PoolOrder>, side: Side, p: Price, lvl: PriceLevel, c: seq<Index>)
    requires LevelOk(pool, side, p, lvl, c)
    ensures lvl.totalQty == Wrap32(Volume(OrdersIn(pool, c)))
  {
  }

  lemma DepthOfParts(pool: seq<PoolOrder>, side: Side, p: Price, a: seq<Index>, c: seq<Index>, b: seq<Index>)
    requires InPool(pool, a) && InPool(pool, b) && InPool(pool, c) && Labelled(pool, side, p, c)
    requires forall k | 0 <= k < |a| :: pool[a[k]].price != p
    requires forall k | 0 <= k < |b| :: pool[b[k]].price != p
    ensures DepthAt(OrdersIn(pool, a + c + b), p) == Volume(OrdersIn(pool, c))
  {
    assert OrdersIn(pool, a + c + b) == OrdersIn(pool, a) + OrdersIn(pool, c) + OrdersIn(pool, b);
    DepthConcat(OrdersIn(pool, a) + OrdersIn(pool, c), OrdersIn(pool, b), p);
    DepthConcat(OrdersIn(pool, a), OrdersIn(pool, c), p);
    DepthElsewhere(OrdersIn(pool, a), p);
    DepthElsewhere(OrdersIn(pool, b), p);
    forall k | 0 <= k < |c| ensures OrdersIn(pool, c)[k].price == p {
      SlotLabel(pool, side, p, c, k);
    }
    DepthOfLevel(OrdersIn(pool, c), p);
  }

  // ---------------------------------------------------------------- where slots are

  /** Outside an operation every slot is either free or linked. */
  lemma SlotsPartition(m: Memory, i: Index)
    requires Inv(m, {}) && 0 <= i < |m.pool|
    ensures i in m.free <==> !exists side: Side, p, k: nat :: HasSlot(m, side, p, k, i)
  {
    hide LevelOk, IdsOk;
    if i !in m.free {
      assert m.InBook(i);
      var side, p := m.pool[i].side, m.pool[i].price;
      var k :| 0 <= k < |m.On(side).chains[p]| && m.On(side).chains[p][k] == i;
      assert HasSlot(m, side, p, k, i);
    }
    forall side: Side, p, k: nat | HasSlot(m, side, p, k, i) ensures i !in m.free {
      ChainInBook(m, side, p, k);
    }
  }

  /** A linked slot stands at one position of one level of one side, the one its labels and its id name. */
  lemma OnePlace(m: Memory, i: Index, side: Side, p: Price, k: nat, side': Side, p': Price, k': nat)
    requires Inv(m, {}) && HasSlot(m, side, p, k, i) && HasSlot(m, side', p', k', i)
    ensures side == side' == m.pool[i].side && p == p' == m.pool[i].price && k == k'
    ensures m.pool[i].orderId in m.ids && m.ids[m.pool[i].orderId] == i
  {
    hide LevelOk, SlotsOk;
    LevelFacts(m.pool, side, m.On(side), p);
    LevelFacts(m.pool, side', m.On(side'), p');
    SlotLabel(m.pool, side, p, m.On(side).chains[p], k);
    SlotLabel(m.pool, side', p', m.On(side').chains[p'], k');
    ChainInBook(m, side, p, k);
  }
}
