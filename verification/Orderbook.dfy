/** The matching engine: a slot pool, its free list, two price maps and an id map, updated in place. */
module Orderbooks {
  import opened Types
  import opened Rules
  import opened PriceTimeQueue
  import opened PriceMap
  import opened SlotPool
  import opened Memory
  import opened MemoryViews
  import opened Matching
  import opened FillOrKill
  import opened Engine
  import opened Invariants
  import opened BulkCancel
  import opened Depth
  import opened Snapshot
  import opened Feed

  /** A planned fill-or-kill match: a slot and the quantity to take from it. */
  datatype FokMatch = FokMatch(idx: Index, qty: Quantity)

  function Quantities(matches: seq<FokMatch>): seq<Quantity> {
    seq(|matches|, i requires 0 <= i < |matches| => matches[i].qty)
  }

  /** The matches name the facing slots from the front, without gaps. */
  ghost predicate FromFront(matches: seq<FokMatch>, slots: seq<Index>) {
    |matches| <= |slots| && forall i | 0 <= i < |matches| :: matches[i].idx == slots[i]
  }

  /**
    The order in slot aggrIdx has made these trades out of o against the facing queue q, and the
    rest of the plan matches the facing orders that are left and covers exactly what o still wants.
   */
  ghost predicate Planned(m: Memory, aggrIdx: Index, plan: seq<FokMatch>, q: seq<Order>, o: Order, trades: seq<Trade>) {
    && 0 <= aggrIdx < |m.pool|
    && var aggr := m.pool[aggrIdx];
       && aggr.View() == o.(quantity := aggr.quantity)
       && FromFront(plan, m.Slots(aggr.side.Opposite()))
       && Quantities(plan) == Fills(aggr.side, m.Queue(aggr.side.Opposite()), o.price, aggr.quantity)
       && Sum(Quantities(plan)) == aggr.quantity
       && Executing(aggr.side, q, o, trades, m.Queue(aggr.side.Opposite()), aggr.quantity)
  }

  lemma NextFill(m: Memory, aggrIdx: Index, plan: seq<FokMatch>, q: seq<Order>, o: Order, trades: seq<Trade>)
    requires Planned(m, aggrIdx, plan, q, o, trades) && plan != []
    ensures var aggr := m.pool[aggrIdx];
            var opp := aggr.side.Opposite();
            && m.Slots(opp) != [] && m.Slots(opp)[0] == plan[0].idx && m.Queue(opp) != []
            && plan[0].qty <= aggr.quantity && plan[0].qty <= m.Queue(opp)[0].quantity
  {
  }

  lemma PlannedStep(m: Memory, m1: Memory, m': Memory, aggrIdx: Index, plan: seq<FokMatch>, q: seq<Order>, o: Order,
                    trades: seq<Trade>, t: Trade)
    requires Planned(m, aggrIdx, plan, q, o, trades) && plan != []
    requires plan[0].qty <= m.pool[aggrIdx].quantity
    requires FrontTaken(m, m1, {aggrIdx}, m.pool[aggrIdx].side.Opposite(), plan[0].qty)
    requires m'.pool == m1.pool[aggrIdx := m1.pool[aggrIdx].Fill(plan[0].qty)]
    requires m'.Queue(Buy) == m1.Queue(Buy) && m'.Queue(Sell) == m1.Queue(Sell)
    requires m'.Slots(Buy) == m1.Slots(Buy) && m'.Slots(Sell) == m1.Slots(Sell)
    requires var front := m.Queue(m.pool[aggrIdx].side.Opposite())[0];
             t == MakeTrade(m.pool[aggrIdx].side, o.id, front.id, front.price, plan[0].qty)
    ensures Planned(m', aggrIdx, plan[1..], q, o, trades + [t])
    ensures m'.pool[aggrIdx].side == m.pool[aggrIdx].side
  {
    hide Flatten, OrdersIn, Consume, Executing, Fills, Sum, FromFront;
    var aggr := m.pool[aggrIdx];
    var opp := aggr.side.Opposite();
    var ns := Quantities(plan);
    assert SameButLinks(aggr, m1.pool[aggrIdx]);
    assert ns[1..] == Quantities(plan[1..]);
    ExecutingStep(aggr.side, q, o, trades, m.Queue(opp), aggr.quantity, ns);
    FromFrontNext(plan, m.Slots(opp), m'.Slots(opp), m.Queue(opp)[0].quantity == plan[0].qty);
  }

  class Orderbook {
    const pool: array<PoolOrder>            // sized once, at construction
    var freeList: seq<Index>                // a stack; its top is its last element
    var bids: map<Price, PriceLevel>        // best bid: highest key
    var asks: map<Price, PriceLevel>        // best ask: lowest key
    var orderMap: map<OrderId, Index>
    var exchangeRules: ExchangeRules
    var lastSequenceNumber: SequenceNumber
    var isInitialized: bool

    // The slots each level's list runs through, head to tail.
    ghost var bidChains: map<Price, seq<Index>>
    ghost var askChains: map<Price, seq<Index>>

    /** The fields as one value. */
    ghost function Mem(): Memory
      reads this, pool
    {
      Memory(pool[..], freeList, orderMap, Ladder(bids, bidChains), Ladder(asks, askChains))
    }

    /** What holds between operations: no slot in an operation's hands, no empty level. */
    ghost predicate Valid()
      reads this, pool
    {
      Inv(Mem(), {}) && NoEmptyLevel(Mem())
    }

    /** The book this memory stands for. */
    ghost function Contents(): Book
      reads this, pool
    {
      Mem().Contents()
    }

    /** The state of the abstract engine this object implements. */
    ghost function State(): Exchange
      reads this, pool
    {
      Exchange(Contents(), exchangeRules, pool.Length)
    }

    function Levels(side: Side): map<Price, PriceLevel>
      reads this
    {
      if side.Buy? then bids else asks
    }

    constructor (poolSize: nat)
      requires poolSize <= 0x7fff_ffff
      ensures Valid() && fresh(pool)
      ensures State() == EmptyExchange(poolSize) && orderMap == map[] && !isInitialized
      ensures Contents() == Book([], []) && exchangeRules == RuleSet(1, 1, 1, 1000000, 0)
      ensures |freeList| == poolSize && forall k | 0 <= k < poolSize :: freeList[k] == poolSize - 1 - k
    {
      pool := new PoolOrder[poolSize](_ => BLANK);
      freeList := [];
      bids, asks, orderMap := map[], map[], map[];
      exchangeRules := DEFAULT_RULES;
      lastSequenceNumber, isInitialized := 0, false;
      bidChains, askChains := map[], map[];
      new;
      var i: Index := poolSize - 1;
      while i >= 0
        invariant -1 <= i < poolSize
        invariant |freeList| == poolSize - 1 - i
        invariant forall k | 0 <= k < |freeList| :: freeList[k] == poolSize - 1 - k
        invariant bids == map[] && asks == map[] && orderMap == map[] && bidChains == map[] && askChains == map[]
        invariant exchangeRules == DEFAULT_RULES && !isInitialized
      {
        freeList := freeList + [i];
        i := i - 1;
      }
      forall k: Index | 0 <= k < poolSize ensures k in freeList {
        assert freeList[poolSize - 1 - k] == k;
      }
    }

    // ------------------------------------------------------------- pool

    /** None stands for the exception the source throws when the pool is exhausted. */
    method Alloc() returns (r: Option<Index>)
      requires Valid()
      modifies this`freeList, pool
      ensures r.None? <==> old(freeList) == []
      ensures r.None? ==> freeList == old(freeList) && pool[..] == old(pool[..])
      ensures r.Some? ==> Inv(Mem(), {r.value}) && r.value !in freeList
      ensures Contents() == old(Contents())
      ensures r.Some? ==> 0 <= r.value < pool.Length && pool[r.value] == BLANK
      ensures r.Some? ==> freeList + [r.value] == old(freeList)
    {
      if freeList == [] {
        return None;
      }
      hide Inv;
      ghost var m := Mem();
      var idx := freeList[|freeList| - 1];
      assert m.free == freeList[..|freeList| - 1] + [idx];
      freeList := freeList[..|freeList| - 1];
      TakeKeepsInv(m, Mem(), idx, BLANK);
      pool[idx] := BLANK;
      assert pool[..] == m.pool[idx := BLANK];
      TakeKeepsInv(m, Mem(), idx, BLANK);
      r := Some(idx);
    }

    method Free(idx: Index)
      modifies this`freeList
      ensures freeList == old(freeList) + [idx]
    {
      freeList := freeList + [idx];
    }

    // ------------------------------------------------------------- intrusive lists

    /** Appends the slot idx to the tail of the level whose list is c. */
    method DllAppend(lvl: PriceLevel, idx: Index, ghost c: seq<Index>) returns (lvl': PriceLevel)
      requires 0 <= idx < pool.Length && idx !in c && |c| < 0x7fff_ffff
      requires LevelOk(pool[..], pool[idx].side, pool[idx].price, lvl, c)
      modifies pool
      ensures Relinked(old(pool[..]), pool[..], c + [idx])
      ensures LevelOk(pool[..], old(pool[idx].side), old(pool[idx].price), lvl', c + [idx])
    {
      hide LevelOk, Relinked;
      ghost var before := pool[..];
      LevelEnds(before, before[idx].side, before[idx].price, lvl, c);
      pool[idx] := pool[idx].(prev := lvl.tail, next := NULL_IDX);
      lvl' := lvl;
      if lvl.tail != NULL_IDX {
        pool[lvl.tail] := pool[lvl.tail].(next := idx);
      } else {
        lvl' := lvl'.(head := idx);
      }
      lvl' := lvl'.(tail := idx, totalQty := Wrap32(lvl'.totalQty + pool[idx].quantity),
                    orderCount := lvl'.orderCount + 1);
      assert pool[..] == Appended(before, lvl, idx);
      AppendKeepsLevel(before, before[idx].side, before[idx].price, lvl, lvl', c, idx);
    }

    /** Removes the slot at any position k of the level's list c by stitching its neighbours. */
    method DllRemove(lvl: PriceLevel, idx: Index, ghost c: seq<Index>, ghost k: nat) returns (lvl': PriceLevel)
      requires k < |c| && c[k] == idx && 0 <= idx < pool.Length
      requires LevelOk(pool[..], pool[idx].side, pool[idx].price, lvl, c)
      modifies pool
      ensures Relinked(old(pool[..]), pool[..], c)
      ensures LevelOk(pool[..], old(pool[idx].side), old(pool[idx].price), lvl', Without(c, k))
      ensures pool[idx].prev == NULL_IDX && pool[idx].next == NULL_IDX
    {
      hide LevelOk, Relinked;
      ghost var before := pool[..];
      LevelEnds(before, before[idx].side, before[idx].price, lvl, c);
      LevelNeighbours(before, before[idx].side, before[idx].price, lvl, c, k);
      lvl' := lvl;
      var o := pool[idx];
      if o.prev != NULL_IDX {
        pool[o.prev] := pool[o.prev].(next := o.next);
      } else {
        lvl' := lvl'.(head := o.next);
      }
      if o.next != NULL_IDX {
        pool[o.next] := pool[o.next].(prev := o.prev);
      } else {
        lvl' := lvl'.(tail := o.prev);
      }
      lvl' := lvl'.(totalQty := Wrap32(lvl'.totalQty - o.quantity), orderCount := lvl'.orderCount - 1);
      pool[idx] := pool[idx].(prev := NULL_IDX, next := NULL_IDX);
      assert pool[..] == Detached(before, idx);
      RemoveKeepsLevel(before, before[idx].side, before[idx].price, lvl, lvl', c, k);
    }

    // ------------------------------------------------------------- one order in, changed or out

    /** Writes a level back into its price map, as the source does through a reference. */
    method SetLevel(side: Side, p: Price, lvl: PriceLevel, ghost c: seq<Index>)
      modifies this`bids, this`asks, this`bidChains, this`askChains
      ensures Mem() == if side.Buy?
                       then old(Mem()).(bids := Ladder(old(bids)[p := lvl], old(bidChains)[p := c]))
                       else old(Mem()).(asks := Ladder(old(asks)[p := lvl], old(askChains)[p := c]))
    {
      if side.Buy? {
        bids, bidChains := bids[p := lvl], bidChains[p := c];
      } else {
        asks, askChains := asks[p := lvl], askChains[p := c];
      }
    }

    method InsertIntoBook(idx: Index)
      requires Inv(Mem(), {idx}) && NoEmptyLevel(Mem())
      requires 0 <= idx < pool.Length && pool[idx].orderId !in orderMap
      modifies this`bids, this`asks, this`bidChains, this`askChains, this`orderMap, pool
      ensures Valid()
      ensures var o := old(pool[idx]);
              Contents() == Facing(o.side, Insert(o.side, old(Mem().Queue(o.side)), o.View()),
                                   old(Mem().Queue(o.side.Opposite())))
    {
      hide Inv, NoEmptyLevel, LevelOk, Relinked, Flatten, OrdersIn, Insert;
      ghost var m := Mem();
      var side, p, id := pool[idx].side, pool[idx].price, pool[idx].orderId;
      ghost var c := ChainAt(m.On(side), p);
      BeforeLink(m, idx, side, p);
      var lvl := if p in Levels(side) then Levels(side)[p] else NEW_LEVEL;
      lvl := DllAppend(lvl, idx, c);
      SetLevel(side, p, lvl, c + [idx]);
      orderMap := orderMap[id := idx];
      LinkKeepsInv(m, Mem(), {idx}, idx, lvl);
      LinkKeepsNoEmpty(m, Mem(), idx, lvl);
      assert {idx} - {idx} == {};
    }

    /** Fills n of the order at position k of the list at p, and takes n off the level's cached depth. */
    method FillSlot(side: Side, p: Price, idx: Index, n: Quantity, ghost k: nat, ghost held: set<Index>)
      returns (ghost pos: nat)
      requires Inv(Mem(), held) && HasSlot(Mem(), side, p, k, idx) && n <= pool[idx].quantity
      modifies this`bids, this`asks, this`bidChains, this`askChains, pool
      ensures Inv(Mem(), held)
      ensures pos == Position(old(Mem()), side, p, k) && QuantityTaken(old(Mem()), Mem(), side, idx, n, pos)
      ensures bidChains == old(bidChains) && askChains == old(askChains)
    {
      hide Inv, LevelOk, Flatten, OrdersIn;
      ghost var m := Mem();
      ghost var c := m.On(side).chains[p];
      InvLevel(m, held, side, p);
      var lvl := Levels(side)[p];
      var total := Wrap32(lvl.totalQty - n);
      SetLevel(side, p, lvl.(totalQty := total), c);
      pool[idx] := pool[idx].Fill(n);
      ghost var left := m.pool[idx].quantity - n;
      assert pool[..] == m.pool[idx := m.pool[idx].(quantity := left)];
      ResizeKeepsLevel(m.pool, side, p, lvl, lvl.(totalQty := total), c, k, left);
      ResizeKeepsInv(m, Mem(), held, side, p, k, left, lvl.(totalQty := total));
      pos := Position(m, side, p, k);
      QueueAt(m, side, pos);
    }

    /** Forgets the id, unlinks the slot and frees it. The level stays, even when it is now empty. */
    method Retire(side: Side, p: Price, idx: Index, ghost k: nat, ghost held: set<Index>)
      returns (ghost pos: nat)
      requires Inv(Mem(), held) && HasSlot(Mem(), side, p, k, idx)
      modifies this`bids, this`asks, this`bidChains, this`askChains, this`orderMap, this`freeList, pool
      ensures Inv(Mem(), held)
      ensures pos == Position(old(Mem()), side, p, k) && TakenOut(old(Mem()), Mem(), side, idx, pos)
      ensures orderMap == old(orderMap) - {old(pool[idx]).orderId}
      ensures Mem().On(side).chains == old(Mem()).On(side).chains[p := Without(old(Mem()).On(side).chains[p], k)]
      ensures Mem().On(side.Opposite()) == old(Mem()).On(side.Opposite())
    {
      hide Inv, LevelOk, Relinked, Flatten, OrdersIn, Without;
      ghost var m := Mem();
      ghost var c := m.On(side).chains[p];
      InvLevel(m, held, side, p);
      orderMap := orderMap - {pool[idx].orderId};
      var lvl := DllRemove(Levels(side)[p], idx, c, k);
      SetLevel(side, p, lvl, Without(c, k));
      Free(idx);
      UnlinkKeepsInv(m, Mem(), held, side, p, k, lvl);
      RelinkedViews(m.pool, pool[..], c);
      pos := Position(m, side, p, k);
    }

    /** Erases the level at p once its list is empty. */
    method EraseIfEmpty(side: Side, p: Price, ghost held: set<Index>)
      requires Inv(Mem(), held) && p in Levels(side)
      modifies this`bids, this`asks, this`bidChains, this`askChains
      ensures Inv(Mem(), held)
      ensures Mem().Slots(side) == old(Mem().Slots(side)) && Contents() == old(Contents())
      ensures Mem().On(side.Opposite()) == old(Mem()).On(side.Opposite())
      ensures Mem().On(side) == if old(Mem()).On(side).chains[p] != [] then old(Mem()).On(side)
                                else Ladder(old(Mem()).On(side).levels - {p}, old(Mem()).On(side).chains - {p})
    {
      hide Inv, Flatten, OrdersIn;
      ghost var m := Mem();
      InvLevel(m, held, side, p);
      if Levels(side)[p].Empty() {
        if side.Buy? {
          bids, bidChains := bids - {p}, bidChains - {p};
        } else {
          asks, askChains := asks - {p}, askChains - {p};
        }
        EraseKeepsInv(m, Mem(), held, side, p);
      }
    }

    /** Takes n from the best level's head: fill it, and retire it when that empties it. */
    method ConsumeHead(side: Side, p: Price, n: Quantity, ghost held: set<Index>)
      requires Inv(Mem(), held) && p in Levels(side) && IsBest(side, Levels(side).Keys, p)
      requires 0 <= Levels(side)[p].head < pool.Length && n <= pool[Levels(side)[p].head].quantity
      modifies this`bids, this`asks, this`bidChains, this`askChains, this`orderMap, this`freeList, pool
      ensures Inv(Mem(), held) && FrontConsumed(old(Mem()), Mem(), held, side, p, n)
    {
      hide Inv, Flatten, OrdersIn, Consume, Without;
      ghost var m := Mem();
      BestHead(m, held, side, p);
      var idx := Levels(side)[p].head;
      ghost var pos := FillSlot(side, p, idx, n, 0, held);
      if pool[idx].IsFilled() {
        ghost var m1 := Mem();
        pos := Retire(side, p, idx, 0, held);
        FullyConsumed(m, m1, Mem(), held, side, p, idx, n);
      } else {
        PartlyConsumed(m, Mem(), held, side, p, idx, n);
      }
    }

    // ------------------------------------------------------------- queries used by AddOrder

    /** Some order faces this side at a price it may trade at. */
    method CanMatch(side: Side, price: Price) returns (r: bool)
      requires Valid()
      ensures r == Engine.CanMatch(Contents(), side, price)
    {
      hide Inv, NoEmptyLevel, Flatten, OrdersIn, IsBest;
      EmptySides(Mem());
      FirstPrices(Mem(), side.Opposite());
      var facing := Levels(side.Opposite());
      r := facing != map[] && Crosses(side, price, Best(side.Opposite(), facing.Keys));
    }

    method ValidateOrder(id: OrderId, price: Price, quantity: Quantity) returns (r: bool)
      requires Valid()
      ensures r == Validates(Contents(), exchangeRules, id, price, quantity)
    {
      hide Inv, NoEmptyLevel, Flatten, OrdersIn;
      IdsAreQueued(Mem(), {}, Buy, id);
      IdsAreQueued(Mem(), {}, Sell, id);
      r := id !in orderMap && exchangeRules.Admits(price, quantity);
    }

    // ------------------------------------------------------------- fill or kill

    /** Phase one on one level: walk its list from the head while something remains to be covered. */
    method CollectLevel(side: Side, aggrPrice: Price, p: Price, wanted: Quantity, ghost base: nat,
                        ghost held: set<Index>)
      returns (matches: seq<FokMatch>, remaining: Quantity)
      requires Inv(Mem(), held) && p in Levels(side.Opposite()) && Crosses(side, aggrPrice, p)
      requires p in Mem().On(side.Opposite()).chains
      requires StandsAt(Mem(), side.Opposite(), p, base)
      ensures |matches| <= |Mem().On(side.Opposite()).chains[p]|
      ensures remaining > 0 ==> |matches| == |Mem().On(side.Opposite()).chains[p]|
      ensures FromFront(matches, Mem().Slots(side.Opposite())[base..])
      ensures var q := Mem().Queue(side.Opposite());
              Fills(side, q[base..], aggrPrice, wanted) ==
              Quantities(matches) + Fills(side, q[base + |matches|..], aggrPrice, remaining)
    {
      hide Inv, LevelOk, Flatten, OrdersIn, Fills;
      ghost var m := Mem();
      ghost var c := m.On(side.Opposite()).chains[p];
      ghost var q := m.Queue(side.Opposite());
      InvLevel(m, held, side.Opposite(), p);
      matches, remaining := [], wanted;
      var cur := Levels(side.Opposite())[p].head;
      assert Quantities([]) == [];
      while cur != NULL_IDX && remaining > 0
        invariant |matches| <= |c| && cur == At(c, |matches|)
        invariant FromFront(matches, m.Slots(side.Opposite())[base..])
        invariant Fills(side, q[base..], aggrPrice, wanted) ==
                  Quantities(matches) + Fills(side, q[base + |matches|..], aggrPrice, remaining)
        decreases |c| - |matches|
      {
        ghost var k := |matches|;
        StandsInChain(m, held, side.Opposite(), p, base, k);
        var n := Min(remaining, pool[cur].quantity);
        FillsStep(side, q, base + k, aggrPrice, remaining);
        assert Quantities(matches + [FokMatch(cur, n)]) == Quantities(matches) + [n];
        matches := matches + [FokMatch(cur, n)];
        remaining := remaining - n;
        cur := pool[cur].next;
      }
    }

    /** Phase one: plan which facing orders to take, best price first, without touching the book. */
    method CollectFOK(side: Side, aggrPrice: Price, wanted: Quantity, ghost held: set<Index>)
      returns (matches: seq<FokMatch>)
      requires Inv(Mem(), held) && NoEmptyLevel(Mem())
      ensures FromFront(matches, Mem().Slots(side.Opposite()))
      ensures Quantities(matches) == Fills(side, Mem().Queue(side.Opposite()), aggrPrice, wanted)
    {
      hide Inv, NoEmptyLevel, OrdersIn, Fills, Flatten;
      ghost var m := Mem();
      var opp := side.Opposite();
      ghost var q, slots := m.Queue(opp), m.Slots(opp);
      var keys, remaining := Levels(opp).Keys, wanted;
      matches := [];
      assert Quantities([]) == [] && q[0..] == q && slots[0..] == slots;
      InvLevel(m, held, opp, 0);
      while keys != {}
        invariant keys <= m.On(opp).chains.Keys
        invariant FromFront(matches, slots) && slots[|matches|..] == Flatten(opp, m.On(opp).chains, keys)
        invariant Fills(side, q, aggrPrice, wanted) ==
                  Quantities(matches) + Fills(side, q[|matches|..], aggrPrice, remaining)
        decreases keys
      {
        var p := Best(opp, keys);
        ghost var base := |matches|;
        NextLevel(m, held, opp, keys, base);
        if !Crosses(side, aggrPrice, p) {
          FillsStop(side, q[base..], aggrPrice, remaining);
          break;
        }
        var ms, left := CollectLevel(side, aggrPrice, p, remaining, base, held);
        assert Quantities(matches + ms) == Quantities(matches) + Quantities(ms);
        FromFrontJoin(matches, ms, slots);
        assert slots[base + |ms|..] == slots[base..][|ms|..];
        matches, remaining := matches + ms, left;
        if remaining == 0 {
          FillsStop(side, q[|matches|..], aggrPrice, 0);
          break;
        }
        keys := keys - {p};
      }
      CollectStops(m, opp, keys, |matches|, side, aggrPrice, remaining);
    }

    /** Takes n from the first order of a side, erasing its level when that empties it. */
    method TakeFront(side: Side, idx: Index, n: Quantity, ghost held: set<Index>)
      requires Inv(Mem(), held) && NoEmptyLevel(Mem())
      requires Mem().Slots(side) != [] && Mem().Slots(side)[0] == idx
      requires 0 <= idx < pool.Length && n <= pool[idx].quantity
      modifies this`bids, this`asks, this`bidChains, this`askChains, this`orderMap, this`freeList, pool
      ensures Inv(Mem(), held) && NoEmptyLevel(Mem()) && FrontTaken(old(Mem()), Mem(), held, side, n)
    {
      hide Inv, NoEmptyLevel, Flatten, OrdersIn, Consume;
      ghost var m := Mem();
      FirstIsHead(m, held, side);
      var p := pool[idx].price;
      ConsumeHead(side, p, n, held);
      ghost var m1 := Mem();
      InvLevel(m1, held, side, p);
      EraseIfEmpty(side, p, held);
      NoEmptyAfter(m, m1, Mem(), side, p);
    }

    /** Phase two, one planned match: the maker is the first order of its side when its turn comes. */
    method FillMatch(aggrIdx: Index, fill: FokMatch, ghost plan: seq<FokMatch>, ghost q: seq<Order>, ghost o: Order,
                     ghost trades: seq<Trade>)
      returns (t: Trade)
      requires Inv(Mem(), {aggrIdx}) && NoEmptyLevel(Mem())
      requires Planned(Mem(), aggrIdx, plan, q, o, trades) && plan != [] && plan[0] == fill
      modifies this`bids, this`asks, this`bidChains, this`askChains, this`orderMap, this`freeList, pool
      ensures Inv(Mem(), {aggrIdx}) && NoEmptyLevel(Mem())
      ensures Planned(Mem(), aggrIdx, plan[1..], q, o, trades + [t])
      ensures pool[aggrIdx].side == old(pool[aggrIdx].side)
      ensures Mem().Queue(pool[aggrIdx].side) == old(Mem().Queue(pool[aggrIdx].side))
    {
      hide Inv, NoEmptyLevel, Flatten, OrdersIn, Consume, Executing, Fills, Sum, FromFront, SameButLinks;
      ghost var m := Mem();
      var aggr := pool[aggrIdx];
      var opp := aggr.side.Opposite();
      NextFill(m, aggrIdx, plan, q, o, trades);
      FirstIsHead(m, {aggrIdx}, opp);
      t := MakeTrade(aggr.side, aggr.orderId, pool[fill.idx].orderId, pool[fill.idx].price, fill.qty);
      TakeFront(opp, fill.idx, fill.qty, {aggrIdx});
      ghost var m1 := Mem();
      WriteKeepsInv(m1, m1, aggrIdx, m1.pool[aggrIdx]);
      pool[aggrIdx] := pool[aggrIdx].Fill(fill.qty);
      assert pool[..] == m1.pool[aggrIdx := m1.pool[aggrIdx].Fill(fill.qty)];
      WriteKeepsInv(m1, Mem(), aggrIdx, m1.pool[aggrIdx].Fill(fill.qty));
      ReturnKeepsNoEmpty(m1, Mem());
      PlannedStep(m, m1, Mem(), aggrIdx, plan, q, o, trades, t);
    }

    /** Phase two: fill the planned matches one by one; the order's own slot goes back to the pool. */
    method ExecuteFOK(aggrIdx: Index, matches: seq<FokMatch>) returns (trades: seq<Trade>)
      requires Inv(Mem(), {aggrIdx}) && NoEmptyLevel(Mem()) && 0 <= aggrIdx < pool.Length
      requires var o := pool[aggrIdx];
               && FromFront(matches, Mem().Slots(o.side.Opposite()))
               && Quantities(matches) == Fills(o.side, Mem().Queue(o.side.Opposite()), o.price, o.quantity)
               && Sum(Quantities(matches)) == o.quantity
      modifies this`bids, this`asks, this`bidChains, this`askChains, this`orderMap, this`freeList, pool
      ensures Valid()
      ensures var o := old(pool[aggrIdx]);
              && Executing(o.side, old(Mem().Queue(o.side.Opposite())), o.View(), trades,
                           Mem().Queue(o.side.Opposite()), 0)
              && Mem().Queue(o.side) == old(Mem().Queue(o.side))
    {
      hide Inv, NoEmptyLevel, Flatten, OrdersIn, Fills, Executing;
      trades := [];
      ghost var o := pool[aggrIdx].View();
      ghost var side := pool[aggrIdx].side;
      ghost var q, own := Mem().Queue(side.Opposite()), Mem().Queue(side);
      ExecutingStart(side, q, o);
      assert matches[0..] == matches;
      for i := 0 to |matches|
        invariant Inv(Mem(), {aggrIdx}) && NoEmptyLevel(Mem())
        invariant Planned(Mem(), aggrIdx, matches[i..], q, o, trades)
        invariant pool[aggrIdx].side == side && Mem().Queue(side) == own
      {
        var t := FillMatch(aggrIdx, matches[i], matches[i..], q, o, trades);
        trades := trades + [t];
        assert matches[i..][1..] == matches[i + 1..];
      }
      assert Quantities(matches[|matches|..]) == [];
      ghost var m := Mem();
      Free(aggrIdx);
      ReturnKeepsInv(m, Mem(), aggrIdx);
      ReturnKeepsNoEmpty(m, Mem());
    }

    // ------------------------------------------------------------- cancel

    method CancelOrder(id: OrderId)
      requires Valid()
      modifies this`bids, this`asks, this`bidChains, this`askChains, this`orderMap, this`freeList, pool
      ensures Valid()
      ensures Contents() == Cancel(old(Contents()), id)
      ensures orderMap == old(orderMap) - {id}
    {
      hide Inv, NoEmptyLevel, Flatten, OrdersIn, Without;
      ghost var m := Mem();
      if id !in orderMap {
        CancelUnknown(m, id);
        assert orderMap - {id} == orderMap;
        return;
      }
      var idx := orderMap[id];
      ghost var k := SlotOf(m, {}, id);
      var side, p := pool[idx].side, pool[idx].price;
      ghost var pos := Retire(side, p, idx, k, {});
      CancelKnown(m, id, side, pos);
      ghost var m1 := Mem();
      InvLevel(m1, {}, side, p);
      EraseIfEmpty(side, p, {});
      NoEmptyAfter(m, m1, Mem(), side, p);
    }

    // ------------------------------------------------------------- matching

    /** One round of the inner loop: the two heads trade what they share. */
    method TradeHeads(bidPrice: Price, askPrice: Price, tradePrice: Price) returns (t: Trade)
      requires Inv(Mem(), {}) && AtTop(Mem(), bidPrice, askPrice)
      requires bids[bidPrice].head != NULL_IDX && asks[askPrice].head != NULL_IDX
      modifies this`bids, this`asks, this`bidChains, this`askChains, this`orderMap, this`freeList, pool
      ensures Inv(Mem(), {}) && AtTop(Mem(), bidPrice, askPrice)
      ensures HeadsTraded(old(Mem()), Mem(), bidPrice, askPrice, t.quantity)
      ensures old(Contents()).bids[0].price == bidPrice && old(Contents()).asks[0].price == askPrice
      ensures t == Trade(old(Contents()).bids[0].id, old(Contents()).asks[0].id, tradePrice, t.quantity)
    {
      hide Inv, Flatten, OrdersIn, Consume, IsBest;
      ghost var m := Mem();
      TopHeads(m, bidPrice, askPrice);
      var bid, ask := pool[bids[bidPrice].head], pool[asks[askPrice].head];
      var qty := Min(bid.quantity, ask.quantity);
      t := Trade(bid.orderId, ask.orderId, tradePrice, qty);
      ConsumeHead(Buy, bidPrice, qty, {});
      ghost var m1 := Mem();
      BestHead(m1, {}, Sell, askPrice);
      ConsumeHead(Sell, askPrice, qty, {});
      HeadsTradedBy(m, m1, Mem(), bidPrice, askPrice, qty);
      TopAgain(m, Mem(), bidPrice, askPrice);
    }

    /** The inner loop: the heads of the two best levels trade until one of the lists is empty. */
    method MatchLevels(ghost aggressor: Side, bidPrice: Price, askPrice: Price, tradePrice: Price)
      returns (trades: seq<Trade>)
      requires Inv(Mem(), {}) && AtTop(Mem(), bidPrice, askPrice)
      requires Tradeable(bidPrice, askPrice) && tradePrice == TradePrice(aggressor, bidPrice, askPrice)
      modifies this`bids, this`asks, this`bidChains, this`askChains, this`orderMap, this`freeList, pool
      ensures Inv(Mem(), {}) && TopsChanged(old(Mem()), Mem(), bidPrice, askPrice)
      ensures Continues(old(Contents()), aggressor, trades, Contents())
      ensures bidChains[bidPrice] == [] || askChains[askPrice] == []
    {
      hide Inv, Flatten, OrdersIn, Consume, Match, IsBest;
      trades := [];
      ghost var start := Mem();
      ContinuesSelf(start.Contents(), aggressor);
      while bids[bidPrice].head != NULL_IDX && asks[askPrice].head != NULL_IDX
        invariant Inv(Mem(), {}) && AtTop(Mem(), bidPrice, askPrice)
        invariant TopsChanged(start, Mem(), bidPrice, askPrice)
        invariant Continues(start.Contents(), aggressor, trades, Contents())
        decreases |bidChains[bidPrice]| + |askChains[askPrice]|
      {
        ghost var m := Mem();
        var t := TradeHeads(bidPrice, askPrice, tradePrice);
        ContinuesStep(start.Contents(), aggressor, trades, m.Contents(), t.quantity, tradePrice);
        trades := trades + [t];
        TopsChain(start, m, Mem(), bidPrice, askPrice);
      }
    }

    /** The price of a round: the resting side's, but never a leftover market order's. */
    method PriceRound(aggressorSide: Side, bidPrice: Price, askPrice: Price) returns (tradePrice: Price)
      ensures tradePrice == TradePrice(aggressorSide, bidPrice, askPrice)
    {
      if bidPrice == PRICE_MAX {
        tradePrice := askPrice;
      } else if askPrice == PRICE_MIN {
        tradePrice := bidPrice;
      } else if aggressorSide.Buy? {
        tradePrice := askPrice;
      } else {
        tradePrice := bidPrice;
      }
    }

    /** Trades out the two best levels and erases those that emptied; at least one does. */
    method MatchBestLevels(aggressorSide: Side, bidPrice: Price, askPrice: Price) returns (trades: seq<Trade>)
      requires Valid() && AtTop(Mem(), bidPrice, askPrice) && Tradeable(bidPrice, askPrice)
      modifies this`bids, this`asks, this`bidChains, this`askChains, this`orderMap, this`freeList, pool
      ensures Valid() && Continues(old(Contents()), aggressorSide, trades, Contents())
      ensures |bids| + |asks| < |old(bids)| + |old(asks)|
    {
      hide Inv, NoEmptyLevel, Flatten, OrdersIn, Match, IsBest;
      ghost var m := Mem();
      var tradePrice := PriceRound(aggressorSide, bidPrice, askPrice);
      trades := MatchLevels(aggressorSide, bidPrice, askPrice, tradePrice);
      ghost var m1 := Mem();
      SameKeysSameSize(m.bids.levels, bids);
      SameKeysSameSize(m.asks.levels, asks);
      EraseIfEmpty(Buy, bidPrice, {});
      EraseIfEmpty(Sell, askPrice, {});
      FewerKeys(m1.bids.levels, bidPrice);
      FewerKeys(m1.asks.levels, askPrice);
      NoEmptyAfterBoth(m, m1, Mem(), bidPrice, askPrice);
    }

    /** Best bid against best ask until they no longer cross; then the unfilled remainder of an IOC order goes. */
    method MatchOrders(aggressorSide: Side, iocId: Option<OrderId>) returns (trades: seq<Trade>)
      requires Valid()
      modifies this`bids, this`asks, this`bidChains, this`askChains, this`orderMap, this`freeList, pool
      ensures Valid()
      ensures trades == Match(old(Contents()), aggressorSide).trades
      ensures var b := Match(old(Contents()), aggressorSide).book;
              Contents() == if iocId.Some? then Cancel(b, iocId.value) else b
    {
      hide Inv, NoEmptyLevel, Flatten, OrdersIn, Match, IsBest;
      trades := [];
      ghost var start := Contents();
      ContinuesSelf(start, aggressorSide);
      while bids != map[] && asks != map[]
        invariant Valid()
        invariant Continues(start, aggressorSide, trades, Contents())
        decreases |bids| + |asks|
      {
        var bidPrice, askPrice := Best(Buy, bids.Keys), Best(Sell, asks.Keys);
        if bidPrice < askPrice {
          break;
        }
        if bidPrice == PRICE_MAX && askPrice == PRICE_MIN {
          break;
        }
        TopNow(Mem(), bidPrice, askPrice);
        ghost var c := Contents();
        var ts := MatchBestLevels(aggressorSide, bidPrice, askPrice);
        ContinuesChain(start, c, Contents(), aggressorSide, trades, ts);
        trades := trades + ts;
      }
      SettledNow(Mem());
      MatchStops(Contents(), aggressorSide);
      if iocId.Some? {
        CancelOrder(iocId.value);
      }
    }

    // ------------------------------------------------------------- add

    /** The quantity the plan takes; it cannot wrap, because the plan never overshoots the order. */
    method TotalPlanned(matches: seq<FokMatch>) returns (total: Quantity)
      requires Sum(Quantities(matches)) < 0x1_0000_0000
      ensures total == Sum(Quantities(matches))
    {
      total := 0;
      assert Quantities(matches[..0]) == [];
      for i := 0 to |matches|
        invariant total == Sum(Quantities(matches[..i]))
      {
        assert Quantities(matches[..i + 1]) == Quantities(matches[..i]) + [matches[i].qty];
        assert Quantities(matches) == Quantities(matches[..i + 1]) + Quantities(matches[i + 1..]);
        SumJoin(Quantities(matches[..i]), [matches[i].qty]);
        SumJoin(Quantities(matches[..i + 1]), Quantities(matches[i + 1..]));
        total := Wrap32(total + matches[i].qty);
      }
      assert matches[..|matches|] == matches;
    }

    /** Fill-or-kill with the order in a slot of its own: plan, compare, then execute or return the slot. */
    method SubmitFOK(idx: Index) returns (trades: seq<Trade>)
      requires Inv(Mem(), {idx}) && NoEmptyLevel(Mem()) && 0 <= idx < pool.Length
      modifies this`bids, this`asks, this`bidChains, this`askChains, this`orderMap, this`freeList, pool
      ensures Valid()
      ensures Outcome(Contents(), trades) ==
              FillOrKillIncoming(old(Contents()), old(pool[idx]).side, old(pool[idx]).View())
    {
      hide Inv, NoEmptyLevel, Flatten, OrdersIn, Fills, Sum, DepthWithin, Sweep;
      ghost var m := Mem();
      var o := pool[idx];
      ghost var q := m.Queue(o.side.Opposite());
      var matches := CollectFOK(o.side, o.price, o.quantity, {idx});
      InvSorted(m, {idx}, o.side.Opposite());
      FillsCover(o.side, q, o.price, o.quantity);
      var total := TotalPlanned(matches);
      if total < o.quantity {
        Free(idx);
        ReturnKeepsInv(m, Mem(), idx);
        ReturnKeepsNoEmpty(m, Mem());
        return [];
      }
      trades := ExecuteFOK(idx, matches);
      assert Contents() == Facing(o.side, Mem().Queue(o.side), Mem().Queue(o.side.Opposite()));
    }

    /** Every order type; PoolExhausted is the only failure, and it changes nothing. */
    method AddOrder(orderType: OrderType, id: OrderId, side: Side, price: Price, quantity: Quantity)
      returns (r: AddResult)
      requires Valid()
      modifies this`bids, this`asks, this`bidChains, this`askChains, this`orderMap, this`freeList, pool
      ensures Valid()
      ensures Added(Contents(), r) == Engine.AddOrder(old(State()), orderType, id, side, price, quantity)
      ensures r.PoolExhausted? ==> Mem() == old(Mem())
    {
      hide Inv, NoEmptyLevel, Flatten, OrdersIn, FillOrKillIncoming, MatchIncoming, Validates, Engine.CanMatch;
      EmptySides(Mem());
      if orderType.Market? {
        if side.Buy? && asks != map[] {
          r := AddPricedOrder(GoodTillCancel, id, side, PRICE_MAX, quantity);
        } else if side.Sell? && bids != map[] {
          r := AddPricedOrder(GoodTillCancel, id, side, PRICE_MIN, quantity);
        } else {
          r := Ok([]);
        }
      } else {
        r := AddPricedOrder(orderType, id, side, price, quantity);
      }
    }

    /** The rest of AddOrder, once a market order has become a limit order. */
    method AddPricedOrder(orderType: OrderType, id: OrderId, side: Side, price: Price, quantity: Quantity)
      returns (r: AddResult)
      requires Valid() && !orderType.Market?
      modifies this`bids, this`asks, this`bidChains, this`askChains, this`orderMap, this`freeList, pool
      ensures Valid()
      ensures Added(Contents(), r) == AddPriced(old(State()), orderType, id, side, price, quantity)
      ensures r.PoolExhausted? ==> Mem() == old(Mem())
    {
      hide Inv, NoEmptyLevel, Flatten, OrdersIn, FillOrKillIncoming, MatchIncoming, Validates, Engine.CanMatch;
      var valid := ValidateOrder(id, price, quantity);
      if !valid {
        return Ok([]);
      }
      if orderType.ImmediateOrCancel? {
        var matchable := CanMatch(side, price);
        if !matchable {
          return Ok([]);
        }
      }
      FreeSlots(Mem());
      IdIsFresh(Mem(), exchangeRules, id, price, quantity);
      var slot := Alloc();
      if slot.None? {
        return PoolExhausted;
      }
      var idx := slot.value;
      ghost var m := Mem();
      pool[idx] := pool[idx].(orderId := id, side := side, price := price, orderType := orderType,
                              quantity := quantity);
      assert pool[..] == m.pool[idx := pool[idx]];
      WriteKeepsInv(m, Mem(), idx, pool[idx]);
      ReturnKeepsNoEmpty(old(Mem()), Mem());
      var trades;
      if orderType.FillOrKill? {
        trades := SubmitFOK(idx);
      } else {
        trades := SubmitToBook(idx);
      }
      r := Ok(trades);
    }

    /** Insert and match; an IOC order's remainder is cancelled. */
    method SubmitToBook(idx: Index) returns (trades: seq<Trade>)
      requires Inv(Mem(), {idx}) && NoEmptyLevel(Mem()) && 0 <= idx < pool.Length
      requires pool[idx].orderId !in orderMap
      modifies this`bids, this`asks, this`bidChains, this`askChains, this`orderMap, this`freeList, pool
      ensures Valid()
      ensures var o := old(pool[idx]);
              var incoming := MatchIncoming(old(Contents()), o.side, o.View());
              && trades == incoming.trades
              && Contents() == if o.orderType.ImmediateOrCancel? then Cancel(incoming.book, o.orderId)
                               else incoming.book
    {
      hide Inv, NoEmptyLevel, Flatten, OrdersIn, Match, Insert;
      var o := pool[idx];
      InsertIntoBook(idx);
      trades := MatchOrders(o.side, if o.orderType.ImmediateOrCancel? then Some(o.orderId) else None);
    }

    // ------------------------------------------------------------- modify

    /** Gives the order at position k of the list at p a new quantity, and the level its new depth. */
    method Requantify(side: Side, p: Price, idx: Index, n: Quantity, ghost k: nat)
      returns (ghost pos: nat)
      requires Valid() && HasSlot(Mem(), side, p, k, idx)
      modifies this`bids, this`asks, this`bidChains, this`askChains, pool
      ensures Valid()
      ensures pos < |old(Mem()).Slots(side)| && old(Mem()).Slots(side)[pos] == idx
      ensures Mem().Queue(side) == old(Mem()).Queue(side)[pos := old(pool[idx]).View().(quantity := n)]
      ensures Mem().Queue(side.Opposite()) == old(Mem()).Queue(side.Opposite())
    {
      hide Inv, NoEmptyLevel, LevelOk, Flatten, OrdersIn;
      ghost var m := Mem();
      ghost var c := m.On(side).chains[p];
      InvLevel(m, {}, side, p);
      var lvl := Levels(side)[p];
      var total := Wrap32(lvl.totalQty - pool[idx].quantity);
      WrapAdd(lvl.totalQty - pool[idx].quantity, n);
      total := Wrap32(total + n);
      SetLevel(side, p, lvl.(totalQty := total), c);
      pool[idx] := pool[idx].(quantity := n);
      assert pool[..] == m.pool[idx := m.pool[idx].(quantity := n)];
      ResizeKeepsLevel(m.pool, side, p, lvl, lvl.(totalQty := total), c, k, n);
      ResizeKeepsInv(m, Mem(), {}, side, p, k, n, lvl.(totalQty := total));
      pos := Position(m, side, p, k);
      QueueAt(m, side, pos);
      SameChainsNoEmpty(m, Mem());
    }

    /** Same price: new quantity in place. New price: cancel, then add again. Never runs out of slots. */
    method ModifyOrder(mod: OrderModify) returns (r: AddResult)
      requires Valid()
      modifies this`bids, this`asks, this`bidChains, this`askChains, this`orderMap, this`freeList, pool
      ensures Valid()
      ensures Added(Contents(), r) == Engine.ModifyOrder(old(State()), mod)
      ensures r.Ok?
    {
      hide Inv, NoEmptyLevel, Flatten, OrdersIn, Engine.AddOrder, Cancel, SetQuantity, Lookup;
      ghost var m := Mem();
      LookupIs(m, mod.side, mod.orderId);
      FreeSlots(m);
      ModifyNeverExhausts(State(), mod);
      if mod.orderId !in orderMap {
        return Ok([]);
      }
      ghost var k := SlotOf(m, {}, mod.orderId);
      var idx := orderMap[mod.orderId];
      var existing := pool[idx];
      if mod.side != existing.side {
        return Ok([]);
      }
      if mod.price == existing.price {
        ghost var pos := Requantify(mod.side, mod.price, idx, mod.quantity, k);
        SetQuantityIs(m, mod.side, mod.orderId, pos, mod.quantity);
        assert Contents() == Facing(mod.side, Mem().Queue(mod.side), Mem().Queue(mod.side.Opposite()));
        return Ok([]);
      }
      CancelOrder(mod.orderId);
      r := AddOrder(existing.orderType, mod.orderId, existing.side, mod.price, mod.quantity);
    }

    // ------------------------------------------------------------- bulk cancels

    /** The ids of the id map, in whatever order its iteration gives them. */
    method ListIds() returns (ids: seq<OrderId>)
      ensures IdSet(ids) == orderMap.Keys
    {
      ids := [];
      var left := orderMap.Keys;
      while left != {}
        invariant left <= orderMap.Keys && IdSet(ids) == orderMap.Keys - left
        decreases left
      {
        var id :| id in left;
        assert IdSet(ids + [id]) == IdSet(ids) + {id};
        ids, left := ids + [id], left - {id};
      }
    }

    method CancelListed(ids: seq<OrderId>)
      requires Valid()
      modifies this`bids, this`asks, this`bidChains, this`askChains, this`orderMap, this`freeList, pool
      ensures Valid()
      ensures Contents() == CancelAll(old(Contents()), ids)
      ensures orderMap == old(orderMap) - IdSet(ids)
    {
      hide Inv, NoEmptyLevel, Flatten, OrdersIn, Cancel;
      for i := 0 to |ids|
        invariant Valid()
        invariant Contents() == CancelAll(old(Contents()), ids[..i])
        invariant orderMap == old(orderMap) - IdSet(ids[..i])
      {
        assert ids[..i + 1] == ids[..i] + [ids[i]];
        CancelAllLast(old(Contents()), ids[..i], ids[i]);
        CancelOrder(ids[i]);
      }
      assert ids[..|ids|] == ids;
    }

    /** The ids whose stored order type is good-for-day, in whatever order the id map gives them. */
    method ListGoodForDay() returns (toCancel: seq<OrderId>)
      requires Valid()
      ensures forall id :: id in toCancel <==> GoodForDayId(Mem(), id)
    {
      hide Inv, NoEmptyLevel, Flatten, OrdersIn;
      var ids := ListIds();
      toCancel := [];
      for i := 0 to |ids|
        invariant forall id :: id in toCancel <==> id in ids[..i] && GoodForDayId(Mem(), id)
      {
        assert ids[i] in IdSet(ids);
        ghost var k := SlotOf(Mem(), {}, ids[i]);
        if pool[orderMap[ids[i]]].orderType == GoodForDay {
          toCancel := toCancel + [ids[i]];
        }
        assert ids[..i + 1] == ids[..i] + [ids[i]];
      }
      assert ids[..|ids|] == ids;
      forall id ensures id in ids <==> id in orderMap {
        assert id in IdSet(ids) <==> id in ids;
      }
    }

    method CancelGoodForDayOrders()
      requires Valid()
      modifies this`bids, this`asks, this`bidChains, this`askChains, this`orderMap, this`freeList, pool
      ensures Valid()
      ensures Contents() == Engine.CancelGoodForDayOrders(old(Contents()))
    {
      hide Inv, NoEmptyLevel, Flatten, OrdersIn, CancelAll, WithoutGoodForDay;
      var toCancel := ListGoodForDay();
      TypesAreStored(Mem(), toCancel);
      ValidIsTidy(Mem());
      GoodForDaySweep(Contents(), toCancel);
      CancelListed(toCancel);
    }

    // ------------------------------------------------------------- snapshots

    /** One good-till-cancel order per non-zero level; a level that cannot be added is skipped. */
    method AddLevels(side: Side, levels: seq<SnapshotLevel>, firstId: OrderId) returns (syntheticId: OrderId)
      requires Valid()
      modifies this`bids, this`asks, this`bidChains, this`askChains, this`orderMap, this`freeList, pool
      ensures Valid()
      ensures State() == Run(old(State()), LevelOps(side, levels, firstId)).exchange
      ensures syntheticId == IdAfter(levels, firstId)
    {
      hide Inv, NoEmptyLevel, Flatten, OrdersIn, Engine.AddOrder;
      syntheticId := firstId;
      assert levels[0..] == levels;
      for i := 0 to |levels|
        invariant Valid()
        invariant Run(State(), LevelOps(side, levels[i..], syntheticId)).exchange ==
                  Run(old(State()), LevelOps(side, levels, firstId)).exchange
        invariant IdAfter(levels[i..], syntheticId) == IdAfter(levels, firstId)
      {
        assert levels[i..][1..] == levels[i + 1..];
        if levels[i].quantity != 0 {
          ghost var op := Add(GoodTillCancel, syntheticId, side, levels[i].price, levels[i].quantity);
          RunStep(State(), op, LevelOps(side, levels[i + 1..], NextId(syntheticId)));
          var _ := AddOrder(GoodTillCancel, syntheticId, side, levels[i].price, levels[i].quantity);
          syntheticId := NextId(syntheticId);
        }
      }
    }

    /** The first phase of a snapshot: every live order is cancelled. */
    method ClearBook()
      requires Valid()
      modifies this`bids, this`asks, this`bidChains, this`askChains, this`orderMap, this`freeList, pool
      ensures Valid()
      ensures Contents() == Book([], []) && Size() == 0 && PoolFreeSlots() == PoolCapacity()
    {
      hide Inv, NoEmptyLevel, Flatten, OrdersIn, CancelAll;
      var ids := ListIds();
      EveryIdListed(Mem(), ids);
      ValidIsTidy(Mem());
      ClearSweep(Contents(), ids);
      CancelListed(ids);
      FreeSlots(Mem());
    }

    /** Replaces the whole book by the snapshot's levels. */
    method ProcessSnapshot(msg: BookSnapshotMessage)
      requires Valid()
      modifies this`bids, this`asks, this`bidChains, this`askChains, this`orderMap, this`freeList, pool
      modifies this`isInitialized, this`lastSequenceNumber
      ensures Valid()
      ensures State() == Run(old(State()), SnapshotOps(msg)).exchange
      ensures isInitialized && lastSequenceNumber == msg.sequenceNumber
      ensures Restorable(old(State()), msg) ==> Rebuilt(old(State()), msg, Contents())
      ensures |msg.bids| + |msg.asks| < 0x7fff_ffff_ffff_ffff ==>
                forall id: OrderId | id < 0x8000_0000_0000_0000 :: !Contents().Has(id)
    {
      hide Inv, NoEmptyLevel, Flatten, OrdersIn, LevelOps, IdAfter, Run, Restorable, Rebuilt, SnapshotOps;
      ghost var start := State();
      ClearBook();
      assert State() == Step(start, Clear).exchange;
      var syntheticId := AddLevels(Buy, msg.bids, FIRST_SYNTHETIC_ID);
      var _ := AddLevels(Sell, msg.asks, syntheticId);
      SnapshotRun(start, msg);
      if Restorable(start, msg) {
        SnapshotDepth(start, msg);
      }
      if |msg.bids| + |msg.asks| < 0x7fff_ffff_ffff_ffff {
        SnapshotIds(start, msg);
      }
      isInitialized := true;
      lastSequenceNumber := msg.sequenceNumber;
    }

    // ------------------------------------------------------------- messages

    /** One public call: the engine takes the step of the abstract machine, and reports its trades. */
    method Apply(op: Op) returns (trades: seq<Trade>)
      requires Valid()
      modifies this`bids, this`asks, this`bidChains, this`askChains, this`orderMap, this`freeList, pool
      modifies this`exchangeRules
      ensures Valid()
      ensures Stepped(State(), trades) == Step(old(State()), op)
    {
      hide Inv, NoEmptyLevel, Flatten, OrdersIn, Engine.AddOrder, Engine.ModifyOrder, Engine.CancelGoodForDayOrders,
           Cancel;
      trades := [];
      match op
      case Add(orderType, id, side, price, quantity) =>
        var r := AddOrder(orderType, id, side, price, quantity);
        trades := if r.Ok? then r.trades else [];
      case CancelOne(id) =>
        CancelOrder(id);
      case Modify(m) =>
        var r := ModifyOrder(m);
        trades := r.trades;
      case CancelGoodForDay =>
        CancelGoodForDayOrders();
      case Clear =>
        ClearBook();
      case SetRules(rules) =>
        SetExchangeRules(rules);
    }

    /** A sequence of public calls: the engine's run is the abstract machine's run. */
    method ApplyAll(ops: seq<Op>) returns (trades: seq<Trade>)
      requires Valid()
      modifies this`bids, this`asks, this`bidChains, this`askChains, this`orderMap, this`freeList, pool
      modifies this`exchangeRules
      ensures Valid()
      ensures Stepped(State(), trades) == Run(old(State()), ops)
    {
      hide Inv, NoEmptyLevel, Flatten, OrdersIn, Step;
      trades := [];
      ghost var start := State();
      assert ops[0..] == ops;
      for i := 0 to |ops|
        invariant Valid()
        invariant Run(start, ops) == Stepped(Run(State(), ops[i..]).exchange, trades + Run(State(), ops[i..]).trades)
      {
        assert ops[i..][0] == ops[i] && ops[i..][1..] == ops[i + 1..];
        var ts := Apply(ops[i]);
        assert trades + (ts + Run(State(), ops[i + 1..]).trades) == (trades + ts) + Run(State(), ops[i + 1..]).trades;
        trades := trades + ts;
      }
    }

    /** One feed message, a snapshot included. No message fails: an exhausted pool is caught on the way. */
    method ProcessMarketData(msg: MarketDataMessage) returns (ok: bool)
      requires Valid()
      modifies this`bids, this`asks, this`bidChains, this`askChains, this`orderMap, this`freeList, pool
      modifies this`isInitialized, this`lastSequenceNumber
      ensures Valid() && ok
      ensures State() == Run(old(State()), MessageOps(msg)).exchange
      ensures Handles(old(State()), msg, State())
      ensures if msg.BookSnapshot? then isInitialized && lastSequenceNumber == msg.snapshot.sequenceNumber
              else isInitialized == old(isInitialized) && lastSequenceNumber == old(lastSequenceNumber)
    {
      hide Inv, NoEmptyLevel, Flatten, OrdersIn, Engine.AddOrder, Engine.ModifyOrder, Cancel, SnapshotOps;
      ok := true;
      MessageIsHandled(State(), msg);
      match msg
      case NewOrder(orderType, id, side, price, quantity) =>
        RunOne(State(), Add(orderType, id, side, price, quantity));
        var _ := AddOrder(orderType, id, side, price, quantity);
      case CancelRequest(id) =>
        RunOne(State(), CancelOne(id));
        CancelOrder(id);
      case ModifyRequest(m) =>
        RunOne(State(), Modify(m));
        var _ := ModifyOrder(m);
      case TradeReport =>
        RunNone(State());
      case BookSnapshot(snapshot) =>
        ProcessSnapshot(snapshot);
    }

    /** A batch of feed messages: the engine's run is the run of everything they stand for. */
    method ProcessMarketDataBatch(msgs: seq<MarketDataMessage>) returns (processed: nat)
      requires Valid()
      modifies this`bids, this`asks, this`bidChains, this`askChains, this`orderMap, this`freeList, pool
      modifies this`isInitialized, this`lastSequenceNumber
      ensures Valid() && processed == |msgs|
      ensures State() == Run(old(State()), BatchOps(msgs)).exchange
      ensures HandlesAll(old(State()), msgs, State())
    {
      hide Inv, NoEmptyLevel, Flatten, OrdersIn, MessageOps, Run, Handles, HandlesAll;
      HandlesNone(State());
      processed := 0;
      assert msgs[0..] == msgs;
      for i := 0 to |msgs|
        invariant Valid() && processed == i
        invariant Run(State(), BatchOps(msgs[i..])).exchange == Run(old(State()), BatchOps(msgs)).exchange
        invariant HandlesAll(old(State()), msgs[..i], State())
      {
        ghost var before := State();
        assert msgs[..i + 1] == msgs[..i] + [msgs[i]];
        assert msgs[i..][0] == msgs[i] && msgs[i..][1..] == msgs[i + 1..];
        RunConcat(State(), MessageOps(msgs[i]), BatchOps(msgs[i + 1..]));
        var ok := ProcessMarketData(msgs[i]);
        HandlesMore(old(State()), msgs[..i], before, msgs[i], State());
        if ok {
          processed := processed + 1;
        }
      }
      assert msgs[..|msgs|] == msgs;
      RunNone(State());
    }

    // ------------------------------------------------------------- queries

    /** The cached depths, best price first, without walking a single order. */
    method SideInfos(side: Side) returns (infos: seq<LevelInfo>)
      requires Valid()
      ensures IsDepthOf(side, Mem().Queue(side), infos)
    {
      hide Inv, NoEmptyLevel, Flatten, OrdersIn, DepthAt, IsDepthOf;
      ghost var m := Mem();
      InvLevel(m, {}, side, 0);
      var lvls := Levels(side);
      var keys := lvls.Keys;
      infos := [];
      while keys != {}
        invariant keys <= lvls.Keys && ListedSoFar(side, lvls, keys, infos)
        decreases keys
      {
        var p := Best(side, keys);
        var info := LevelInfo(p, lvls[p].totalQty);
        ListOneMore(side, lvls, keys, infos);
        if info.quantity > 0 {
          infos := infos + [info];
        }
        keys := keys - {p};
      }
      ListedIsDepth(m, side, infos);
    }

    method GetOrderInfos() returns (infos: LevelInfos)
      requires Valid()
      ensures IsDepthOf(Buy, Contents().bids, infos.bids) && IsDepthOf(Sell, Contents().asks, infos.asks)
    {
      var bidInfos := SideInfos(Buy);
      var askInfos := SideInfos(Sell);
      infos := LevelInfos(bidInfos, askInfos);
    }

    method SetExchangeRules(rules: ExchangeRules)
      requires Valid()
      modifies this`exchangeRules
      ensures Valid() && State() == Step(old(State()), SetRules(rules)).exchange
      ensures exchangeRules == rules && Contents() == old(Contents())
    {
      exchangeRules := rules;
    }

    method HasOrder(id: OrderId) returns (r: bool)
      requires Valid()
      ensures r == Contents().Has(id)
    {
      IdsAreQueued(Mem(), {}, Buy, id);
      IdsAreQueued(Mem(), {}, Sell, id);
      r := id in orderMap;
    }

    function Size(): nat
      reads this
    {
      |orderMap|
    }

    function PoolCapacity(): nat {
      pool.Length
    }

    function PoolFreeSlots(): nat
      reads this
    {
      |freeList|
    }

    /** No slot leaks: the slots not free are exactly the resting orders, and those are the id map's. */
    function PoolUsed(): (used: nat)
      requires Valid()
      reads this, pool
      ensures used == Size() == Contents().Count()
    {
      FreeSlots(Mem());
      PoolCapacity() - PoolFreeSlots()
    }
  }

  lemma {:induction false} SumJoin(ms: seq<Quantity>, ns: seq<Quantity>)
    ensures Sum(ms + ns) == Sum(ms) + Sum(ns)
  {
    if ms == [] {
      assert ms + ns == ns;
    } else {
      SumJoin(ms[1..], ns);
      assert (ms + ns)[1..] == ms[1..] + ns;
    }
  }

  lemma FromFrontJoin(ms: seq<FokMatch>, ns: seq<FokMatch>, slots: seq<Index>)
    requires FromFront(ms, slots) && FromFront(ns, slots[|ms|..])
    ensures FromFront(ms + ns, slots)
  {
  }

  lemma CollectStops(m: Memory, opp: Side, keys: set<Price>, k: nat, side: Side, price: Price, remaining: Quantity)
    requires keys <= m.On(opp).chains.Keys && k <= |m.Slots(opp)|
    requires keys == {} ==> m.Slots(opp)[k..] == Flatten(opp, m.On(opp).chains, keys)
    ensures keys == {} ==> Fills(side, m.Queue(opp)[k..], price, remaining) == []
  {
  }

  lemma ReturnKeepsNoEmpty(m: Memory, m': Memory)
    requires NoEmptyLevel(m) && m'.bids == m.bids && m'.asks == m.asks
    ensures NoEmptyLevel(m')
  {
  }

  /** A planned match that leaves its maker partly filled is the last one. */
  lemma FromFrontNext(plan: seq<FokMatch>, slots: seq<Index>, slots': seq<Index>, gone: bool)
    requires plan != [] && FromFront(plan, slots)
    requires slots' == if gone then slots[1..] else slots
    requires !gone ==> |plan| == 1
    ensures FromFront(plan[1..], slots')
  {
  }

  // ---------------------------------------------------------------- facts about the listing of levels

  /** Levels not under `keys` have been listed: their non-zero cached depths, best first, all ahead of `keys`. */
  ghost predicate ListedSoFar(side: Side, lvls: map<Price, PriceLevel>, keys: set<Price>, infos: seq<LevelInfo>) {
    && Descending(side, infos)
    && (forall i | 0 <= i < |infos| ::
          && infos[i].price in lvls && infos[i].price !in keys
          && infos[i].quantity == lvls[infos[i].price].totalQty > 0)
    && (forall p | p in lvls && p !in keys && lvls[p].totalQty > 0 ::
          exists i :: 0 <= i < |infos| && infos[i].price == p)
    && (forall p, q | p in lvls && p !in keys && q in keys :: Better(side, p, q))
  }

  lemma ListOneMore(side: Side, lvls: map<Price, PriceLevel>, keys: set<Price>, infos: seq<LevelInfo>)
    requires keys != {} && keys <= lvls.Keys && ListedSoFar(side, lvls, keys, infos)
    ensures var p := Best(side, keys);
            var info := LevelInfo(p, lvls[p].totalQty);
            ListedSoFar(side, lvls, keys - {p}, if info.quantity > 0 then infos + [info] else infos)
  {
    var p := Best(side, keys);
    var info := LevelInfo(p, lvls[p].totalQty);
    var infos' := if info.quantity > 0 then infos + [info] else infos;
    forall q | q in lvls && q !in keys - {p} && lvls[q].totalQty > 0
      ensures exists i :: 0 <= i < |infos'| && infos'[i].price == q
    {
      if q == p {
        assert infos'[|infos|].price == q;
      } else {
        var i :| 0 <= i < |infos| && infos[i].price == q;
        assert infos'[i].price == q;
      }
    }
  }

  lemma ListedIsDepth(m: Memory, side: Side, infos: seq<LevelInfo>)
    requires Inv(m, {}) && ListedSoFar(side, m.On(side).levels, {}, infos)
    ensures IsDepthOf(side, m.Queue(side), infos)
  {
    hide Inv, OrdersIn, Flatten, DepthAt, Better;
    forall p: Price
      ensures Wrap32(DepthAt(m.Queue(side), p)) ==
              if p in m.On(side).levels then m.On(side).levels[p].totalQty else 0
    {
      CachedDepth(m, {}, side, p);
    }
  }
}
