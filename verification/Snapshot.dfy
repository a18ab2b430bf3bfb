/** Rebuilding the book from a snapshot, and reading it back. */
module Snapshot {
  import opened Types
  import opened Rules
  import opened PriceTimeQueue
  import opened Matching
  import opened Engine
  import opened Invariants
  import opened Depth

  /** The total a list of levels gives at a price. */
  function ListedAt(levels: seq<SnapshotLevel>, price: Price): nat {
    if levels == [] then 0
    else (if levels[0].price == price then levels[0].quantity else 0) + ListedAt(levels[1..], price)
  }

  /** The levels that become orders: those that are not empty and pass the rules, while there is room. */
  function Taken(rules: ExchangeRules, levels: seq<SnapshotLevel>, room: nat): (r: seq<SnapshotLevel>)
    ensures |r| <= room
  {
    if levels == [] || room == 0 then []
    else if levels[0].quantity == 0 || !rules.Admits(levels[0].price, levels[0].quantity) then
      Taken(rules, levels[1..], room)
    else [levels[0]] + Taken(rules, levels[1..], room - 1)
  }

  /** How many levels are not empty. */
  function Live(levels: seq<SnapshotLevel>): nat {
    if levels == [] then 0 else (if levels[0].quantity > 0 then 1 else 0) + Live(levels[1..])
  }

  /** With room for all of them and nothing to refuse, every level that is not empty is taken. */
  lemma {:induction false} AllTaken(rules: ExchangeRules, levels: seq<SnapshotLevel>, room: nat, price: Price)
    requires Live(levels) <= room
    requires forall i | 0 <= i < |levels| && levels[i].quantity > 0 ::
               rules.Admits(levels[i].price, levels[i].quantity)
    ensures var taken := Taken(rules, levels, room);
            |taken| == Live(levels) && ListedAt(taken, price) == ListedAt(levels, price)
  {
    hide RuleSet.Admits;
    if levels == [] {
    } else if room == 0 {
      NoneLive(levels, price);
    } else if levels[0].quantity == 0 {
      AllTaken(rules, levels[1..], room, price);
    } else {
      AllTaken(rules, levels[1..], room - 1, price);
      var rest := Taken(rules, levels[1..], room - 1);
      assert ([levels[0]] + rest)[1..] == rest;
    }
  }

  lemma {:induction false} NoneLive(levels: seq<SnapshotLevel>, price: Price)
    requires Live(levels) == 0
    ensures ListedAt(levels, price) == 0
  {
    if levels != [] {
      NoneLive(levels[1..], price);
    }
  }

  function Room(e: Exchange): nat {
    if e.book.Count() < e.capacity then e.capacity - e.book.Count() else 0
  }

  /** Every id in use lies in the synthetic range, below the next one. */
  ghost predicate IdsBelow(b: Book, next: OrderId) {
    forall o | o in b.bids || o in b.asks :: FIRST_SYNTHETIC_ID <= o.id < next
  }

  lemma {:induction false} InsertDepth(side: Side, q: seq<Order>, o: Order, price: Price)
    ensures DepthAt(Insert(side, q, o), price) == DepthAt(q, price) + if o.price == price then o.quantity else 0
  {
    if q != [] && !Better(side, o.price, q[0].price) {
      InsertDepth(side, q[1..], o, price);
    }
  }

  /** The facing queue is out of reach of every level. */
  ghost predicate OutOfReach(side: Side, levels: seq<SnapshotLevel>, facing: seq<Order>) {
    forall i, o | 0 <= i < |levels| && o in facing :: !Crosses(side, levels[i].price, o.price)
  }

  /** One level joins its side as one resting order. */
  lemma LevelRests(e: Exchange, side: Side, level: SnapshotLevel, id: OrderId)
    requires Sound(e) && Uncrossed(e.book) && IdsBelow(e.book, id) && id < 0xffff_ffff_ffff_ffff
    requires e.rules.Admits(level.price, level.quantity) && e.book.Count() < e.capacity
    requires forall o | o in e.book.Queue(side.Opposite()) :: !Crosses(side, level.price, o.price)
    ensures var o := Order(id, level.price, GoodTillCancel, level.quantity);
            Step(e, Add(GoodTillCancel, id, side, level.price, level.quantity)).exchange ==
            e.(book := Facing(side, Insert(side, e.book.Queue(side), o), e.book.Queue(side.Opposite())))
  {
    var o := Order(id, level.price, GoodTillCancel, level.quantity);
    var own, q := e.book.Queue(side), e.book.Queue(side.Opposite());
    FacingQueues(e.book, side);
    assert !e.book.Has(id);
    if q != [] {
      assert q[0] in q;
    }
    SettledInsert(side, own, q, o);
    AddRests(e, GoodTillCancel, id, side, level.price, level.quantity);
  }

  lemma StaysUncrossed(b: Book, side: Side, o: Order)
    requires Uncrossed(b)
    requires forall p | p in b.Queue(side.Opposite()) :: !Crosses(side, o.price, p.price)
    ensures Uncrossed(Facing(side, Insert(side, b.Queue(side), o), b.Queue(side.Opposite())))
  {
  }

  /** A side's remaining levels can all be added without trading. */
  ghost predicate Ready(e: Exchange, side: Side, levels: seq<SnapshotLevel>, id: OrderId) {
    && Sound(e) && Uncrossed(e.book) && IdsBelow(e.book, id) && FIRST_SYNTHETIC_ID <= id
    && id + |levels| < 0xffff_ffff_ffff_ffff
    && OutOfReach(side, Taken(e.rules, levels, Room(e)), e.book.Queue(side.Opposite()))
  }

  /** Having added them, nothing traded, and every quantity taken rests at its price. */
  ghost predicate Rested(e: Exchange, r: Exchange, side: Side, taken: seq<SnapshotLevel>) {
    && r == e.(book := r.book)
    && r.book.Queue(side.Opposite()) == e.book.Queue(side.Opposite())
    && r.book.Count() == e.book.Count() + |taken|
    && (forall p :: DepthAt(r.book.Queue(side), p) == DepthAt(e.book.Queue(side), p) + ListedAt(taken, p))
    && (forall o | o in r.book.Queue(side) :: o in e.book.Queue(side) || ListsPrice(taken, o.price))
  }

  ghost predicate ListsPrice(levels: seq<SnapshotLevel>, price: Price) {
    exists i :: 0 <= i < |levels| && levels[i].price == price
  }

  lemma ListsPriceMore(levels: seq<SnapshotLevel>, price: Price)
    requires levels != [] && ListsPrice(levels[1..], price)
    ensures ListsPrice(levels, price)
  {
  }

  /** The level becomes an order. */
  predicate Joins(e: Exchange, level: SnapshotLevel) {
    level.quantity > 0 && e.rules.Admits(level.price, level.quantity) && Room(e) > 0
  }

  lemma TakenJoins(e: Exchange, levels: seq<SnapshotLevel>)
    requires levels != []
    ensures Taken(e.rules, levels, Room(e)) ==
            if Joins(e, levels[0]) then [levels[0]] + Taken(e.rules, levels[1..], Room(e) - 1)
            else Taken(e.rules, levels[1..], Room(e))
  {
  }

  /** An empty level is passed over, and one that cannot be added costs only its id. */
  lemma SkipLevel(e: Exchange, side: Side, levels: seq<SnapshotLevel>, id: OrderId)
    requires Ready(e, side, levels, id) && levels != [] && !Joins(e, levels[0])
    ensures Ready(e, side, levels[1..], id) && Ready(e, side, levels[1..], id + 1) && NextId(id) == id + 1
    ensures levels[0].quantity > 0 ==>
              Step(e, Add(GoodTillCancel, id, side, levels[0].price, levels[0].quantity)).exchange == e
  {
    TakenJoins(e, levels);
  }

  lemma AddLevel(e: Exchange, side: Side, levels: seq<SnapshotLevel>, id: OrderId)
    requires Ready(e, side, levels, id) && levels != [] && Joins(e, levels[0])
    ensures var o := Order(id, levels[0].price, GoodTillCancel, levels[0].quantity);
            var e1 := Step(e, Add(GoodTillCancel, id, side, levels[0].price, levels[0].quantity)).exchange;
            && Ready(e1, side, levels[1..], id + 1) && NextId(id) == id + 1 && Room(e1) == Room(e) - 1
            && e1 == e.(book := Facing(side, Insert(side, e.book.Queue(side), o), e.book.Queue(side.Opposite())))
            && e1.book.Count() == e.book.Count() + 1
            && (forall p :: p in e1.book.Queue(side) <==> p in e.book.Queue(side) || p == o)
  {
    hide Taken, Insert, Step, Sorted, Unique, Disjoint, Lasting, RuleSet.Admits;
    var op := Add(GoodTillCancel, id, side, levels[0].price, levels[0].quantity);
    var o := Order(id, levels[0].price, GoodTillCancel, levels[0].quantity);
    TakenJoins(e, levels);
    var taken := Taken(e.rules, levels, Room(e));
    assert taken[0] == levels[0] && taken[1..] == Taken(e.rules, levels[1..], Room(e) - 1);
    LevelRests(e, side, levels[0], id);
    StepKeepsSound(e, op);
    assert !e.book.Has(id);
    InsertKeeps(side, e.book.Queue(side), o);
    StaysUncrossed(e.book, side, o);
  }

  lemma RestedMore(e: Exchange, e1: Exchange, r: Exchange, side: Side, taken: seq<SnapshotLevel>, o: Order)
    requires taken != [] && o.price == taken[0].price && o.quantity == taken[0].quantity
    requires e1 == e.(book := Facing(side, Insert(side, e.book.Queue(side), o), e.book.Queue(side.Opposite())))
    requires e1.book.Count() == e.book.Count() + 1
    requires forall p :: p in e1.book.Queue(side) <==> p in e.book.Queue(side) || p == o
    requires Rested(e1, r, side, taken[1..])
    ensures Rested(e, r, side, taken)
  {
    hide Insert, ListsPrice;
    forall p ensures DepthAt(r.book.Queue(side), p) == DepthAt(e.book.Queue(side), p) + ListedAt(taken, p) {
      InsertDepth(side, e.book.Queue(side), o, p);
    }
    forall x | x in r.book.Queue(side) ensures x in e.book.Queue(side) || ListsPrice(taken, x.price) {
      FirstListed(taken);
      if ListsPrice(taken[1..], x.price) {
        ListsPriceMore(taken, x.price);
      }
    }
  }

  lemma FirstListed(levels: seq<SnapshotLevel>)
    requires levels != []
    ensures ListsPrice(levels, levels[0].price)
  {
  }

  /** The k-th level becomes an order: it is not empty, it passes, and the levels before it left room. */
  ghost predicate JoinsAt(rules: ExchangeRules, levels: seq<SnapshotLevel>, room: nat, k: nat)
    requires k < |levels|
  {
    && levels[k].quantity > 0 && rules.Admits(levels[k].price, levels[k].quantity)
    && |Taken(rules, levels[..k], room)| < room
  }

  /** The order stands for one of the levels; every non-empty level before it has used up one id from the first. */
  ghost predicate StandsFor(rules: ExchangeRules, levels: seq<SnapshotLevel>, room: nat, first: nat, o: Order) {
    exists k: nat :: k < |levels| && JoinsAt(rules, levels, room, k)
      && o.id == first + Live(levels[..k]) && o.orderType == GoodTillCancel
      && o.price == levels[k].price && o.quantity == levels[k].quantity
  }

  /** One more level in front. */
  lemma StandsForStep(rules: ExchangeRules, levels: seq<SnapshotLevel>, room: nat, first: nat, o: Order)
    requires levels != []
    ensures var live := levels[0].quantity > 0;
            var joins := live && rules.Admits(levels[0].price, levels[0].quantity) && room > 0;
            var room', first' := if joins then room - 1 else room, if live then first + 1 else first;
            StandsFor(rules, levels, room, first, o)
            <==> || StandsFor(rules, levels[1..], room', first', o)
                 || (joins && o.id == first && o.orderType == GoodTillCancel
                     && o.price == levels[0].price && o.quantity == levels[0].quantity)
  {
    hide RuleSet.Admits;
    var live := levels[0].quantity > 0;
    var joins := live && rules.Admits(levels[0].price, levels[0].quantity) && room > 0;
    var room', first' := if joins then room - 1 else room, if live then first + 1 else first;
    var r := levels[1..];
    forall k: nat | k < |r|
      ensures JoinsAt(rules, levels, room, k + 1) <==> JoinsAt(rules, r, room', k)
      ensures first + Live(levels[..k + 1]) == first' + Live(r[..k]) && levels[k + 1] == r[k]
    {
      assert levels[..k + 1][1..] == r[..k];
    }
    assert levels[..0] == [] && |Taken(rules, levels[..0], room)| == 0 && Live(levels[..0]) == 0;
    assert JoinsAt(rules, levels, room, 0) <==> joins;
    hide JoinsAt, Live;
    if StandsFor(rules, levels, room, first, o) {
      var k: nat :| k < |levels| && JoinsAt(rules, levels, room, k)
        && o.id == first + Live(levels[..k]) && o.orderType == GoodTillCancel
        && o.price == levels[k].price && o.quantity == levels[k].quantity;
      if k > 0 {
        assert r[k - 1] == levels[k] && JoinsAt(rules, r, room', k - 1);
      }
    }
  }

  /** The side's new orders are those that stand for a level. */
  ghost predicate Stands(e: Exchange, r: Exchange, side: Side, levels: seq<SnapshotLevel>, id: OrderId) {
    forall o :: o in r.book.Queue(side) <==> o in e.book.Queue(side) || StandsFor(e.rules, levels, Room(e), id, o)
  }

  lemma StandsSkip(e: Exchange, r: Exchange, side: Side, levels: seq<SnapshotLevel>, id: OrderId, next: OrderId)
    requires levels != [] && !Joins(e, levels[0]) && next == if levels[0].quantity > 0 then id + 1 else id
    requires Stands(e, r, side, levels[1..], next)
    ensures Stands(e, r, side, levels, id)
  {
    hide StandsFor;
    forall o ensures o in r.book.Queue(side)
                     <==> o in e.book.Queue(side) || StandsFor(e.rules, levels, Room(e), id, o)
    {
      StandsForStep(e.rules, levels, Room(e), id, o);
    }
  }

  lemma StandsMore(e: Exchange, e1: Exchange, r: Exchange, side: Side, levels: seq<SnapshotLevel>, id: OrderId)
    requires levels != [] && Joins(e, levels[0]) && id < 0xffff_ffff_ffff_ffff
    requires e1.rules == e.rules && Room(e1) == Room(e) - 1
    requires forall p :: p in e1.book.Queue(side) <==>
                         p in e.book.Queue(side) || p == Order(id, levels[0].price, GoodTillCancel, levels[0].quantity)
    requires Stands(e1, r, side, levels[1..], id + 1)
    ensures Stands(e, r, side, levels, id)
  {
    hide StandsFor;
    forall o ensures o in r.book.Queue(side)
                     <==> o in e.book.Queue(side) || StandsFor(e.rules, levels, Room(e), id, o)
    {
      StandsForStep(e.rules, levels, Room(e), id, o);
    }
  }

  lemma {:induction false} LevelsRest(e: Exchange, side: Side, levels: seq<SnapshotLevel>, id: OrderId)
    requires Ready(e, side, levels, id)
    ensures var r := Run(e, LevelOps(side, levels, id)).exchange;
            && Rested(e, r, side, Taken(e.rules, levels, Room(e))) && Stands(e, r, side, levels, id)
            && Ready(r, side, [], IdAfter(levels, id)) && IdAfter(levels, id) == id + Live(levels) <= id + |levels|
    decreases |levels|
  {
    hide Ready, Rested, Stands, Step, Taken, Room, Joins;
    if levels == [] {
      RestedNothing(e, side);
    } else {
      TakenJoins(e, levels);
      var r := Run(e, LevelOps(side, levels, id)).exchange;
      var op := Add(GoodTillCancel, id, side, levels[0].price, levels[0].quantity);
      if !Joins(e, levels[0]) {
        SkipLevel(e, side, levels, id);
        if levels[0].quantity == 0 {
          LevelsRest(e, side, levels[1..], id);
          StandsSkip(e, r, side, levels, id, id);
        } else {
          RunStep(e, op, LevelOps(side, levels[1..], id + 1));
          LevelsRest(e, side, levels[1..], id + 1);
          StandsSkip(e, r, side, levels, id, id + 1);
        }
      } else {
        AddLevel(e, side, levels, id);
        JoinsIsLive(e, levels[0]);
        var e1 := Step(e, op).exchange;
        var taken := Taken(e.rules, levels, Room(e));
        assert taken[1..] == Taken(e1.rules, levels[1..], Room(e1));
        RunStep(e, op, LevelOps(side, levels[1..], id + 1));
        LevelsRest(e1, side, levels[1..], id + 1);
        RestedMore(e, e1, r, side, taken, Order(id, levels[0].price, GoodTillCancel, levels[0].quantity));
        StandsMore(e, e1, r, side, levels, id);
      }
    }
  }

  lemma JoinsIsLive(e: Exchange, level: SnapshotLevel)
    requires Joins(e, level)
    ensures level.quantity > 0 && Room(e) > 0
  {
  }

  lemma RestedNothing(e: Exchange, side: Side)
    ensures Rested(e, e, side, Taken(e.rules, [], Room(e)))
    ensures forall id :: Stands(e, e, side, [], id)
  {
  }

  function TakenBids(e: Exchange, msg: BookSnapshotMessage): seq<SnapshotLevel> {
    Taken(e.rules, msg.bids, e.capacity)
  }

  /** The asks have the room that the bids left. */
  function TakenAsks(e: Exchange, msg: BookSnapshotMessage): seq<SnapshotLevel> {
    Taken(e.rules, msg.asks, e.capacity - |TakenBids(e, msg)|)
  }

  /** The levels that become orders do not cross, and the synthetic ids do not run out. */
  ghost predicate Restorable(e: Exchange, msg: BookSnapshotMessage) {
    && (forall i, j | 0 <= i < |TakenBids(e, msg)| && 0 <= j < |TakenAsks(e, msg)| ::
          TakenBids(e, msg)[i].price < TakenAsks(e, msg)[j].price)
    && |msg.bids| + |msg.asks| < 0x7fff_ffff_ffff_ffff
  }

  /**
    The book holds one order for each level taken, and no others: good-till-cancel, at the level's price
    and for its quantity, under 2^63 plus the number of non-empty levels before it, bids before asks.
   */
  ghost predicate Rebuilt(e: Exchange, msg: BookSnapshotMessage, b: Book) {
    && |b.bids| == |TakenBids(e, msg)| && |b.asks| == |TakenAsks(e, msg)|
    && (forall o :: o in b.bids <==> StandsFor(e.rules, msg.bids, e.capacity, 0x8000_0000_0000_0000, o))
    && (forall o :: o in b.asks <==> StandsFor(e.rules, msg.asks, e.capacity - |TakenBids(e, msg)|,
                                               0x8000_0000_0000_0000 + Live(msg.bids), o))
  }

  /** After the snapshot, the book is the one it lists, order by order, and so is each side's depth at every price. */
  lemma SnapshotDepth(e: Exchange, msg: BookSnapshotMessage)
    requires Restorable(e, msg)
    ensures var b := Run(e, SnapshotOps(msg)).exchange.book;
            && Uncrossed(b) && Tidy(b) && Rebuilt(e, msg, b)
            && (forall p :: DepthAt(b.bids, p) == ListedAt(TakenBids(e, msg), p))
            && (forall p :: DepthAt(b.asks, p) == ListedAt(TakenAsks(e, msg), p))
  {
    hide Ready, Rested, Stands, StandsFor, Rebuilt, Restorable, LevelOps, Run, Step, Taken;
    var e0 := e.(book := Book([], []));
    var nextId := IdAfter(msg.bids, FIRST_SYNTHETIC_ID);
    SnapshotRun(e, msg);
    assert Step(e, Clear).exchange == e0 by {
      ClearEmpties(e);
    }
    BidsReady(e, msg);
    LevelsRest(e0, Buy, msg.bids, FIRST_SYNTHETIC_ID);
    var e1 := Run(e0, LevelOps(Buy, msg.bids, FIRST_SYNTHETIC_ID)).exchange;
    AsksReady(e, e1, msg, nextId);
    LevelsRest(e1, Sell, msg.asks, nextId);
    var e2 := Run(e1, LevelOps(Sell, msg.asks, nextId)).exchange;
    BothRested(e, e1, e2, msg, IdAfter(msg.asks, nextId));
    BothStand(e, e1, e2, msg);
  }

  lemma BothStand(e: Exchange, e1: Exchange, e2: Exchange, msg: BookSnapshotMessage)
    requires Restorable(e, msg)
    requires Rested(e.(book := Book([], [])), e1, Buy, TakenBids(e, msg))
    requires Rested(e1, e2, Sell, TakenAsks(e, msg))
    requires Stands(e.(book := Book([], [])), e1, Buy, msg.bids, FIRST_SYNTHETIC_ID)
    requires FIRST_SYNTHETIC_ID + Live(msg.bids) < 0x1_0000_0000_0000_0000
    requires Stands(e1, e2, Sell, msg.asks, FIRST_SYNTHETIC_ID + Live(msg.bids))
    ensures Rebuilt(e, msg, e2.book)
  {
    hide StandsFor, Taken, ListedAt, ListsPrice;
    assert e2.book.Queue(Sell) == e2.book.asks && e2.book.Queue(Buy) == e2.book.bids;
    assert e1.book.Queue(Sell) == e1.book.asks == [] && e1.book.Queue(Buy) == e1.book.bids == e2.book.bids;
    assert Room(e1) == e.capacity - |TakenBids(e, msg)|;
    assert Room(e.(book := Book([], []))) == e.capacity;
  }

  lemma ClearEmpties(e: Exchange)
    ensures Step(e, Clear).exchange == e.(book := Book([], []))
  {
  }

  lemma BothRested(e: Exchange, e1: Exchange, e2: Exchange, msg: BookSnapshotMessage, id: OrderId)
    requires Rested(e.(book := Book([], [])), e1, Buy, TakenBids(e, msg))
    requires Rested(e1, e2, Sell, TakenAsks(e, msg))
    requires Ready(e2, Sell, [], id)
    ensures Uncrossed(e2.book) && Tidy(e2.book)
    ensures forall p :: DepthAt(e2.book.bids, p) == ListedAt(TakenBids(e, msg), p)
    ensures forall p :: DepthAt(e2.book.asks, p) == ListedAt(TakenAsks(e, msg), p)
  {
    hide ListedAt, ListsPrice, Taken;
    assert e2.book.Queue(Sell) == e2.book.asks && e2.book.bids == e1.book.bids == e1.book.Queue(Buy);
  }

  lemma BidsReady(e: Exchange, msg: BookSnapshotMessage)
    requires Restorable(e, msg)
    ensures Ready(e.(book := Book([], [])), Buy, msg.bids, FIRST_SYNTHETIC_ID)
    ensures Taken(e.rules, msg.bids, Room(e.(book := Book([], [])))) == TakenBids(e, msg)
  {
  }

  lemma AsksReady(e: Exchange, e1: Exchange, msg: BookSnapshotMessage, id: OrderId)
    requires Restorable(e, msg) && Ready(e1, Buy, [], id) && id <= FIRST_SYNTHETIC_ID + |msg.bids|
    requires Rested(e.(book := Book([], [])), e1, Buy, TakenBids(e, msg))
    ensures Ready(e1, Sell, msg.asks, id)
    ensures Taken(e1.rules, msg.asks, Room(e1)) == TakenAsks(e, msg)
  {
    hide Taken, RuleSet.Admits;
    assert e1.book.Queue(Buy) == e1.book.bids;
    assert Room(e1) == e.capacity - |TakenBids(e, msg)|;
    var bids, asks := TakenBids(e, msg), TakenAsks(e, msg);
    forall j, o | 0 <= j < |asks| && o in e1.book.bids ensures !Crosses(Sell, asks[j].price, o.price) {
      assert ListsPrice(bids, o.price);
      var i :| 0 <= i < |bids| && bids[i].price == o.price;
    }
  }

  // ---------------------------------------------------------------- any snapshot

  /** Only good-till-cancel orders, under ids from 2^63 up to the next one. */
  ghost predicate Synthetic(b: Book, next: OrderId) {
    forall o | o in b.bids || o in b.asks ::
      o.orderType == GoodTillCancel && 0x8000_0000_0000_0000 <= o.id < next
  }

  lemma AddStaysSynthetic(e: Exchange, side: Side, level: SnapshotLevel, id: OrderId)
    requires Sound(e) && Synthetic(e.book, id) && 0x8000_0000_0000_0000 <= id < 0xffff_ffff_ffff_ffff
    ensures Synthetic(AddOrder(e, GoodTillCancel, id, side, level.price, level.quantity).book, id + 1)
  {
    var o := Order(id, level.price, GoodTillCancel, level.quantity);
    assert !e.book.Has(id);
    MatchIncomingKeeps(e.book, side, o);
    hide MatchIncoming, Tidy;
    var b := MatchIncoming(e.book, side, o).book;
    forall p | p in b.bids || p in b.asks
      ensures p.orderType == GoodTillCancel && 0x8000_0000_0000_0000 <= p.id < id + 1
    {
      if p.id != id {
        var p' :| (p' in e.book.bids || p' in e.book.asks) && SameOrder(p, p');
      }
    }
  }

  lemma {:induction false} LevelsStaySynthetic(e: Exchange, side: Side, levels: seq<SnapshotLevel>, id: OrderId)
    requires Sound(e) && Synthetic(e.book, id) && 0x8000_0000_0000_0000 <= id
    requires id + |levels| < 0xffff_ffff_ffff_ffff
    ensures var e' := Run(e, LevelOps(side, levels, id)).exchange;
            Sound(e') && Synthetic(e'.book, IdAfter(levels, id)) && id <= IdAfter(levels, id) <= id + |levels|
    decreases |levels|
  {
    hide Sound, Synthetic, Step, AddOrder;
    if levels != [] {
      if levels[0].quantity == 0 {
        LevelsStaySynthetic(e, side, levels[1..], id);
      } else {
        var op := Add(GoodTillCancel, id, side, levels[0].price, levels[0].quantity);
        AddStaysSynthetic(e, side, levels[0], id);
        StepIsAdd(e, side, levels[0], id);
        StepKeepsSound(e, op);
        RunStep(e, op, LevelOps(side, levels[1..], id + 1));
        LevelsStaySynthetic(Step(e, op).exchange, side, levels[1..], id + 1);
      }
    }
  }

  lemma StepIsAdd(e: Exchange, side: Side, level: SnapshotLevel, id: OrderId)
    ensures Step(e, Add(GoodTillCancel, id, side, level.price, level.quantity)).exchange.book ==
            AddOrder(e, GoodTillCancel, id, side, level.price, level.quantity).book
  {
  }

  /** After any snapshot, crossed or not, only good-till-cancel orders rest, and no id below 2^63 is in use. */
  lemma SnapshotIds(e: Exchange, msg: BookSnapshotMessage)
    requires |msg.bids| + |msg.asks| < 0x7fff_ffff_ffff_ffff
    ensures var b := Run(e, SnapshotOps(msg)).exchange.book;
            && (forall o | o in b.bids || o in b.asks :: o.orderType == GoodTillCancel)
            && (forall id: OrderId | id < 0x8000_0000_0000_0000 :: !b.Has(id))
  {
    hide LevelOps, Run, Step;
    var e0 := e.(book := Book([], []));
    var nextId := IdAfter(msg.bids, FIRST_SYNTHETIC_ID);
    SnapshotRun(e, msg);
    assert Step(e, Clear).exchange == e0 by {
      ClearEmpties(e);
    }
    LevelsStaySynthetic(e0, Buy, msg.bids, FIRST_SYNTHETIC_ID);
    var e1 := Run(e0, LevelOps(Buy, msg.bids, FIRST_SYNTHETIC_ID)).exchange;
    LevelsStaySynthetic(e1, Sell, msg.asks, nextId);
  }

  /** infos is exactly the levels: their prices, aggregated and sorted, best first. */
  ghost predicate Restores(side: Side, levels: seq<SnapshotLevel>, infos: seq<LevelInfo>) {
    && Descending(side, infos)
    && (forall i | 0 <= i < |infos| :: infos[i].quantity == ListedAt(levels, infos[i].price) > 0)
    && (forall p: Price | ListedAt(levels, p) > 0 :: exists i :: 0 <= i < |infos| && infos[i].price == p)
  }

  lemma RestoresSide(side: Side, levels: seq<SnapshotLevel>, q: seq<Order>, infos: seq<LevelInfo>)
    requires IsDepthOf(side, q, infos)
    requires forall p :: DepthAt(q, p) == ListedAt(levels, p) < 0x1_0000_0000
    ensures Restores(side, levels, infos)
  {
    hide Better;
    forall p: Price ensures Wrap32(DepthAt(q, p)) == ListedAt(levels, p) {}
  }

  /**
    Round trip: whatever book was there before, the depth read after a restorable snapshot with
    per-price totals below 2^32 is the levels it could take, aggregated by price and sorted.
   */
  lemma SnapshotRoundTrip(e: Exchange, msg: BookSnapshotMessage, infos: LevelInfos)
    requires Restorable(e, msg)
    requires forall p ::
               ListedAt(TakenBids(e, msg), p) < 0x1_0000_0000 && ListedAt(TakenAsks(e, msg), p) < 0x1_0000_0000
    requires var b := Run(e, SnapshotOps(msg)).exchange.book;
             IsDepthOf(Buy, b.bids, infos.bids) && IsDepthOf(Sell, b.asks, infos.asks)
    ensures Restores(Buy, TakenBids(e, msg), infos.bids) && Restores(Sell, TakenAsks(e, msg), infos.asks)
  {
    hide IsDepthOf, Restores, Restorable, Taken;
    SnapshotDepth(e, msg);
    var b := Run(e, SnapshotOps(msg)).exchange.book;
    RestoresSide(Buy, TakenBids(e, msg), b.bids, infos.bids);
    RestoresSide(Sell, TakenAsks(e, msg), b.asks, infos.asks);
  }
}
