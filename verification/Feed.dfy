/** What the messages of the market data feed do to the book, one kind at a time and in order. */
module Feed {
  import opened Types
  import opened Rules
  import opened PriceTimeQueue
  import opened Matching
  import opened Engine
  import opened Invariants
  import opened OrderTypes
  import opened Entry
  import opened Snapshot

  /**
    The message takes e to e1: an Add with the message's own type, id, side, price and quantity, a cancel
    of its id, its modify, nothing at all, or the rebuilding of the book.
   */
  ghost predicate Handles(e: Exchange, msg: MarketDataMessage, e1: Exchange) {
    && e1.rules == e.rules && e1.capacity == e.capacity
    && e1.book ==
       match msg
       case NewOrder(_, _, _, _, _) => AddOrder(e, msg.orderType, msg.id, msg.side, msg.price, msg.quantity).book
       case CancelRequest(_) => Cancel(e.book, msg.id)
       case ModifyRequest(_) => ModifyOrder(e, msg.m).book
       case TradeReport => e.book
       case BookSnapshot(_) => Run(e, SnapshotOps(msg.snapshot)).exchange.book
  }

  /** The messages take e to e1 one after another, in the order given. */
  ghost predicate HandlesAll(e: Exchange, msgs: seq<MarketDataMessage>, e1: Exchange) {
    exists states: seq<Exchange> ::
      && |states| == |msgs| + 1 && states[0] == e && states[|msgs|] == e1
      && forall i | 0 <= i < |msgs| :: Handles(states[i], msgs[i], states[i + 1])
  }

  lemma HandlesNone(e: Exchange)
    ensures HandlesAll(e, [], e)
  {
    var states := [e];
    assert |states| == 1 && states[0] == e;
  }

  lemma HandlesMore(e: Exchange, msgs: seq<MarketDataMessage>, e1: Exchange, msg: MarketDataMessage, e2: Exchange)
    requires HandlesAll(e, msgs, e1) && Handles(e1, msg, e2)
    ensures HandlesAll(e, msgs + [msg], e2)
  {
    hide Handles;
    var states: seq<Exchange> :|
      && |states| == |msgs| + 1 && states[0] == e && states[|msgs|] == e1
      && forall i | 0 <= i < |msgs| :: Handles(states[i], msgs[i], states[i + 1]);
    var all := states + [e2];
    forall i | 0 <= i < |msgs + [msg]| ensures Handles(all[i], (msgs + [msg])[i], all[i + 1]) {
      if i < |msgs| {
        assert all[i] == states[i] && all[i + 1] == states[i + 1] && (msgs + [msg])[i] == msgs[i];
      }
    }
    assert all[0] == e && all[|msgs + [msg]|] == e2;
  }

  /** A snapshot's operations touch only the book. */
  lemma {:induction false} RunKeepsFrame(e: Exchange, ops: seq<Op>)
    requires forall i | 0 <= i < |ops| :: !ops[i].SetRules?
    ensures Run(e, ops).exchange.rules == e.rules && Run(e, ops).exchange.capacity == e.capacity
    decreases |ops|
  {
    hide Step;
    if ops != [] {
      OthersKeepRules(e, ops[0]);
      RunKeepsFrame(Step(e, ops[0]).exchange, ops[1..]);
    }
  }

  lemma {:induction false} LevelOpsAreAdds(side: Side, levels: seq<SnapshotLevel>, id: OrderId)
    ensures forall i | 0 <= i < |LevelOps(side, levels, id)| :: LevelOps(side, levels, id)[i].Add?
  {
    if levels != [] {
      LevelOpsAreAdds(side, levels[1..], id);
      LevelOpsAreAdds(side, levels[1..], NextId(id));
    }
  }

  /** The operations a message stands for do what the message says. */
  lemma MessageIsHandled(e: Exchange, msg: MarketDataMessage)
    ensures Handles(e, msg, Run(e, MessageOps(msg)).exchange)
  {
    hide AddOrder, ModifyOrder, Cancel, Run, LevelOps;
    match msg
    case NewOrder(orderType, id, side, price, quantity) =>
      RunOne(e, Add(orderType, id, side, price, quantity));
    case CancelRequest(id) =>
      RunOne(e, CancelOne(id));
    case ModifyRequest(m) =>
      RunOne(e, Modify(m));
    case TradeReport =>
      RunNone(e);
    case BookSnapshot(snapshot) =>
      LevelOpsAreAdds(Buy, snapshot.bids, FIRST_SYNTHETIC_ID);
      LevelOpsAreAdds(Sell, snapshot.asks, IdAfter(snapshot.bids, FIRST_SYNTHETIC_ID));
      RunKeepsFrame(e, SnapshotOps(snapshot));
  }

  // ---------------------------------------------------------------- what a message leaves

  /** A new order's remainder, under an unused id, is what the message asked for; a transient type leaves none. */
  lemma NewOrderRestsAsSent(e: Exchange, msg: MarketDataMessage, e1: Exchange, p: Order)
    requires Tidy(e.book) && msg.NewOrder? && !e.book.Has(msg.id) && Handles(e, msg, e1)
    requires p.id == msg.id && (p in e1.book.bids || p in e1.book.asks)
    ensures p in if msg.side.Buy? then e1.book.bids else e1.book.asks
    ensures p.orderType == if msg.orderType.Market? then GoodTillCancel else msg.orderType
    ensures p.price == if !msg.orderType.Market? then msg.price
                       else if msg.side.Buy? then 0x7fff_ffff else -0x8000_0000
    ensures p.quantity <= msg.quantity
    ensures !msg.orderType.ImmediateOrCancel? && !msg.orderType.FillOrKill?
  {
    RestsAsSent(e, msg.orderType, msg.id, msg.side, msg.price, msg.quantity, p);
  }

  /** An immediate-or-cancel or fill-or-kill message never leaves its order behind. */
  lemma TransientNeverRests(e: Exchange, msg: MarketDataMessage, e1: Exchange)
    requires Tidy(e.book) && msg.NewOrder? && !e.book.Has(msg.id) && Handles(e, msg, e1)
    requires msg.orderType.ImmediateOrCancel? || msg.orderType.FillOrKill?
    ensures !e1.book.Has(msg.id)
  {
    hide Handles, Tidy;
    if e1.book.Has(msg.id) {
      var p :| (p in e1.book.bids || p in e1.book.asks) && p.id == msg.id;
      NewOrderRestsAsSent(e, msg, e1, p);
    }
  }

  /** After a cancel request its id rests nowhere, and every other order rests where it was. */
  lemma CancelledIsGone(e: Exchange, id: OrderId, e1: Exchange)
    requires Tidy(e.book) && Handles(e, CancelRequest(id), e1)
    ensures !e1.book.Has(id)
    ensures forall o :: o in e1.book.bids <==> o in e.book.bids && o.id != id
    ensures forall o :: o in e1.book.asks <==> o in e.book.asks && o.id != id
    ensures Thins(e.book.bids, e1.book.bids) && Thins(e.book.asks, e1.book.asks)
  {
    CancelExactly(e.book, id);
  }

  /** After a snapshot only good-till-cancel orders rest, and every id below 2^63 is free. */
  lemma SnapshotFreesIds(e: Exchange, msg: BookSnapshotMessage, e1: Exchange)
    requires Handles(e, BookSnapshot(msg), e1) && |msg.bids| + |msg.asks| < 0x7fff_ffff_ffff_ffff
    ensures forall o | o in e1.book.bids || o in e1.book.asks :: o.orderType == GoodTillCancel
    ensures forall id: OrderId | id < 0x8000_0000_0000_0000 :: !e1.book.Has(id)
  {
    SnapshotIds(e, msg);
    hide Run, SnapshotOps;
    forall id: OrderId | id < 0x8000_0000_0000_0000 ensures !e1.book.Has(id) {
      assert !Run(e, SnapshotOps(msg)).exchange.book.Has(id);
    }
  }
}
