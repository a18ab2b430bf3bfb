/** Cancelling many ids: the outcome does not depend on the order in which a hash map lists them. */
module BulkCancel {
  import opened Types
  import opened PriceTimeQueue
  import opened Matching
  import opened Engine
  import opened Invariants

  function Drop(q: seq<Order>, ids: set<OrderId>): seq<Order> {
    if q == [] then []
    else if q[0].id in ids then Drop(q[1..], ids)
    else [q[0]] + Drop(q[1..], ids)
  }

  function DropBook(b: Book, ids: set<OrderId>): Book {
    Book(Drop(b.bids, ids), Drop(b.asks, ids))
  }

  function IdSet(ids: seq<OrderId>): set<OrderId> {
    set id | id in ids
  }

  /** The source's loop over the collected ids, in the order they were collected. */
  function CancelAll(b: Book, ids: seq<OrderId>): Book
    decreases |ids|
  {
    if ids == [] then b else CancelAll(Cancel(b, ids[0]), ids[1..])
  }

  lemma {:induction false} DropNone(q: seq<Order>)
    ensures Drop(q, {}) == q
  {
    if q != [] {
      DropNone(q[1..]);
    }
  }

  lemma {:induction false} DropAbsent(q: seq<Order>, ids: set<OrderId>, id: OrderId)
    requires !Holds(q, id)
    ensures Drop(q, ids + {id}) == Drop(q, ids)
  {
    if q != [] {
      assert q[0] in q;
      DropAbsent(q[1..], ids, id);
    }
  }

  lemma {:induction false} DropOneMore(q: seq<Order>, ids: set<OrderId>, id: OrderId)
    requires Unique(q)
    ensures Remove(Drop(q, ids), id) == Drop(q, ids + {id})
  {
    if q != [] {
      DropOneMore(q[1..], ids, id);
      if q[0].id == id {
        assert !Holds(q[1..], id);
        DropAbsent(q[1..], ids, id);
        if id in ids {
          assert ids + {id} == ids;
        }
      }
    }
  }

  lemma DropBookOneMore(b: Book, ids: set<OrderId>, id: OrderId)
    requires Tidy(b)
    ensures Cancel(DropBook(b, ids), id) == DropBook(b, ids + {id})
  {
    DropOneMore(b.bids, ids, id);
    DropOneMore(b.asks, ids, id);
  }

  lemma {:induction false} CancelAllDrops(b: Book, done: set<OrderId>, ids: seq<OrderId>)
    requires Tidy(b)
    ensures CancelAll(DropBook(b, done), ids) == DropBook(b, done + IdSet(ids))
    decreases |ids|
  {
    if ids == [] {
      assert done + IdSet(ids) == done;
    } else {
      DropBookOneMore(b, done, ids[0]);
      CancelAllDrops(b, done + {ids[0]}, ids[1..]);
      assert ids == [ids[0]] + ids[1..];
      assert done + {ids[0]} + IdSet(ids[1..]) == done + IdSet(ids);
    }
  }

  /** Any two enumerations of the same ids leave the same book. */
  lemma CancelOrderIrrelevant(b: Book, ids: seq<OrderId>, ids': seq<OrderId>)
    requires Tidy(b) && forall id :: id in ids <==> id in ids'
    ensures CancelAll(b, ids) == CancelAll(b, ids')
  {
    DropNone(b.bids);
    DropNone(b.asks);
    CancelAllDrops(b, {}, ids);
    CancelAllDrops(b, {}, ids');
    assert IdSet(ids) == IdSet(ids');
  }

  lemma {:induction false} DropGoodForDay(q: seq<Order>, ids: set<OrderId>)
    requires forall o | o in q :: o.id in ids <==> o.orderType == GoodForDay
    ensures Drop(q, ids) == WithoutGoodForDay(q)
  {
    if q != [] {
      assert q[0] in q;
      DropGoodForDay(q[1..], ids);
    }
  }

  /** Cancelling the good-for-day ids, listed in any order, is the end-of-day sweep. */
  lemma GoodForDaySweep(b: Book, ids: seq<OrderId>)
    requires Tidy(b)
    requires forall o | o in b.bids || o in b.asks :: o.id in ids <==> o.orderType == GoodForDay
    ensures CancelAll(b, ids) == CancelGoodForDayOrders(b)
  {
    DropNone(b.bids);
    DropNone(b.asks);
    CancelAllDrops(b, {}, ids);
    var all := IdSet(ids);
    assert {} + all == all;
    DropGoodForDay(b.bids, all);
    DropGoodForDay(b.asks, all);
  }

  lemma {:induction false} DropEverything(q: seq<Order>, ids: set<OrderId>)
    requires forall o | o in q :: o.id in ids
    ensures Drop(q, ids) == []
  {
    if q != [] {
      assert q[0] in q;
      DropEverything(q[1..], ids);
    }
  }

  /** Cancelling every resting id, listed in any order, empties the book. */
  lemma ClearSweep(b: Book, ids: seq<OrderId>)
    requires Tidy(b) && forall o | o in b.bids || o in b.asks :: o.id in ids
    ensures CancelAll(b, ids) == Book([], [])
  {
    DropNone(b.bids);
    DropNone(b.asks);
    CancelAllDrops(b, {}, ids);
    var all := IdSet(ids);
    assert {} + all == all;
    DropEverything(b.bids, all);
    DropEverything(b.asks, all);
  }

  lemma {:induction false} CancelAllLast(b: Book, ids: seq<OrderId>, id: OrderId)
    ensures CancelAll(b, ids + [id]) == Cancel(CancelAll(b, ids), id)
    decreases |ids|
  {
    if ids == [] {
      assert ([id])[1..] == [];
      assert [] + [id] == [id];
    } else {
      CancelAllLast(Cancel(b, ids[0]), ids[1..], id);
      assert (ids + [id])[1..] == ids[1..] + [id];
    }
  }
}
