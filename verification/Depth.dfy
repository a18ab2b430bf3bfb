/** Market depth: the list of levels a reader of the book gets, and when its numbers are true. */
module Depth {
  import opened Types
  import opened PriceTimeQueue

  /**
    infos lists, best price first, each price whose depth modulo 2^32 is not zero, with that depth.
   */
  ghost predicate IsDepthOf(side: Side, q: seq<Order>, infos: seq<LevelInfo>) {
    && Descending(side, infos)
    && (forall i | 0 <= i < |infos| ::
          infos[i].quantity > 0 && infos[i].quantity == Wrap32(DepthAt(q, infos[i].price)))
    && (forall p: Price | Wrap32(DepthAt(q, p)) > 0 :: exists i :: 0 <= i < |infos| && infos[i].price == p)
  }

  ghost predicate Descending(side: Side, infos: seq<LevelInfo>) {
    forall i, j | 0 <= i < j < |infos| :: Better(side, infos[i].price, infos[j].price)
  }

  lemma {:induction false} SameElementsSameList(side: Side, a: seq<LevelInfo>, b: seq<LevelInfo>)
    requires Descending(side, a) && Descending(side, b)
    requires forall x :: x in a <==> x in b
    ensures a == b
  {
    assert forall i | 0 <= i < |a| :: a[i] in b;
    assert forall i | 0 <= i < |b| :: b[i] in a;
    if a != [] && b != [] {
      var i :| 0 <= i < |b| && b[i] == a[0];
      var j :| 0 <= j < |a| && a[j] == b[0];
      assert a[0] == b[0];
      forall x ensures x in a[1..] <==> x in b[1..] {
        assert x in a <==> x == a[0] || x in a[1..];
        assert x in b <==> x == b[0] || x in b[1..];
        assert a[0] !in a[1..] && b[0] !in b[1..];
      }
      SameElementsSameList(side, a[1..], b[1..]);
    }
  }

  lemma DepthListMember(side: Side, q: seq<Order>, a: seq<LevelInfo>, x: LevelInfo)
    requires IsDepthOf(side, q, a)
    ensures x in a <==> x.quantity > 0 && x.quantity == Wrap32(DepthAt(q, x.price))
  {
  }

  /** That description leaves no choice. */
  lemma DepthListUnique(side: Side, q: seq<Order>, a: seq<LevelInfo>, b: seq<LevelInfo>)
    requires IsDepthOf(side, q, a) && IsDepthOf(side, q, b)
    ensures a == b
  {
    forall x ensures x in a <==> x in b {
      DepthListMember(side, q, a, x);
      DepthListMember(side, q, b, x);
    }
    SameElementsSameList(side, a, b);
  }

  /** The listed depth of a price is its true depth exactly when that is below 2^32. */
  lemma ListedDepthIsTrue(side: Side, q: seq<Order>, infos: seq<LevelInfo>, i: nat)
    requires IsDepthOf(side, q, infos) && i < |infos|
    ensures infos[i].quantity == DepthAt(q, infos[i].price) <==> DepthAt(q, infos[i].price) < 0x1_0000_0000
  {
  }

  /** A bound on every quantity bounds every depth. */
  lemma {:induction false} DepthBounded(q: seq<Order>, p: Price, bound: nat)
    requires forall o | o in q :: o.quantity <= bound
    ensures DepthAt(q, p) <= |q| * bound
  {
    if q != [] {
      assert q[0] in q;
      DepthBounded(q[1..], p, bound);
      assert |q| * bound == |q[1..]| * bound + bound;
    }
  }

  lemma {:induction false} DepthConcat(a: seq<Order>, b: seq<Order>, p: Price)
    ensures DepthAt(a + b, p) == DepthAt(a, p) + DepthAt(b, p)
  {
    if a == [] {
      assert a + b == b;
    } else {
      DepthConcat(a[1..], b, p);
      assert (a + b)[1..] == a[1..] + b;
    }
  }

  lemma {:induction false} DepthElsewhere(q: seq<Order>, p: Price)
    requires forall i | 0 <= i < |q| :: q[i].price != p
    ensures DepthAt(q, p) == 0
  {
    if q != [] {
      DepthElsewhere(q[1..], p);
    }
  }

  lemma {:induction false} DepthOfLevel(q: seq<Order>, p: Price)
    requires forall i | 0 <= i < |q| :: q[i].price == p
    ensures DepthAt(q, p) == Volume(q)
  {
    if q != [] {
      DepthOfLevel(q[1..], p);
    }
  }
}
