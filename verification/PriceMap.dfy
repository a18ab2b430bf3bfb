/**
  The ordered map of price levels: its best key, and the single queue that reading the levels in
  order gives.
 */
module PriceMap {
  import opened Types

  predicate IsBest(side: Side, keys: set<Price>, p: Price) {
    p in keys && forall q | q in keys :: !Better(side, q, p)
  }

  lemma {:induction false} BestExists(side: Side, keys: set<Price>)
    requires keys != {}
    ensures exists p :: IsBest(side, keys, p)
    decreases |keys|
  {
    var x :| x in keys;
    if keys == {x} {
      assert IsBest(side, keys, x);
    } else {
      var others := keys - {x};
      assert others == {} ==> keys == {x};
      BestExists(side, others);
      var p :| IsBest(side, others, p);
      if Better(side, x, p) {
        assert forall q | q in keys :: q == x || q in others;
        assert IsBest(side, keys, x);
      } else {
        assert IsBest(side, keys, p);
      }
    }
  }

  /** begin() of the ordered map: highest bid or lowest ask. */
  function Best(side: Side, keys: set<Price>): (p: Price)
    requires keys != {}
    ensures IsBest(side, keys, p)
  {
    BestExists(side, keys);
    var p :| IsBest(side, keys, p);
    p
  }

  ghost function Ahead(side: Side, keys: set<Price>, p: Price): set<Price> {
    set q | q in keys && Better(side, q, p)
  }

  ghost function Behind(side: Side, keys: set<Price>, p: Price): set<Price> {
    set q | q in keys && Better(side, p, q)
  }

  /** The levels under these keys, one after another, best first. */
  ghost function Flatten<T>(side: Side, m: map<Price, seq<T>>, keys: set<Price>): seq<T>
    requires keys <= m.Keys
    decreases |keys|
  {
    if keys == {} then []
    else
      var p := Best(side, keys);
      m[p] + Flatten(side, m, keys - {p})
  }

  lemma {:induction false} FlattenSame<T>(side: Side, m: map<Price, seq<T>>, m': map<Price, seq<T>>, keys: set<Price>)
    requires keys <= m.Keys && keys <= m'.Keys && forall p | p in keys :: m[p] == m'[p]
    ensures Flatten(side, m, keys) == Flatten(side, m', keys)
    decreases |keys|
  {
    if keys != {} {
      FlattenSame(side, m, m', keys - {Best(side, keys)});
    }
  }

  /** How taking off the best price affects what is ahead of p and behind p. */
  lemma SplitStep(side: Side, keys: set<Price>, p: Price)
    requires keys != {}
    ensures var b, rest := Best(side, keys), keys - {Best(side, keys)};
            && b in keys
            && (Better(side, b, p) ==>
                  && Ahead(side, keys, p) != {} && Best(side, Ahead(side, keys, p)) == b
                  && Ahead(side, keys, p) - {b} == Ahead(side, rest, p)
                  && Behind(side, keys, p) == Behind(side, rest, p))
            && (!Better(side, b, p) ==>
                  && Ahead(side, keys, p) == {} == Ahead(side, rest, p)
                  && (p in keys <==> b == p)
                  && Behind(side, keys, p) == (if b == p then rest else keys)
                  && Behind(side, rest, p) == rest)
  {
    var b := Best(side, keys);
    if Better(side, b, p) {
      assert b in Ahead(side, keys, p);
    }
  }

  lemma FlattenStep<T>(side: Side, m: map<Price, seq<T>>, keys: set<Price>)
    requires keys <= m.Keys && keys != {}
    ensures Flatten(side, m, keys) == m[Best(side, keys)] + Flatten(side, m, keys - {Best(side, keys)})
  {
  }

  lemma SplitNone<T>(side: Side, m: map<Price, seq<T>>, p: Price)
    ensures Ahead(side, {}, p) == {} == Behind(side, {}, p)
    ensures Flatten(side, m, {}) == []
  {
  }

  lemma SplitSubsets(side: Side, keys: set<Price>, p: Price)
    ensures Ahead(side, keys, p) <= keys && Behind(side, keys, p) <= keys
  {
  }

  /** The level at p, if there is one. */
  ghost function Own<T>(m: map<Price, seq<T>>, keys: set<Price>, p: Price): seq<T>
    requires keys <= m.Keys
  {
    if p in keys then m[p] else []
  }

  lemma Reassociate<T>(x: seq<T>, a: seq<T>, c: seq<T>, b: seq<T>)
    ensures x + (a + c + b) == (x + a) + c + b
  {
  }

  /** Any price splits the queue into what is ahead of it, its own level, and what is behind it. */
  lemma {:induction false} FlattenSplit<T>(side: Side, m: map<Price, seq<T>>, keys: set<Price>, p: Price)
    requires keys <= m.Keys
    ensures Ahead(side, keys, p) <= m.Keys && Behind(side, keys, p) <= m.Keys
    ensures Flatten(side, m, keys) ==
            Flatten(side, m, Ahead(side, keys, p)) + Own(m, keys, p) + Flatten(side, m, Behind(side, keys, p))
    decreases |keys|
  {
    hide Flatten, Ahead, Behind, IsBest;
    SplitNone(side, m, p);
    SplitSubsets(side, keys, p);
    if keys != {} {
      var b := Best(side, keys);
      var rest := keys - {b};
      SplitStep(side, keys, p);
      SplitSubsets(side, rest, p);
      FlattenStep(side, m, keys);
      FlattenSplit(side, m, rest, p);
      if Better(side, b, p) {
        FlattenStep(side, m, Ahead(side, keys, p));
        Reassociate(m[b], Flatten(side, m, Ahead(side, rest, p)), Own(m, keys, p),
                    Flatten(side, m, Behind(side, rest, p)));
      }
    }
  }

  lemma {:induction false} FlattenMember<T>(side: Side, m: map<Price, seq<T>>, keys: set<Price>, i: nat)
    returns (p: Price)
    requires keys <= m.Keys && i < |Flatten(side, m, keys)|
    ensures p in keys && Flatten(side, m, keys)[i] in m[p]
    decreases |keys|
  {
    p := Best(side, keys);
    if i >= |m[p]| {
      p := FlattenMember(side, m, keys - {p}, i - |m[p]|);
    }
  }

  lemma FlattenErase<T>(side: Side, m: map<Price, seq<T>>, keys: set<Price>, p: Price)
    requires keys <= m.Keys && p in keys && m[p] == []
    ensures Flatten(side, m, keys - {p}) == Flatten(side, m, keys)
  {
    FlattenSplit(side, m, keys, p);
    FlattenSplit(side, m, keys - {p}, p);
    assert Ahead(side, keys, p) == Ahead(side, keys - {p}, p);
    assert Behind(side, keys, p) == Behind(side, keys - {p}, p);
  }
}
