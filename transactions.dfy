/**
 * Transactions, itemsets and support counting, shared by the two Apriori
 * miners. A transaction is a set of items; a run mines a sequence of them.
 * Support has two definitions: `Support` is the brute-force reference (the
 * number of transaction indices whose set contains the itemset), `Count` is
 * the left-to-right tally that the counting loops accumulate. `CountIsSupport`
 * proves them equal.
 */
module Transactions {

  /** The number of transactions that contain `s` as a subset, by brute force. */
  ghost function Support<T>(s: set<T>, db: seq<set<T>>): nat
  {
    |set i | 0 <= i < |db| && s <= db[i]|
  }

  /** The same number, tallied one transaction at a time from the left. */
  function Count<T(==)>(s: set<T>, db: seq<set<T>>): (n: nat)
    ensures n <= |db|
  {
    if db == [] then 0
    else Count(s, db[..|db| - 1]) + (if s <= db[|db| - 1] then 1 else 0)
  }

  /** Every item that occurs in some transaction. */
  ghost function Items<T>(db: seq<set<T>>): set<T>
  {
    set i, x | 0 <= i < |db| && x in db[i] :: x
  }

  /** The one-item itemsets of the items in `u`. */
  ghost function Singletons<T>(u: set<T>): set<set<T>>
  {
    set x | x in u :: {x}
  }

  /** `list(map(set, transactions))`: each row becomes the set of its items. */
  function ToSets<T>(rows: seq<seq<T>>): (db: seq<set<T>>)
    ensures |db| == |rows|
    ensures forall i :: 0 <= i < |rows| ==> db[i] == set x | x in rows[i]
  {
    seq(|rows|, i requires 0 <= i < |rows| => set x | x in rows[i])
  }

  predicate NoDuplicates<X(==)>(xs: seq<X>)
  {
    forall i, j :: 0 <= i < j < |xs| ==> xs[i] != xs[j]
  }

  lemma {:induction false} CountIsSupport<T>(s: set<T>, db: seq<set<T>>)
    ensures Count(s, db) == Support(s, db)
  {
    if db != [] {
      var n := |db| - 1;
      CountIsSupport(s, db[..n]);
      var before := set i | 0 <= i < n && s <= db[..n][i];
      var now := set i | 0 <= i < |db| && s <= db[i];
      assert before == set i | 0 <= i < n && s <= db[i];
      if s <= db[n] {
        assert now == before + {n};
      } else {
        assert now == before;
      }
    }
  }

  lemma SubsetCard<X>(a: set<X>, b: set<X>)
    requires a <= b
    ensures |a| <= |b|
  {
    assert b == a + (b - a);
  }

  lemma SubsetEqualCard<X>(a: set<X>, b: set<X>)
    requires a <= b && |a| == |b|
    ensures a == b
  {
    assert b == a + (b - a);
    assert |b - a| == 0;
  }

  /** Anti-monotonicity: a superset is contained in no more transactions. */
  lemma SupportAntiMonotone<T>(a: set<T>, b: set<T>, db: seq<set<T>>)
    requires a <= b
    ensures Support(b, db) <= Support(a, db)
  {
    SubsetCard(set i | 0 <= i < |db| && b <= db[i], set i | 0 <= i < |db| && a <= db[i]);
  }

  /** An itemset that occurs at all consists of items of the transactions. */
  lemma SupportedWithinItems<T>(s: set<T>, db: seq<set<T>>)
    requires 0 < Support(s, db)
    ensures s <= Items(db)
  {
    var hits := set i | 0 <= i < |db| && s <= db[i];
    assert hits != {};
    var i :| i in hits;
    forall x | x in s ensures x in Items(db) {
      assert x in db[i];
    }
  }

  /** Every item of the transactions occurs in at least one of them. */
  lemma ItemSupported<T>(x: T, db: seq<set<T>>)
    requires x in Items(db)
    ensures 0 < Support({x}, db)
  {
    var i :| 0 <= i < |db| && x in db[i];
    var hits := set j | 0 <= j < |db| && {x} <= db[j];
    assert i in hits;
    SubsetCard({i}, hits);
  }

  lemma SingletonOf<X>(s: set<X>, x: X)
    requires |s| == 1 && x in s
    ensures s == {x}
  {
    SubsetEqualCard({x}, s);
  }

  /** A set with at least `n` elements has a subset of exactly `n` elements. */
  lemma {:induction false} SubsetOfSize<X>(s: set<X>, n: nat) returns (t: set<X>)
    requires n <= |s|
    ensures t <= s && |t| == n
    decreases |s|
  {
    if n == |s| {
      t := s;
    } else {
      var x :| x in s;
      t := SubsetOfSize(s - {x}, n);
    }
  }

  lemma TwoItems<X>(s: set<X>) returns (x: X, y: X)
    requires |s| >= 2
    ensures x in s && y in s && x != y
  {
    x :| x in s;
    assert |s - {x}| >= 1;
    y :| y in s - {x};
  }

  lemma UnionOfRemovals<X>(s: set<X>, x: X, y: X)
    requires x != y
    ensures (s - {x}) + (s - {y}) == s
  {
  }

  /** The ratio of two counts, the second positive: non-negative, and at most 1 exactly when the first is no larger. */
  lemma RatioOfCounts(a: nat, b: nat)
    requires 0 < b
    ensures 0.0 <= a as real / b as real
    ensures (a as real / b as real) * b as real == a as real
    ensures a as real / b as real <= 1.0 <==> a <= b
  {
    var c := a as real / b as real;
    assert c * b as real == a as real;
    if c <= 1.0 {
      assert c * b as real <= 1.0 * b as real;
    }
    if a <= b {
      assert (c - 1.0) * b as real <= 0.0;
    }
  }

  /**
   * `list(s)`: the elements of a set in an order the caller cannot rely on
   * (Python's hash order), each exactly once.
   */
  method Enumerate<X(==)>(s: set<X>) returns (xs: seq<X>)
    ensures NoDuplicates(xs)
    ensures forall x :: x in xs <==> x in s
  {
    xs := [];
    var rest := s;
    while rest != {}
      invariant rest <= s && NoDuplicates(xs)
      invariant forall x :: x in xs <==> x in s - rest
      decreases rest
    {
      var x :| x in rest;
      assert x !in xs;
      xs := xs + [x];
      rest := rest - {x};
    }
  }
}
