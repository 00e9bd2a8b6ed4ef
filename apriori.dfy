/**
 * The function-based Apriori miner: singleton counting, candidate generation
 * with subset pruning, the level-wise loop that accumulates an
 * itemset -> count table, and rule generation with single-item consequents.
 */
module Apriori {
  import opened Transactions

  /**
   * The condition under which an itemset ends up in the table. Counts are
   * only ever created by an increment, so an itemset needs at least one
   * containing transaction whatever `minSupport` is.
   */
  ghost predicate Frequent<T>(s: set<T>, db: seq<set<T>>, minSupport: int)
  {
    s != {} && 0 < Support(s, db) && minSupport <= Support(s, db)
  }

  /** The exact answer: every frequent itemset with its brute-force support. */
  ghost function FrequentTable<T>(db: seq<set<T>>, minSupport: int): map<set<T>, nat>
  {
    map s | s <= Items(db) && Frequent(s, db, minSupport) :: Support(s, db)
  }

  /** The frequent itemsets of at most `n` items: the table after level `n`. */
  ghost function TableUpTo<T>(db: seq<set<T>>, minSupport: int, n: int): map<set<T>, nat>
  {
    map s | s <= Items(db) && |s| <= n && Frequent(s, db, minSupport) :: Support(s, db)
  }

  // ---------------------------------------------------------------------------
  // get_frequent_itemsets

  /**
   * Counts every item of every transaction in a defaultdict keyed by the
   * singleton, then keeps the counts that reach `minSupport`.
   */
  method GetFrequentItemsets<T(==)>(db: seq<set<T>>, minSupport: int) returns (itemsets: map<set<T>, nat>)
    ensures forall s :: s in itemsets <==> |s| == 1 && 0 < Support(s, db) && minSupport <= Support(s, db)
    ensures forall s :: s in itemsets ==> itemsets[s] == Support(s, db)
  {
    var counts: map<set<T>, nat> := map[];
    for i := 0 to |db|
      invariant counts.Keys == Singletons(Items(db[..i]))
      invariant forall x :: x in Items(db[..i]) ==> counts[{x}] == Count({x}, db[..i])
    {
      var rest := db[i];
      ghost var done: set<T> := {};
      while rest != {}
        invariant rest <= db[i] && done == db[i] - rest
        invariant counts.Keys == Singletons(Items(db[..i]) + done)
        invariant forall x :: x in Items(db[..i]) + done ==>
                    counts[{x}] == Count({x}, db[..i]) + (if x in done then 1 else 0)
        decreases rest
      {
        var item :| item in rest;
        var key := {item};
        if item !in Items(db[..i]) {
          NotAnItem(item, db[..i]);
        }
        counts := counts[key := (if key in counts then counts[key] else 0) + 1];
        rest := rest - {item};
        done := done + {item};
      }
      ItemsSnoc(db, i);
      assert db[..i + 1][..i] == db[..i];
      forall x | x in Items(db[..i + 1]) ensures counts[{x}] == Count({x}, db[..i + 1]) {
        if x !in Items(db[..i]) {
          NotAnItem(x, db[..i]);
        }
      }
    }
    assert db[..|db|] == db;
    itemsets := KeepFrequent(counts, minSupport);
    forall s | s in counts ensures counts[s] == Support(s, db) && 0 < counts[s] {
      var x :| x in Items(db) && s == {x};
      CountIsSupport(s, db);
      ItemSupported(x, db);
    }
    forall s | |s| == 1 && 0 < Support(s, db) ensures s in counts {
      SupportedWithinItems(s, db);
      var x :| x in s;
      SingletonOf(s, x);
    }
  }

  lemma ItemsSnoc<T>(db: seq<set<T>>, i: nat)
    requires i < |db|
    ensures Items(db[..i + 1]) == Items(db[..i]) + db[i]
  {
    var p, q := db[..i], db[..i + 1];
    forall x | x in Items(q) ensures x in Items(p) + db[i] {
      var j :| 0 <= j < |q| && x in q[j];
      if j < i {
        assert x in p[j];
      }
    }
    forall x | x in Items(p) ensures x in Items(q) {
      var j :| 0 <= j < |p| && x in p[j];
      assert x in q[j];
    }
    assert forall x :: x in db[i] ==> x in q[i];
  }

  lemma NotAnItem<T>(x: T, db: seq<set<T>>)
    requires x !in Items(db)
    ensures Count({x}, db) == 0
  {
    CountIsSupport({x}, db);
    if 0 < Support({x}, db) {
      SupportedWithinItems({x}, db);
    }
  }

  // ---------------------------------------------------------------------------
  // generate_candidates

  /**
   * The pruning test for a candidate `c` of size k: each of its (k-1)-item
   * combinations (`c` less one item) is a previous frequent itemset.
   */
  predicate ImmediateSubsetsIn<T(==)>(c: set<T>, prev: set<set<T>>)
  {
    forall x | x in c :: c - {x} in prev
  }

  /** A union that survives: it has exactly k items and passes the pruning test. */
  predicate Keep<T(==)>(c: set<T>, prev: set<set<T>>, k: int)
  {
    |c| == k && ImmediateSubsetsIn(c, prev)
  }

  /** What generate_candidates returns: the surviving unions of two distinct previous itemsets. */
  ghost function Candidates<T>(prev: set<set<T>>, k: int): set<set<T>>
  {
    set a, b | a in prev && b in prev && a != b && Keep(a + b, prev, k) :: a + b
  }

  /** The surviving unions of list[a] and list[b] for a < b, with a < i, or a == i and b < j. */
  ghost function PairUnions<T>(list: seq<set<T>>, prev: set<set<T>>, k: int, i: int, j: int): set<set<T>>
  {
    EarlierUnions(list, prev, k, i) + RowUnions(list, prev, k, i, j)
  }

  /** The surviving unions of list[a] and list[b] for a < i and a < b. */
  ghost function EarlierUnions<T>(list: seq<set<T>>, prev: set<set<T>>, k: int, i: int): set<set<T>>
  {
    set a, b | 0 <= a < i && a < b < |list| && Keep(list[a] + list[b], prev, k) :: list[a] + list[b]
  }

  /** The surviving unions of list[i] and list[b] for i < b < j. */
  ghost function RowUnions<T>(list: seq<set<T>>, prev: set<set<T>>, k: int, i: int, j: int): set<set<T>>
  {
    set b | i < b < j && 0 <= i < |list| && b < |list| && Keep(list[i] + list[b], prev, k) :: list[i] + list[b]
  }

  method GenerateCandidates<T(==)>(prev: set<set<T>>, k: int) returns (candidates: set<set<T>>)
    ensures candidates == Candidates(prev, k)
  {
    candidates := {};
    var itemsetsList := Enumerate(prev);
    for i := 0 to |itemsetsList|
      invariant candidates == PairUnions(itemsetsList, prev, k, i, i + 1)
    {
      for j := i + 1 to |itemsetsList|
        invariant candidates == PairUnions(itemsetsList, prev, k, i, j)
      {
        var candidate := itemsetsList[i] + itemsetsList[j];
        if |candidate| == k {
          if ImmediateSubsetsIn(candidate, prev) {
            candidates := candidates + {candidate};
          }
        }
        PairUnionsStep(itemsetsList, prev, k, i, j);
      }
      PairUnionsRow(itemsetsList, prev, k, i);
    }
    PairUnionsAll(itemsetsList, prev, k);
  }

  lemma PairUnionsStep<T>(list: seq<set<T>>, prev: set<set<T>>, k: int, i: int, j: int)
    requires 0 <= i < j < |list|
    ensures PairUnions(list, prev, k, i, j + 1)
         == PairUnions(list, prev, k, i, j) + (if Keep(list[i] + list[j], prev, k) then {list[i] + list[j]} else {})
  {
    var extra := if Keep(list[i] + list[j], prev, k) then {list[i] + list[j]} else {};
    var before := RowUnions(list, prev, k, i, j);
    var after := RowUnions(list, prev, k, i, j + 1);
    forall c | c in after ensures c in before + extra {
      var b :| i < b < j + 1 && b < |list| && Keep(list[i] + list[b], prev, k) && c == list[i] + list[b];
      if b < j {
        assert c in before;
      }
    }
    assert after == before + extra;
  }

  lemma PairUnionsRow<T>(list: seq<set<T>>, prev: set<set<T>>, k: int, i: int)
    requires 0 <= i < |list|
    ensures PairUnions(list, prev, k, i, |list|) == PairUnions(list, prev, k, i + 1, i + 2)
  {
    var lhs := PairUnions(list, prev, k, i, |list|);
    var rhs := PairUnions(list, prev, k, i + 1, i + 2);
    forall c | c in rhs ensures c in lhs {
      var a, b :| 0 <= a < i + 1 && a < b < |list| && Keep(list[a] + list[b], prev, k) && c == list[a] + list[b];
      if a == i {
        assert c in set b' | i < b' < |list| && 0 <= i < |list| && b' < |list| && Keep(list[i] + list[b'], prev, k) :: list[i] + list[b'];
      }
    }
  }

  lemma PairUnionsAll<T>(list: seq<set<T>>, prev: set<set<T>>, k: int)
    requires NoDuplicates(list)
    requires forall x :: x in list <==> x in prev
    ensures PairUnions(list, prev, k, |list|, |list| + 1) == Candidates(prev, k)
  {
    CandidatesInPairUnions(list, prev, k);
    PairUnionsInCandidates(list, prev, k);
  }

  lemma CandidatesInPairUnions<T>(list: seq<set<T>>, prev: set<set<T>>, k: int)
    requires forall x :: x in list <==> x in prev
    ensures Candidates(prev, k) <= PairUnions(list, prev, k, |list|, |list| + 1)
  {
    forall c | c in Candidates(prev, k) ensures c in PairUnions(list, prev, k, |list|, |list| + 1) {
      var a, b :| a in prev && b in prev && a != b && Keep(a + b, prev, k) && c == a + b;
      JoinInPairUnions(list, prev, k, a, b);
    }
  }

  lemma JoinInPairUnions<T>(list: seq<set<T>>, prev: set<set<T>>, k: int, a: set<T>, b: set<T>)
    requires forall x :: x in list <==> x in prev
    requires a in prev && b in prev && a != b && Keep(a + b, prev, k)
    ensures a + b in PairUnions(list, prev, k, |list|, |list| + 1)
  {
    var ia :| 0 <= ia < |list| && list[ia] == a;
    var ib :| 0 <= ib < |list| && list[ib] == b;
    if ia < ib {
      PairInUnions(list, prev, k, ia, ib);
    } else {
      assert a + b == list[ib] + list[ia];
      PairInUnions(list, prev, k, ib, ia);
    }
  }

  lemma PairUnionsInCandidates<T>(list: seq<set<T>>, prev: set<set<T>>, k: int)
    requires NoDuplicates(list)
    requires forall x :: x in list ==> x in prev
    ensures PairUnions(list, prev, k, |list|, |list| + 1) <= Candidates(prev, k)
  {
    forall c | c in PairUnions(list, prev, k, |list|, |list| + 1) ensures c in Candidates(prev, k) {
      var a, b :| 0 <= a < |list| && a < b < |list| && Keep(list[a] + list[b], prev, k) && c == list[a] + list[b];
      assert list[a] in prev && list[b] in prev && list[a] != list[b];
      InCandidates(prev, k, list[a], list[b]);
    }
  }

  lemma PairInUnions<T>(list: seq<set<T>>, prev: set<set<T>>, k: int, a: int, b: int)
    requires 0 <= a < b < |list| && Keep(list[a] + list[b], prev, k)
    ensures list[a] + list[b] in PairUnions(list, prev, k, |list|, |list| + 1)
  {
  }

  /**
   * Every candidate has exactly k items, is the union of two distinct
   * previous itemsets, and has all of its (k-1)-item subsets among them.
   */
  lemma CandidateShape<T>(prev: set<set<T>>, k: int, c: set<T>)
    requires c in Candidates(prev, k)
    ensures |c| == k
    ensures exists a, b :: a in prev && b in prev && a != b && c == a + b
    ensures forall t :: t <= c && |t| == k - 1 ==> t in prev
  {
    ImmediateSubsetsComplete(c, prev);
  }

  /**
   * Removing one item is the only way to get a subset one smaller, so the
   * test on one-item removals accepts exactly the sets whose every subset of
   * one item fewer (each `combinations(c, k-1)`) is in `prev`.
   */
  lemma ImmediateSubsetsComplete<T>(c: set<T>, prev: set<set<T>>)
    ensures ImmediateSubsetsIn(c, prev) <==> forall t :: t <= c && |t| == |c| - 1 ==> t in prev
  {
    if ImmediateSubsetsIn(c, prev) {
      forall t | t <= c && |t| == |c| - 1 ensures t in prev {
        assert c == t + (c - t);
        var x :| x in c - t;
        SubsetEqualCard(t, c - {x});
      }
    }
    if forall t :: t <= c && |t| == |c| - 1 ==> t in prev {
      forall x | x in c ensures c - {x} in prev {
        assert |c - {x}| == |c| - 1;
      }
    }
  }

  /**
   * Completeness of the join and the pruning: given exactly the frequent
   * itemsets of size k-1, every frequent itemset of size k is a candidate.
   */
  lemma CandidatesComplete<T>(db: seq<set<T>>, minSupport: int, prev: set<set<T>>, k: int, s: set<T>)
    requires k >= 2
    requires forall p :: |p| == k - 1 && Frequent(p, db, minSupport) ==> p in prev
    requires |s| == k && Frequent(s, db, minSupport)
    ensures s in Candidates(prev, k)
  {
    AllImmediateSubsetsFrequent(db, minSupport, prev, k, s);
    JoinFound(prev, k, s);
  }

  /** A set of k >= 2 items whose immediate subsets are all in `prev` is the union of two of them. */
  lemma JoinFound<T>(prev: set<set<T>>, k: int, s: set<T>)
    requires k >= 2 && |s| == k && ImmediateSubsetsIn(s, prev)
    ensures s in Candidates(prev, k)
  {
    var x, y := TwoItems(s);
    var a, b := s - {x}, s - {y};
    assert a in prev && b in prev;
    assert y in a && y !in b;
    UnionOfRemovals(s, x, y);
    InCandidates(prev, k, a, b);
  }

  lemma AllImmediateSubsetsFrequent<T>(db: seq<set<T>>, minSupport: int, prev: set<set<T>>, k: int, s: set<T>)
    requires k >= 2
    requires forall p :: |p| == k - 1 && Frequent(p, db, minSupport) ==> p in prev
    requires |s| == k && Frequent(s, db, minSupport)
    ensures ImmediateSubsetsIn(s, prev)
  {
    forall z | z in s ensures s - {z} in prev {
      ImmediateSubsetFrequent(db, minSupport, s, z);
    }
  }

  lemma ImmediateSubsetFrequent<T>(db: seq<set<T>>, minSupport: int, s: set<T>, z: T)
    requires z in s && |s| >= 2 && Frequent(s, db, minSupport)
    ensures |s - {z}| == |s| - 1 && Frequent(s - {z}, db, minSupport)
  {
    SupportAntiMonotone(s - {z}, s, db);
  }

  lemma InCandidates<T>(prev: set<set<T>>, k: int, a: set<T>, b: set<T>)
    requires a in prev && b in prev && a != b && Keep(a + b, prev, k)
    ensures a + b in Candidates(prev, k)
  {
  }

  // ---------------------------------------------------------------------------
  // apriori

  /**
   * The inner counting loops of apriori (for transaction, for candidate):
   * a defaultdict that gains a key the first time a candidate is contained.
   */
  method CountCandidates<T(==)>(db: seq<set<T>>, candidates: set<set<T>>) returns (counts: map<set<T>, nat>)
    ensures forall c :: c in counts <==> c in candidates && 0 < Support(c, db)
    ensures forall c :: c in counts ==> counts[c] == Support(c, db)
  {
    counts := map[];
    for i := 0 to |db|
      invariant forall c :: c in counts <==> c in candidates && 0 < Count(c, db[..i])
      invariant forall c :: c in counts ==> counts[c] == Count(c, db[..i])
    {
      var rest := candidates;
      ghost var done: set<set<T>> := {};
      while rest != {}
        invariant rest <= candidates && done == candidates - rest
        invariant forall c :: c in counts <==>
                    c in candidates && 0 < Count(c, db[..i]) + (if c in done && c <= db[i] then 1 else 0)
        invariant forall c :: c in counts ==>
                    counts[c] == Count(c, db[..i]) + (if c in done && c <= db[i] then 1 else 0)
        decreases rest
      {
        var candidate :| candidate in rest;
        if candidate <= db[i] {
          counts := counts[candidate := (if candidate in counts then counts[candidate] else 0) + 1];
        }
        rest := rest - {candidate};
        done := done + {candidate};
      }
      assert db[..i + 1][..i] == db[..i];
    }
    assert db[..|db|] == db;
    forall c ensures Count(c, db) == Support(c, db) {
      CountIsSupport(c, db);
    }
  }

  /** The dict comprehension of lines 11 and 42: keep the counts that reach `minSupport`. */
  function KeepFrequent<T>(counts: map<set<T>, nat>, minSupport: int): (kept: map<set<T>, nat>)
    ensures kept.Keys <= counts.Keys
    ensures forall s | s in counts :: s in kept <==> minSupport <= counts[s]
    ensures forall s | s in kept :: kept[s] == counts[s]
  {
    map s | s in counts && counts[s] >= minSupport :: counts[s]
  }

  /**
   * apriori: line 27 turns every transaction into a set, then the level-wise
   * loop runs on those sets.
   */
  method Apriori<T(==)>(rows: seq<seq<T>>, minSupport: int) returns (table: map<set<T>, nat>)
    ensures table == FrequentTable(ToSets(rows), minSupport)
  {
    var transactions := ToSets(rows);
    table := MineLevels(transactions, minSupport);
  }

  /**
   * The level-wise loop of apriori. Each pass turns the frequent itemsets of
   * size k-1 into candidates of size k, counts them, keeps those that reach
   * `minSupport`, adds them to the table and moves on to k+1; it stops at the
   * first empty level. The table it returns is exactly the frequent itemsets,
   * and the loop terminates because no frequent itemset has more items than
   * the transactions mention.
   */
  method MineLevels<T(==)>(db: seq<set<T>>, minSupport: int) returns (table: map<set<T>, nat>)
    ensures table == FrequentTable(db, minSupport)
  {
    var itemsets := GetFrequentItemsets(db, minSupport);
    table := itemsets;
    var k := 2;
    TableFirstLevel(db, minSupport, itemsets);
    while itemsets != map[]
      invariant 2 <= k
      invariant forall s :: s in itemsets <==> |s| == k - 1 && Frequent(s, db, minSupport)
      invariant forall s :: s in itemsets ==> itemsets[s] == Support(s, db)
      invariant table == TableUpTo(db, minSupport, k - 1)
      decreases |Items(db)| + 2 - k
    {
      LevelWithinItems(db, minSupport, k - 1, itemsets);
      ghost var prev := itemsets.Keys;
      var candidates := GenerateCandidates(itemsets.Keys, k);
      var counts := CountCandidates(db, candidates);
      itemsets := KeepFrequent(counts, minSupport);
      NextLevel(db, minSupport, k, prev, counts, itemsets);
      TableNextLevel(db, minSupport, k, table, itemsets);
      table := table + itemsets;
      k := k + 1;
    }
    TableComplete(db, minSupport, k - 1);
  }

  /** A non-empty level n has n <= |Items(db)|: what bounds the number of passes. */
  lemma LevelWithinItems<T>(db: seq<set<T>>, minSupport: int, n: int, level: map<set<T>, nat>)
    requires level != map[]
    requires forall s :: s in level ==> |s| == n && Frequent(s, db, minSupport)
    ensures n <= |Items(db)|
  {
    var s :| s in level;
    SupportedWithinItems(s, db);
    SubsetCard(s, Items(db));
  }

  /**
   * One pass: from exactly the frequent itemsets of size k-1, counting and
   * filtering the candidates gives exactly the frequent itemsets of size k.
   */
  lemma NextLevel<T>(db: seq<set<T>>, minSupport: int, k: int, prev: set<set<T>>,
                     counts: map<set<T>, nat>, level: map<set<T>, nat>)
    requires k >= 2
    requires forall p :: |p| == k - 1 && Frequent(p, db, minSupport) ==> p in prev
    requires forall c :: c in counts <==> c in Candidates(prev, k) && 0 < Support(c, db)
    requires forall c :: c in counts ==> counts[c] == Support(c, db)
    requires level == KeepFrequent(counts, minSupport)
    ensures forall s :: s in level <==> |s| == k && Frequent(s, db, minSupport)
    ensures forall s :: s in level ==> level[s] == Support(s, db)
  {
    forall s | |s| == k && Frequent(s, db, minSupport) ensures s in level {
      CandidatesComplete(db, minSupport, prev, k, s);
    }
    forall s | s in level ensures |s| == k && Frequent(s, db, minSupport) {
      CandidateSize(prev, k, s);
    }
  }

  lemma CandidateSize<T>(prev: set<set<T>>, k: int, c: set<T>)
    requires c in Candidates(prev, k)
    ensures |c| == k
  {
  }

  lemma TableFirstLevel<T>(db: seq<set<T>>, minSupport: int, itemsets: map<set<T>, nat>)
    requires forall s :: s in itemsets <==> |s| == 1 && 0 < Support(s, db) && minSupport <= Support(s, db)
    requires forall s :: s in itemsets ==> itemsets[s] == Support(s, db)
    ensures forall s :: s in itemsets <==> |s| == 1 && Frequent(s, db, minSupport)
    ensures itemsets == TableUpTo(db, minSupport, 1)
  {
    var t := TableUpTo(db, minSupport, 1);
    forall s | s in itemsets ensures s in t {
      SupportedWithinItems(s, db);
    }
  }

  lemma TableNextLevel<T>(db: seq<set<T>>, minSupport: int, k: int, table: map<set<T>, nat>, level: map<set<T>, nat>)
    requires table == TableUpTo(db, minSupport, k - 1)
    requires forall s :: s in level <==> |s| == k && Frequent(s, db, minSupport)
    requires forall s :: s in level ==> level[s] == Support(s, db)
    ensures table + level == TableUpTo(db, minSupport, k)
  {
    var t := TableUpTo(db, minSupport, k);
    forall s | s in level ensures s in t {
      SupportedWithinItems(s, db);
    }
  }

  /** With no frequent itemset of size n >= 1, none is larger either. */
  lemma TableComplete<T>(db: seq<set<T>>, minSupport: int, n: int)
    requires 1 <= n
    requires forall s :: !(|s| == n && Frequent(s, db, minSupport))
    ensures TableUpTo(db, minSupport, n) == FrequentTable(db, minSupport)
  {
    forall s | Frequent(s, db, minSupport) ensures |s| <= n {
      if |s| > n {
        var t := SubsetOfSize(s, n);
        SupportAntiMonotone(t, s, db);
        assert false;
      }
    }
  }

  /** The table only grows from one level to the next, and what is added has exactly n+1 items. */
  lemma TableGrows<T>(db: seq<set<T>>, minSupport: int, n: int)
    ensures forall s :: s in TableUpTo(db, minSupport, n) ==>
              s in TableUpTo(db, minSupport, n + 1) && TableUpTo(db, minSupport, n + 1)[s] == TableUpTo(db, minSupport, n)[s]
    ensures forall s :: s in TableUpTo(db, minSupport, n + 1) && s !in TableUpTo(db, minSupport, n) ==> |s| == n + 1
  {
  }

  /** Every entry of the table has its brute-force support, which reaches the threshold. */
  lemma FrequentTableEntries<T>(db: seq<set<T>>, minSupport: int, s: set<T>)
    ensures s in FrequentTable(db, minSupport) <==> s != {} && 0 < Support(s, db) && minSupport <= Support(s, db)
    ensures s in FrequentTable(db, minSupport) ==> FrequentTable(db, minSupport)[s] == Support(s, db)
  {
    if Frequent(s, db, minSupport) {
      SupportedWithinItems(s, db);
    }
  }

  /** Downward closure: every non-empty subset of an entry is an entry with at least its support. */
  lemma FrequentTableClosed<T>(db: seq<set<T>>, minSupport: int, s: set<T>, t: set<T>)
    requires s in FrequentTable(db, minSupport)
    requires t <= s && t != {}
    ensures t in FrequentTable(db, minSupport)
    ensures FrequentTable(db, minSupport)[s] <= FrequentTable(db, minSupport)[t]
  {
    SupportAntiMonotone(t, s, db);
  }

  // ---------------------------------------------------------------------------
  // generate_association_rules

  datatype Rule<T> = Rule(antecedent: set<T>, consequent: set<T>, confidence: real)

  /**
   * The outcome of generate_association_rules: the rules, or the exception
   * that aborts it (a missing antecedent is a KeyError, an antecedent counted
   * zero times a ZeroDivisionError).
   */
  datatype RulesOutcome<T> =
    | Rules(rules: seq<Rule<T>>)
    | KeyError(missing: set<T>)
    | ZeroDivisionError(antecedent: set<T>)

  /** Every lookup and division the rule loop performs on itemsets in `done` succeeds. */
  ghost predicate LookupsSucceedOn<T>(table: map<set<T>, nat>, done: set<set<T>>)
  {
    forall s, x :: s in done && |s| > 1 && x in s ==> AntecedentCounted(table, s, x)
  }

  /** `a` is `s - {x}` for some item `x` of some itemset `s` of the table with more than one item. */
  ghost predicate RuleAntecedent<T>(table: map<set<T>, nat>, a: set<T>)
  {
    exists s, x :: s in table && |s| > 1 && x in s && a == s - {x}
  }

  /** The antecedent `s - {x}` of the rule that leaves out `x` has a count, and that count is not zero. */
  ghost predicate AntecedentCounted<T>(table: map<set<T>, nat>, s: set<T>, x: T)
  {
    s - {x} in table && table[s - {x}] > 0
  }

  /** `frequent_itemsets[itemset] / frequent_itemsets[antecedent]` for the antecedent that leaves out `x`. */
  function Confidence<T(==)>(table: map<set<T>, nat>, s: set<T>, x: T): (c: real)
    requires s in table && AntecedentCounted(table, s, x)
    ensures 0.0 <= c
    ensures c * table[s - {x}] as real == table[s] as real
    ensures c <= 1.0 <==> table[s] <= table[s - {x}]
  {
    RatioOfCounts(table[s], table[s - {x}]);
    table[s] as real / table[s - {x}] as real
  }

  /** The rules that the itemsets in `done` contribute: antecedent s - {x}, consequent {x}. */
  ghost function RulesOver<T>(table: map<set<T>, nat>, done: set<set<T>>, minConfidence: real): set<Rule<T>>
    requires done <= table.Keys && LookupsSucceedOn(table, done)
  {
    set s, x | s in done && |s| > 1 && x in s && Confidence(table, s, x) >= minConfidence
      :: Rule(s - {x}, {x}, Confidence(table, s, x))
  }

  /** The rules one itemset contributes through the omitted items in `tried`. */
  ghost function RulesOfItemset<T>(table: map<set<T>, nat>, s: set<T>, tried: set<T>, minConfidence: real): set<Rule<T>>
    requires s in table && tried <= s
    requires forall x :: x in tried ==> AntecedentCounted(table, s, x)
  {
    set x | x in tried && Confidence(table, s, x) >= minConfidence :: Rule(s - {x}, {x}, Confidence(table, s, x))
  }

  /** All rules generate_association_rules emits when no lookup fails. */
  ghost function RuleSet<T>(table: map<set<T>, nat>, minConfidence: real): set<Rule<T>>
    requires LookupsSucceedOn(table, table.Keys)
  {
    RulesOver(table, table.Keys, minConfidence)
  }

  /**
   * For each itemset of more than one item and each of its (n-1)-item
   * combinations, the rule antecedent -> itemset - antecedent with
   * confidence count(itemset) / count(antecedent), kept when it reaches
   * `minConfidence`. The order of the rules is that of dict and frozenset
   * iteration, which the model leaves open.
   */
  method GenerateAssociationRules<T(==)>(table: map<set<T>, nat>, minConfidence: real) returns (outcome: RulesOutcome<T>)
    ensures outcome.Rules? <==> LookupsSucceedOn(table, table.Keys)
    ensures outcome.Rules? ==> NoDuplicates(outcome.rules)
    ensures outcome.Rules? ==> forall r :: r in outcome.rules <==> r in RuleSet(table, minConfidence)
    ensures outcome.KeyError? ==>
              outcome.missing !in table &&
              RuleAntecedent(table, outcome.missing)
    ensures outcome.ZeroDivisionError? ==>
              outcome.antecedent in table && table[outcome.antecedent] == 0 &&
              RuleAntecedent(table, outcome.antecedent)
  {
    var rules: seq<Rule<T>> := [];
    var pending := table.Keys;
    ghost var visited: set<set<T>> := {};
    while pending != {}
      invariant pending <= table.Keys && visited == table.Keys - pending
      invariant LookupsSucceedOn(table, visited)
      invariant RulesProgress(table, minConfidence, rules, visited)
      decreases pending
    {
      var itemset :| itemset in pending;
      if |itemset| > 1 {
        var more := ItemsetRules(table, itemset, minConfidence);
        if !more.Rules? {
          ItemsetFails(table, itemset, minConfidence, more);
          return more;
        }
        RulesProgressAppend(table, minConfidence, rules, visited, itemset, more.rules);
        rules := rules + more.rules;
      } else {
        RulesProgressSmall(table, minConfidence, rules, visited, itemset);
      }
      pending := pending - {itemset};
      visited := visited + {itemset};
    }
    RulesProgressDone(table, minConfidence, rules);
    return Rules(rules);
  }

  /**
   * The outer loop's invariant: `rules` lists, each once, the rules of the
   * itemsets in `visited`.
   */
  ghost predicate RulesProgress<T>(table: map<set<T>, nat>, minConfidence: real, rules: seq<Rule<T>>, visited: set<set<T>>)
    requires visited <= table.Keys && LookupsSucceedOn(table, visited)
  {
    && (forall r | r in rules :: r in RulesOver(table, visited, minConfidence))
    && (forall r | r in RulesOver(table, visited, minConfidence) :: r in rules)
    && (forall i :: 0 <= i < |rules| ==> rules[i].antecedent + rules[i].consequent in visited)
    && NoDuplicates(rules)
  }

  lemma RulesProgressAppend<T>(table: map<set<T>, nat>, minConfidence: real, rules: seq<Rule<T>>,
                               visited: set<set<T>>, itemset: set<T>, more: seq<Rule<T>>)
    requires visited <= table.Keys && itemset in table && itemset !in visited && |itemset| > 1
    requires LookupsSucceedOn(table, visited)
    requires RulesProgress(table, minConfidence, rules, visited)
    requires forall x :: x in itemset ==> AntecedentCounted(table, itemset, x)
    requires NoDuplicates(more)
    requires forall r :: r in more <==> r in RulesOfItemset(table, itemset, itemset, minConfidence)
    requires forall i :: 0 <= i < |more| ==> more[i].antecedent + more[i].consequent == itemset
    ensures LookupsSucceedOn(table, visited + {itemset})
    ensures RulesProgress(table, minConfidence, rules + more, visited + {itemset})
  {
    RulesOverStep(table, visited, itemset, minConfidence);
    AppendRulesOver(table, minConfidence, rules, visited, itemset, more);
    AppendFresh(rules, more, visited, itemset);
  }

  /** Both directions of the membership half of `RulesProgress` after appending one itemset's rules. */
  lemma AppendRulesOver<T>(table: map<set<T>, nat>, minConfidence: real, rules: seq<Rule<T>>,
                           visited: set<set<T>>, itemset: set<T>, more: seq<Rule<T>>)
    requires visited <= table.Keys && itemset in table && |itemset| > 1
    requires LookupsSucceedOn(table, visited + {itemset})
    requires forall x :: x in itemset ==> AntecedentCounted(table, itemset, x)
    requires forall r | r in rules :: r in RulesOver(table, visited, minConfidence)
    requires forall r | r in RulesOver(table, visited, minConfidence) :: r in rules
    requires forall r :: r in more <==> r in RulesOfItemset(table, itemset, itemset, minConfidence)
    requires RulesOver(table, visited + {itemset}, minConfidence)
          == RulesOver(table, visited, minConfidence) + RulesOfItemset(table, itemset, itemset, minConfidence)
    ensures forall r | r in rules + more :: r in RulesOver(table, visited + {itemset}, minConfidence)
    ensures forall r | r in RulesOver(table, visited + {itemset}, minConfidence) :: r in rules + more
  {
    var before := RulesOver(table, visited, minConfidence);
    var one := RulesOfItemset(table, itemset, itemset, minConfidence);
    forall r | r in rules + more ensures r in before + one {
      if r in rules {
        assert r in before;
      } else {
        assert r in one;
      }
    }
    forall r | r in before + one ensures r in rules + more {
      if r in before {
        assert r in rules;
      } else {
        assert r in more;
      }
    }
  }

  lemma RulesProgressDone<T>(table: map<set<T>, nat>, minConfidence: real, rules: seq<Rule<T>>)
    requires LookupsSucceedOn(table, table.Keys)
    requires RulesProgress(table, minConfidence, rules, table.Keys)
    ensures NoDuplicates(rules)
    ensures forall r :: r in rules <==> r in RuleSet(table, minConfidence)
  {
  }

  lemma RulesProgressSmall<T>(table: map<set<T>, nat>, minConfidence: real, rules: seq<Rule<T>>,
                              visited: set<set<T>>, itemset: set<T>)
    requires visited <= table.Keys && itemset in table && |itemset| <= 1
    requires LookupsSucceedOn(table, visited)
    requires RulesProgress(table, minConfidence, rules, visited)
    ensures LookupsSucceedOn(table, visited + {itemset})
    ensures RulesProgress(table, minConfidence, rules, visited + {itemset})
  {
    RulesOverSmall(table, visited, itemset, minConfidence);
  }

  /** A failed lookup in one itemset is a failed lookup of the whole table. */
  lemma ItemsetFails<T>(table: map<set<T>, nat>, itemset: set<T>, minConfidence: real, outcome: RulesOutcome<T>)
    requires itemset in table && |itemset| > 1 && !outcome.Rules?
    requires !(forall x :: x in itemset ==> AntecedentCounted(table, itemset, x))
    requires outcome.KeyError? ==>
               outcome.missing !in table && exists x :: x in itemset && outcome.missing == itemset - {x}
    requires outcome.ZeroDivisionError? ==>
               outcome.antecedent in table && table[outcome.antecedent] == 0 &&
               exists x :: x in itemset && outcome.antecedent == itemset - {x}
    ensures !LookupsSucceedOn(table, table.Keys)
    ensures outcome.KeyError? ==>
              outcome.missing !in table &&
              RuleAntecedent(table, outcome.missing)
    ensures outcome.ZeroDivisionError? ==>
              outcome.antecedent in table && table[outcome.antecedent] == 0 &&
              RuleAntecedent(table, outcome.antecedent)
  {
    var y :| y in itemset && !(AntecedentCounted(table, itemset, y));
    if outcome.KeyError? {
      var x :| x in itemset && outcome.missing == itemset - {x};
      assert itemset in table && |itemset| > 1 && x in itemset && outcome.missing == itemset - {x};
    } else {
      var x :| x in itemset && outcome.antecedent == itemset - {x};
      assert itemset in table && |itemset| > 1 && x in itemset && outcome.antecedent == itemset - {x};
    }
  }

  /** The inner loop of generate_association_rules: the rules of one itemset of more than one item. */
  method ItemsetRules<T(==)>(table: map<set<T>, nat>, itemset: set<T>, minConfidence: real) returns (outcome: RulesOutcome<T>)
    requires itemset in table && |itemset| > 1
    ensures outcome.Rules? <==> forall x :: x in itemset ==> AntecedentCounted(table, itemset, x)
    ensures outcome.Rules? ==> NoDuplicates(outcome.rules)
    ensures outcome.Rules? ==> forall r :: r in outcome.rules <==> r in RulesOfItemset(table, itemset, itemset, minConfidence)
    ensures outcome.Rules? ==> forall i :: 0 <= i < |outcome.rules| ==>
              outcome.rules[i].antecedent + outcome.rules[i].consequent == itemset
    ensures outcome.KeyError? ==>
              outcome.missing !in table && exists x :: x in itemset && outcome.missing == itemset - {x}
    ensures outcome.ZeroDivisionError? ==>
              outcome.antecedent in table && table[outcome.antecedent] == 0 &&
              exists x :: x in itemset && outcome.antecedent == itemset - {x}
  {
    var rules: seq<Rule<T>> := [];
    var items := itemset;
    ghost var tried: set<T> := {};
    while items != {}
      invariant items <= itemset && tried == itemset - items
      invariant forall x :: x in tried ==> AntecedentCounted(table, itemset, x)
      invariant ItemsetProgress(table, itemset, minConfidence, rules, tried)
      decreases items
    {
      var x :| x in items;
      var antecedent := itemset - {x};
      var consequent := itemset - antecedent;
      if antecedent !in table || table[antecedent] == 0 {
        LookupFails(table, itemset, x);
        if antecedent !in table {
          return KeyError(antecedent);
        }
        return ZeroDivisionError(antecedent);
      }
      var confidence := Confidence(table, itemset, x);
      ItemsetProgressStep(table, itemset, minConfidence, rules, tried, x);
      if confidence >= minConfidence {
        rules := rules + [Rule(antecedent, consequent, confidence)];
      }
      items := items - {x};
      tried := tried + {x};
    }
    ItemsetDone(table, itemset, minConfidence, rules, tried);
    return Rules(rules);
  }

  /** The lookup of one (n-1)-item combination fails, so not every lookup of the itemset succeeds. */
  lemma LookupFails<T>(table: map<set<T>, nat>, itemset: set<T>, x: T)
    requires x in itemset && !(AntecedentCounted(table, itemset, x))
    ensures !(forall y :: y in itemset ==> AntecedentCounted(table, itemset, y))
    ensures itemset - (itemset - {x}) == {x}
  {
  }

  /** Once every item has been tried, the inner loop's invariant is the method's promise. */
  lemma ItemsetDone<T>(table: map<set<T>, nat>, itemset: set<T>, minConfidence: real,
                       rules: seq<Rule<T>>, tried: set<T>)
    requires itemset in table && tried == itemset
    requires forall x :: x in tried ==> AntecedentCounted(table, itemset, x)
    requires ItemsetProgress(table, itemset, minConfidence, rules, tried)
    ensures NoDuplicates(rules)
    ensures forall r :: r in rules <==> r in RulesOfItemset(table, itemset, itemset, minConfidence)
    ensures forall i :: 0 <= i < |rules| ==> rules[i].antecedent + rules[i].consequent == itemset
  {
  }

  /**
   * The inner loop's invariant: `rules` lists, each once, the rules of
   * `itemset` whose consequent is an item in `tried`.
   */
  ghost predicate ItemsetProgress<T>(table: map<set<T>, nat>, itemset: set<T>, minConfidence: real,
                                     rules: seq<Rule<T>>, tried: set<T>)
    requires itemset in table && tried <= itemset
    requires forall x :: x in tried ==> AntecedentCounted(table, itemset, x)
  {
    && (forall r | r in rules :: r in RulesOfItemset(table, itemset, tried, minConfidence))
    && (forall r | r in RulesOfItemset(table, itemset, tried, minConfidence) :: r in rules)
    && (forall i :: 0 <= i < |rules| ==>
          rules[i].antecedent + rules[i].consequent == itemset && rules[i].consequent <= tried)
    && NoDuplicates(rules)
  }

  lemma ItemsetProgressStep<T>(table: map<set<T>, nat>, itemset: set<T>, minConfidence: real,
                               rules: seq<Rule<T>>, tried: set<T>, x: T)
    requires itemset in table && tried <= itemset && x in itemset && x !in tried
    requires forall y :: y in tried + {x} ==> AntecedentCounted(table, itemset, y)
    requires ItemsetProgress(table, itemset, minConfidence, rules, tried)
    ensures itemset - (itemset - {x}) == {x}
    ensures Confidence(table, itemset, x) == table[itemset] as real / table[itemset - {x}] as real
    ensures Confidence(table, itemset, x) < minConfidence ==>
              ItemsetProgress(table, itemset, minConfidence, rules, tried + {x})
    ensures Confidence(table, itemset, x) >= minConfidence ==>
              ItemsetProgress(table, itemset, minConfidence,
                              rules + [Rule(itemset - {x}, {x}, Confidence(table, itemset, x))], tried + {x})
  {
    RulesOfItemsetStep(table, itemset, tried, x, minConfidence);
    assert (itemset - {x}) + {x} == itemset;
  }

  /** Rules of a new itemset are distinct from those of the itemsets already visited. */
  lemma AppendFresh<T>(rules: seq<Rule<T>>, more: seq<Rule<T>>, visited: set<set<T>>, itemset: set<T>)
    requires itemset !in visited
    requires NoDuplicates(rules) && NoDuplicates(more)
    requires forall i :: 0 <= i < |rules| ==> rules[i].antecedent + rules[i].consequent in visited
    requires forall i :: 0 <= i < |more| ==> more[i].antecedent + more[i].consequent == itemset
    ensures NoDuplicates(rules + more)
    ensures forall i :: 0 <= i < |rules + more| ==>
              (rules + more)[i].antecedent + (rules + more)[i].consequent in visited + {itemset}
  {
  }

  lemma RulesOfItemsetStep<T>(table: map<set<T>, nat>, itemset: set<T>, tried: set<T>, x: T, minConfidence: real)
    requires itemset in table && tried <= itemset && x in itemset
    requires forall y :: y in tried + {x} ==> AntecedentCounted(table, itemset, y)
    ensures RulesOfItemset(table, itemset, tried + {x}, minConfidence)
         == RulesOfItemset(table, itemset, tried, minConfidence)
            + (if Confidence(table, itemset, x) >= minConfidence
               then {Rule(itemset - {x}, {x}, Confidence(table, itemset, x))} else {})
  {
  }

  lemma RulesOverStep<T>(table: map<set<T>, nat>, visited: set<set<T>>, itemset: set<T>, minConfidence: real)
    requires visited <= table.Keys && itemset in table && |itemset| > 1
    requires LookupsSucceedOn(table, visited)
    requires forall x :: x in itemset ==> AntecedentCounted(table, itemset, x)
    ensures LookupsSucceedOn(table, visited + {itemset})
    ensures RulesOver(table, visited + {itemset}, minConfidence)
         == RulesOver(table, visited, minConfidence) + RulesOfItemset(table, itemset, itemset, minConfidence)
  {
  }

  lemma RulesOverSmall<T>(table: map<set<T>, nat>, visited: set<set<T>>, itemset: set<T>, minConfidence: real)
    requires visited <= table.Keys && itemset in table && |itemset| <= 1
    requires LookupsSucceedOn(table, visited)
    ensures LookupsSucceedOn(table, visited + {itemset})
    ensures RulesOver(table, visited + {itemset}, minConfidence) == RulesOver(table, visited, minConfidence)
  {
  }

  /**
   * Every rule comes from an itemset of more than one item; its antecedent
   * has one item fewer, its consequent is the remaining item, the two are
   * disjoint and make up the itemset, and its confidence is the ratio of the
   * two counts and reaches the threshold.
   */
  lemma RuleSetShape<T>(table: map<set<T>, nat>, minConfidence: real, r: Rule<T>)
    requires LookupsSucceedOn(table, table.Keys)
    requires r in RuleSet(table, minConfidence)
    ensures r.antecedent + r.consequent in table && |r.antecedent + r.consequent| > 1
    ensures |r.consequent| == 1 && |r.antecedent| == |r.antecedent + r.consequent| - 1
    ensures r.antecedent !! r.consequent
    ensures r.antecedent in table && table[r.antecedent] > 0
    ensures r.confidence == table[r.antecedent + r.consequent] as real / table[r.antecedent] as real
    ensures r.confidence >= minConfidence
  {
    forall s, x | s in table && |s| > 1 && x in s && Confidence(table, s, x) >= minConfidence
      ensures WellShaped(table, minConfidence, Rule(s - {x}, {x}, Confidence(table, s, x)))
    {
      assert (s - {x}) + {x} == s;
    }
  }

  ghost predicate WellShaped<T>(table: map<set<T>, nat>, minConfidence: real, r: Rule<T>)
  {
    && r.antecedent + r.consequent in table && |r.antecedent + r.consequent| > 1
    && |r.consequent| == 1 && |r.antecedent| == |r.antecedent + r.consequent| - 1
    && r.antecedent !! r.consequent
    && r.antecedent in table && table[r.antecedent] > 0
    && r.confidence == table[r.antecedent + r.consequent] as real / table[r.antecedent] as real
    && r.confidence >= minConfidence
  }

  /** Conversely, every split that reaches the threshold is emitted. */
  lemma RuleSetComplete<T>(table: map<set<T>, nat>, minConfidence: real, s: set<T>, x: T)
    requires LookupsSucceedOn(table, table.Keys)
    requires s in table && |s| > 1 && x in s
    requires table[s] as real / table[s - {x}] as real >= minConfidence
    ensures Rule(s - {x}, {x}, table[s] as real / table[s - {x}] as real) in RuleSet(table, minConfidence)
  {
  }

  /**
   * On the table apriori returns, every antecedent lookup succeeds and no
   * count is zero: every non-empty subset of an entry is itself an entry.
   */
  lemma FrequentTableLookupsSucceed<T>(db: seq<set<T>>, minSupport: int)
    ensures LookupsSucceedOn(FrequentTable(db, minSupport), FrequentTable(db, minSupport).Keys)
  {
    var table := FrequentTable(db, minSupport);
    forall s, x | s in table && |s| > 1 && x in s ensures AntecedentCounted(table, s, x) {
      assert |s - {x}| == |s| - 1;
      FrequentTableClosed(db, minSupport, s, s - {x});
    }
  }
}
