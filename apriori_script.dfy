/**
 * The script version of Apriori. Transactions stay lists; itemsets are sets
 * kept in lists, so a level may hold the same itemset several times. There
 * is no subset pruning, support is recounted from the transactions for
 * every candidate and every rule, and rules have a one-item antecedent.
 */
module AprioriScript {
  import opened Transactions

  /** `candidate.issubset(transaction)` where the transaction is a list. */
  predicate IsSubset<T(==)>(c: set<T>, row: seq<T>)
  {
    forall x | x in c :: x in row
  }

  lemma IsSubsetOfRow<T>(c: set<T>, rows: seq<seq<T>>, i: int)
    requires 0 <= i < |rows|
    ensures IsSubset(c, rows[i]) <==> c <= ToSets(rows)[i]
  {
  }

  /**
   * `set(item for transaction in transactions for item in transaction)`:
   * the items of the transactions, gathered from the lists.
   */
  function ItemsOf<T>(rows: seq<seq<T>>): (items: set<T>)
    ensures items == Items(ToSets(rows))
  {
    ItemsOfRows(rows);
    set i, x | 0 <= i < |rows| && x in rows[i] :: x
  }

  lemma ItemsOfRows<T>(rows: seq<seq<T>>)
    ensures (set i, x | 0 <= i < |rows| && x in rows[i] :: x) == Items(ToSets(rows))
  {
    var db := ToSets(rows);
    var gathered := set i, x | 0 <= i < |rows| && x in rows[i] :: x;
    forall x | x in Items(db) ensures x in gathered {
      var i :| 0 <= i < |db| && x in db[i];
      assert x in rows[i];
    }
    forall x | x in gathered ensures x in Items(db) {
      var i :| 0 <= i < |rows| && x in rows[i];
      assert x in db[i];
    }
  }

  /**
   * `[{item} for item in items]`: one singleton per item, in the iteration
   * order of the set, which the model leaves open.
   */
  method SingletonCandidates<T(==)>(items: set<T>) returns (candidates: seq<set<T>>)
    ensures NoDuplicates(candidates)
    ensures forall c :: c in candidates <==> c in Singletons(items)
  {
    var order := Enumerate(items);
    candidates := [];
    for i := 0 to |order|
      invariant |candidates| == i
      invariant forall j :: 0 <= j < i ==> candidates[j] == {order[j]}
    {
      candidates := candidates + [{order[i]}];
    }
    forall j, l | 0 <= j < l < |candidates| ensures candidates[j] != candidates[l] {
      assert order[j] in candidates[j] && order[j] != order[l];
    }
    forall c | c in Singletons(items) ensures c in candidates {
      var x :| x in items && c == {x};
      var j :| 0 <= j < |order| && order[j] == x;
      assert candidates[j] == c;
    }
  }

  /** `sum(1 for transaction in transactions if candidate.issubset(transaction))`. */
  method SupportCount<T(==)>(rows: seq<seq<T>>, candidate: set<T>) returns (count: nat)
    ensures count == Support(candidate, ToSets(rows))
  {
    ghost var db := ToSets(rows);
    count := 0;
    for i := 0 to |rows|
      invariant count == Count(candidate, db[..i])
    {
      IsSubsetOfRow(candidate, rows, i);
      assert db[..i + 1][..i] == db[..i];
      if IsSubset(candidate, rows[i]) {
        count := count + 1;
      }
    }
    assert db[..|rows|] == db;
    CountIsSupport(candidate, db);
  }

  /** The candidates that reach `minSup`, in their order and with their repetitions. */
  function KeepFrequent<T(==)>(candidates: seq<set<T>>, db: seq<set<T>>, minSup: int): (kept: seq<set<T>>)
    ensures |kept| <= |candidates|
    ensures forall c | c in kept :: c in candidates
  {
    if candidates == [] then []
    else
      var rest := KeepFrequent(candidates[..|candidates| - 1], db, minSup);
      var c := candidates[|candidates| - 1];
      if Count(c, db) >= minSup then rest + [c] else rest
  }

  /**
   * Filtering keeps every copy of a candidate that reaches `minSup` and no
   * copy of one that does not.
   */
  lemma {:induction false} KeepFrequentCopies<T>(candidates: seq<set<T>>, db: seq<set<T>>, minSup: int)
    ensures forall c :: multiset(KeepFrequent(candidates, db, minSup))[c]
                        == if minSup <= Support(c, db) then multiset(candidates)[c] else 0
  {
    if candidates != [] {
      var init := candidates[..|candidates| - 1];
      var last := candidates[|candidates| - 1];
      KeepFrequentCopies(init, db, minSup);
      CountIsSupport(last, db);
      assert candidates == init + [last];
    }
  }

  lemma KeepFrequentMembers<T>(candidates: seq<set<T>>, db: seq<set<T>>, minSup: int)
    ensures forall c :: c in KeepFrequent(candidates, db, minSup) <==> c in candidates && minSup <= Support(c, db)
  {
    KeepFrequentCopies(candidates, db, minSup);
    forall c ensures c in KeepFrequent(candidates, db, minSup) <==> c in candidates && minSup <= Support(c, db) {
      assert c in KeepFrequent(candidates, db, minSup) <==> multiset(KeepFrequent(candidates, db, minSup))[c] > 0;
      assert c in candidates <==> multiset(candidates)[c] > 0;
    }
  }

  /** The filter loop of steps 2 and 3: keep, in order, each candidate counted at least `minSup` times. */
  method FilterBySupport<T(==)>(rows: seq<seq<T>>, candidates: seq<set<T>>, minSup: int) returns (frequent: seq<set<T>>)
    ensures frequent == KeepFrequent(candidates, ToSets(rows), minSup)
  {
    frequent := [];
    for i := 0 to |candidates|
      invariant frequent == KeepFrequent(candidates[..i], ToSets(rows), minSup)
    {
      var count := SupportCount(rows, candidates[i]);
      CountIsSupport(candidates[i], ToSets(rows));
      assert candidates[..i + 1][..i] == candidates[..i];
      if count >= minSup {
        frequent := frequent + [candidates[i]];
      }
    }
    assert candidates[..|candidates|] == candidates;
  }

  // ---------------------------------------------------------------------------
  // Step 3: pairwise unions of the previous level

  /** The unions level[i] | level[b], i < b < j, that have exactly k items, in the order of b. */
  function RowJoins<T(==)>(level: seq<set<T>>, k: int, i: int, j: int): seq<set<T>>
    requires 0 <= i < |level| && j <= |level|
    decreases j
  {
    if j <= i + 1 then []
    else RowJoins(level, k, i, j - 1) + (if |level[i] + level[j - 1]| == k then [level[i] + level[j - 1]] else [])
  }

  /** The unions the nested loops append for the rows a < i, in loop order. */
  function Joins<T(==)>(level: seq<set<T>>, k: int, i: int): seq<set<T>>
    requires 0 <= i <= |level|
  {
    if i == 0 then [] else Joins(level, k, i - 1) + RowJoins(level, k, i - 1, |level|)
  }

  /** `for i in range(n): for j in range(i + 1, n)`: append each union of exactly k items. */
  method PairwiseUnions<T(==)>(level: seq<set<T>>, k: int) returns (candidates: seq<set<T>>)
    ensures candidates == Joins(level, k, |level|)
  {
    candidates := [];
    var n := |level|;
    for i := 0 to n
      invariant candidates == Joins(level, k, i)
    {
      for j := i + 1 to n
        invariant candidates == Joins(level, k, i) + RowJoins(level, k, i, j)
      {
        var candidate := level[i] + level[j];
        if |candidate| == k {
          candidates := candidates + [candidate];
        }
      }
    }
  }

  /** `c` is the union of entries a < b of the level and has exactly k items. */
  ghost predicate IsJoin<T>(level: seq<set<T>>, k: int, c: set<T>, a: int, b: int)
  {
    0 <= a < b < |level| && c == level[a] + level[b] && |c| == k
  }

  /** Where a union in row i comes from. */
  lemma {:induction false} RowOrigin<T>(level: seq<set<T>>, k: int, i: int, j: int, c: set<T>) returns (b: int)
    requires 0 <= i < |level| && j <= |level| && c in RowJoins(level, k, i, j)
    ensures b < j && IsJoin(level, k, c, i, b)
    decreases j
  {
    if c in RowJoins(level, k, i, j - 1) {
      b := RowOrigin(level, k, i, j - 1, c);
    } else {
      b := j - 1;
    }
  }

  /** Every union of row i with exactly k items is appended to the row. */
  lemma {:induction false} RowIn<T>(level: seq<set<T>>, k: int, i: int, j: int, c: set<T>, b: int)
    requires j <= |level| && b < j && IsJoin(level, k, c, i, b)
    ensures c in RowJoins(level, k, i, j)
    decreases j
  {
    if b < j - 1 {
      RowIn(level, k, i, j - 1, c, b);
    }
  }

  /** Where a candidate of the rows before i comes from. */
  lemma {:induction false} JoinOrigin<T>(level: seq<set<T>>, k: int, i: int, c: set<T>) returns (a: int, b: int)
    requires 0 <= i <= |level| && c in Joins(level, k, i)
    ensures a < i && IsJoin(level, k, c, a, b)
  {
    assert i > 0;
    if c in Joins(level, k, i - 1) {
      a, b := JoinOrigin(level, k, i - 1, c);
    } else {
      a := i - 1;
      b := RowOrigin(level, k, i - 1, |level|, c);
    }
  }

  /** Every union of rows before i with exactly k items is a candidate. */
  lemma {:induction false} JoinIn<T>(level: seq<set<T>>, k: int, i: int, c: set<T>, a: int, b: int)
    requires i <= |level| && a < i && IsJoin(level, k, c, a, b)
    ensures c in Joins(level, k, i)
    decreases i
  {
    if a == i - 1 {
      RowIn(level, k, a, |level|, c, b);
    } else {
      JoinIn(level, k, i - 1, c, a, b);
    }
    InAppend(c, Joins(level, k, i - 1), RowJoins(level, k, i - 1, |level|));
  }

  lemma AppendAssoc<X>(xs: seq<X>, ys: seq<X>, zs: seq<X>)
    ensures (xs + ys) + zs == xs + (ys + zs)
  {
  }

  lemma InAppend<X>(x: X, xs: seq<X>, ys: seq<X>)
    requires x in xs || x in ys
    ensures x in xs + ys
  {
  }

  /**
   * The candidates of a level are exactly the unions of two of its entries,
   * the first before the second, that have k items (duplicates and all:
   * nothing is pruned and nothing is deduplicated).
   */
  lemma JoinsMembers<T>(level: seq<set<T>>, k: int)
    ensures forall c :: c in Joins(level, k, |level|) <==> exists a, b :: IsJoin(level, k, c, a, b)
  {
    forall c | c in Joins(level, k, |level|) ensures exists a, b :: IsJoin(level, k, c, a, b) {
      var a, b := JoinOrigin(level, k, |level|, c);
    }
    forall c, a, b | IsJoin(level, k, c, a, b) ensures c in Joins(level, k, |level|) {
      JoinIn(level, k, |level|, c, a, b);
    }
  }

  /** Unions of itemsets drawn from the items are drawn from the items. */
  lemma JoinsWithin<T>(db: seq<set<T>>, level: seq<set<T>>, k: int, minSup: int)
    requires forall s | s in level :: s <= Items(db)
    ensures forall c | c in KeepFrequent(Joins(level, k, |level|), db, minSup) :: c <= Items(db) && |c| == k
  {
    forall c | c in Joins(level, k, |level|) ensures c <= Items(db) && |c| == k {
      var a, b := JoinOrigin(level, k, |level|, c);
      assert level[a] in level && level[b] in level;
    }
  }

  /** A level of itemsets of k - 1 items drawn from the items is empty once k - 1 exceeds the number of items. */
  lemma LevelFits<T>(db: seq<set<T>>, level: seq<set<T>>, k: int)
    requires level != []
    requires forall s | s in level :: s <= Items(db) && |s| == k - 1
    ensures k - 1 <= |Items(db)|
  {
    SubsetCard(level[0], Items(db));
  }

  // ---------------------------------------------------------------------------
  // Step 3: the level loop

  /**
   * The itemsets the loop adds from level k on, given the survivors
   * `level` of level k - 1: each level's survivors, in order, until a
   * level has none.
   */
  ghost function Levels<T>(db: seq<set<T>>, level: seq<set<T>>, k: int, minSup: int): seq<set<T>>
    requires 2 <= k
    requires forall s | s in level :: s <= Items(db) && |s| == k - 1
    decreases |Items(db)| + 2 - k
  {
    if level == [] then []
    else
      LevelFits(db, level, k);
      JoinsWithin(db, level, k, minSup);
      var next := KeepFrequent(Joins(level, k, |level|), db, minSup);
      next + Levels(db, next, k + 1, minSup)
  }

  /**
   * Steps 1 to 3: the singleton candidates, their survivors, and the
   * survivors of every later level, concatenated in level order.
   */
  method FrequentItemsets<T(==)>(rows: seq<seq<T>>, minSup: int) returns (candidates: seq<set<T>>, allFrequent: seq<set<T>>)
    ensures NoDuplicates(candidates)
    ensures forall c :: c in candidates <==> c in Singletons(Items(ToSets(rows)))
    ensures allFrequent == KeepFrequent(candidates, ToSets(rows), minSup)
                           + Levels(ToSets(rows), KeepFrequent(candidates, ToSets(rows), minSup), 2, minSup)
    ensures forall s :: s in allFrequent <==> Mined(s, ToSets(rows), minSup)
  {
    var items := ItemsOf(rows);
    candidates := SingletonCandidates(items);
    var frequentItemsets := FilterBySupport(rows, candidates, minSup);
    ghost var db := ToSets(rows);
    FirstLevelExact(db, candidates, minSup);
    allFrequent := HigherLevels(rows, frequentItemsets, minSup);
    MinedExactly(db, frequentItemsets, minSup);
  }

  /** Step 3 from the surviving singletons `first` on: `all_frequent_itemsets` grows by each level's survivors. */
  method HigherLevels<T(==)>(rows: seq<seq<T>>, first: seq<set<T>>, minSup: int) returns (allFrequent: seq<set<T>>)
    requires forall s | s in first :: s <= Items(ToSets(rows)) && |s| == 1
    ensures allFrequent == first + Levels(ToSets(rows), first, 2, minSup)
  {
    ghost var db := ToSets(rows);
    var frequentItemsets := first;
    allFrequent := first;
    var k := 2;
    while frequentItemsets != []
      invariant 2 <= k
      invariant forall s | s in frequentItemsets :: s <= Items(db) && |s| == k - 1
      invariant allFrequent + Levels(db, frequentItemsets, k, minSup) == first + Levels(db, first, 2, minSup)
      decreases |Items(db)| + 2 - k
    {
      LevelsStep(db, frequentItemsets, k, minSup);
      var candidates := PairwiseUnions(frequentItemsets, k);
      frequentItemsets := FilterBySupport(rows, candidates, minSup);
      AppendAssoc(allFrequent, frequentItemsets, Levels(db, frequentItemsets, k + 1, minSup));
      allFrequent := allFrequent + frequentItemsets;
      k := k + 1;
    }
  }

  /** One turn of the level loop: level k's survivors, then the levels after it. */
  lemma LevelsStep<T>(db: seq<set<T>>, level: seq<set<T>>, k: int, minSup: int)
    requires 2 <= k && level != []
    requires forall s | s in level :: s <= Items(db) && |s| == k - 1
    ensures k - 1 <= |Items(db)|
    ensures forall s | s in KeepFrequent(Joins(level, k, |level|), db, minSup) :: s <= Items(db) && |s| == k
    ensures Levels(db, level, k, minSup) == KeepFrequent(Joins(level, k, |level|), db, minSup)
              + Levels(db, KeepFrequent(Joins(level, k, |level|), db, minSup), k + 1, minSup)
  {
    LevelFits(db, level, k);
    JoinsWithin(db, level, k, minSup);
  }

  /** Everything the loop adds reaches `minSup`, is drawn from the items and has at least k items. */
  lemma {:induction false} LevelsSound<T>(db: seq<set<T>>, level: seq<set<T>>, k: int, minSup: int)
    requires 2 <= k
    requires forall s | s in level :: s <= Items(db) && |s| == k - 1
    ensures forall s | s in Levels(db, level, k, minSup) :: s <= Items(db) && |s| >= k && minSup <= Support(s, db)
    decreases |Items(db)| + 2 - k
  {
    if level != [] {
      LevelFits(db, level, k);
      JoinsWithin(db, level, k, minSup);
      var next := KeepFrequent(Joins(level, k, |level|), db, minSup);
      KeepFrequentMembers(Joins(level, k, |level|), db, minSup);
      LevelsSound(db, next, k + 1, minSup);
    }
  }

  // ---------------------------------------------------------------------------
  // What steps 1 to 3 find

  /**
   * The itemsets the script reports: non-empty, drawn from the items, and
   * contained in at least `minSup` transactions. Unlike apriori.py, an
   * itemset no transaction contains qualifies once `minSup <= 0`.
   */
  ghost predicate Mined<T>(s: set<T>, db: seq<set<T>>, minSup: int)
  {
    s != {} && s <= Items(db) && minSup <= Support(s, db)
  }

  /** Removing one item of an itemset that qualifies leaves one that qualifies, one item smaller. */
  lemma RemovalMined<T>(db: seq<set<T>>, minSup: int, s: set<T>, x: T)
    requires Mined(s, db, minSup) && x in s && |s| >= 2
    ensures |s - {x}| == |s| - 1 && Mined(s - {x}, db, minSup)
  {
    assert s == (s - {x}) + {x};
    SupportAntiMonotone(s - {x}, s, db);
  }

  /**
   * A qualifying itemset of k items is a candidate of level k once the level
   * before holds every qualifying itemset of k - 1 items: it is the union of
   * two different such subsets, whichever of them comes first.
   */
  lemma JoinFound<T>(db: seq<set<T>>, level: seq<set<T>>, k: int, minSup: int, s: set<T>)
    requires 2 <= k && |s| == k && Mined(s, db, minSup)
    requires forall p :: |p| == k - 1 && Mined(p, db, minSup) ==> p in level
    ensures s in Joins(level, k, |level|)
  {
    var x, y := TwoItems(s);
    RemovalMined(db, minSup, s, x);
    RemovalMined(db, minSup, s, y);
    var a :| 0 <= a < |level| && level[a] == s - {x};
    var b :| 0 <= b < |level| && level[b] == s - {y};
    assert y in level[a] && y !in level[b];
    UnionOfRemovals(s, x, y);
    if a < b {
      JoinIn(level, k, |level|, s, a, b);
    } else {
      assert s == level[b] + level[a];
      JoinIn(level, k, |level|, s, b, a);
    }
  }

  /**
   * Some (k - 1)-item subset of a qualifying itemset of at least k items
   * qualifies, so a level that holds every qualifying (k - 1)-itemset is not
   * empty while such an itemset exists.
   */
  lemma LevelNonEmpty<T>(db: seq<set<T>>, level: seq<set<T>>, k: int, minSup: int, s: set<T>)
    requires 2 <= k && |s| >= k && Mined(s, db, minSup)
    requires forall p :: |p| == k - 1 && Mined(p, db, minSup) ==> p in level
    ensures level != []
  {
    var t := SubsetOfSize(s, k - 1);
    SupportAntiMonotone(t, s, db);
    assert Mined(t, db, minSup);
  }

  /**
   * Completeness of the level loop: from a level holding every qualifying
   * (k - 1)-itemset, the loop adds every qualifying itemset of k or more items.
   */
  lemma {:induction false} LevelsComplete<T>(db: seq<set<T>>, level: seq<set<T>>, k: int, minSup: int)
    requires 2 <= k
    requires forall s | s in level :: s <= Items(db) && |s| == k - 1
    requires forall p :: |p| == k - 1 && Mined(p, db, minSup) ==> p in level
    ensures forall s :: |s| >= k && Mined(s, db, minSup) ==> s in Levels(db, level, k, minSup)
    decreases |Items(db)| + 2 - k
  {
    forall s | |s| >= k && Mined(s, db, minSup) ensures s in Levels(db, level, k, minSup) {
      LevelNonEmpty(db, level, k, minSup, s);
      LevelsStep(db, level, k, minSup);
      var joined := Joins(level, k, |level|);
      var next := KeepFrequent(joined, db, minSup);
      KeepFrequentMembers(joined, db, minSup);
      if |s| == k {
        JoinFound(db, level, k, minSup, s);
        InAppend(s, next, Levels(db, next, k + 1, minSup));
      } else {
        forall p | |p| == k && Mined(p, db, minSup) ensures p in next {
          JoinFound(db, level, k, minSup, p);
        }
        LevelsComplete(db, next, k + 1, minSup);
        InAppend(s, next, Levels(db, next, k + 1, minSup));
      }
    }
  }

  /** The first level: the singletons of the items that reach `minSup` are exactly the qualifying one-item itemsets. */
  lemma FirstLevelExact<T>(db: seq<set<T>>, candidates: seq<set<T>>, minSup: int)
    requires forall c :: c in candidates <==> c in Singletons(Items(db))
    ensures forall s :: s in KeepFrequent(candidates, db, minSup) <==> |s| == 1 && Mined(s, db, minSup)
  {
    KeepFrequentMembers(candidates, db, minSup);
    forall s | |s| == 1 && Mined(s, db, minSup) ensures s in Singletons(Items(db)) {
      var x :| x in s;
      SingletonOf(s, x);
    }
  }

  /**
   * Steps 1 to 3 report exactly the qualifying itemsets (each one at least
   * once; duplicates are possible).
   */
  lemma MinedExactly<T>(db: seq<set<T>>, first: seq<set<T>>, minSup: int)
    requires forall s :: s in first <==> |s| == 1 && Mined(s, db, minSup)
    ensures forall s | s in first :: s <= Items(db) && |s| == 1
    ensures forall s :: s in first + Levels(db, first, 2, minSup) <==> Mined(s, db, minSup)
  {
    LevelsSound(db, first, 2, minSup);
    LevelsComplete(db, first, 2, minSup);
    forall s | Mined(s, db, minSup) ensures s in first + Levels(db, first, 2, minSup) {
      InAppend(s, first, Levels(db, first, 2, minSup));
    }
  }

  // ---------------------------------------------------------------------------
  // Step 4: association rules with a one-item antecedent

  /** One printed rule: antecedent -> consequent with its support and confidence. */
  datatype ScriptRule<T> = ScriptRule(antecedent: set<T>, consequent: set<T>, support: real, confidence: real)

  /** Every item of `s` occurs in some transaction (so no share below is a division by zero). */
  ghost predicate ItemsOccur<T>(db: seq<set<T>>, s: set<T>)
  {
    forall x | x in s :: 0 < Support({x}, db)
  }

  lemma ItemsWithinOccur<T>(db: seq<set<T>>, s: set<T>)
    requires s <= Items(db)
    ensures ItemsOccur(db, s)
  {
    forall x | x in s ensures 0 < Support({x}, db) {
      ItemSupported(x, db);
    }
  }

  lemma SupportAtMostTransactions<T>(s: set<T>, db: seq<set<T>>)
    ensures Support(s, db) <= |db|
  {
    CountIsSupport(s, db);
  }

  /**
   * The rule {x} -> s - {x}: support is the share of transactions containing
   * s, confidence that share divided by the share containing x.
   */
  ghost function RuleFor<T>(db: seq<set<T>>, s: set<T>, x: T): ScriptRule<T>
    requires 0 < Support({x}, db)
  {
    SupportAtMostTransactions({x}, db);
    var n := |db| as real;
    var support := Support(s, db) as real / n;
    ScriptRule({x}, s - {x}, support, support / (Support({x}, db) as real / n))
  }

  /** The rules of itemset `s` whose antecedent is an item of `tried` and whose confidence reaches `minConf`. */
  ghost function RulesFor<T>(db: seq<set<T>>, s: set<T>, tried: set<T>, minConf: real): set<ScriptRule<T>>
    requires tried <= s && s <= Items(db)
  {
    ItemsWithinOccur(db, s);
    set x | x in tried && RuleFor(db, s, x).confidence >= minConf :: RuleFor(db, s, x)
  }

  /** The rules printed for the itemsets of `itemsets`, as a bag: an itemset listed twice prints its rules twice. */
  ghost function RuleBag<T>(db: seq<set<T>>, itemsets: seq<set<T>>, minConf: real): multiset<ScriptRule<T>>
    requires forall s | s in itemsets :: s <= Items(db)
  {
    if itemsets == [] then multiset{}
    else
      var s := itemsets[|itemsets| - 1];
      RuleBag(db, itemsets[..|itemsets| - 1], minConf) + ItemsetBag(db, s, minConf)
  }

  /** The rules printed for one itemset of the list: none unless it has more than one item. */
  ghost function ItemsetBag<T>(db: seq<set<T>>, s: set<T>, minConf: real): multiset<ScriptRule<T>>
    requires s <= Items(db)
  {
    if |s| > 1 then multiset(RulesFor(db, s, s, minConf)) else multiset{}
  }

  /**
   * The body of the rule loop for one itemset of more than one item: one
   * candidate rule per item, the item as antecedent and the rest of the
   * itemset as consequent, both supports recounted from the transactions.
   */
  method ItemsetRules<T(==)>(rows: seq<seq<T>>, itemset: set<T>, minConf: real) returns (rules: seq<ScriptRule<T>>)
    requires |itemset| > 1 && itemset <= Items(ToSets(rows))
    ensures multiset(rules) == multiset(RulesFor(ToSets(rows), itemset, itemset, minConf))
  {
    ghost var db := ToSets(rows);
    ItemsWithinOccur(db, itemset);
    var subsets := SingletonCandidates(itemset);
    rules := [];
    ghost var tried: set<T> := {};
    for j := 0 to |subsets|
      invariant tried <= itemset
      invariant forall x :: x in tried <==> {x} in subsets[..j]
      invariant multiset(rules) == multiset(RulesFor(db, itemset, tried, minConf))
    {
      var antecedent := subsets[j];
      assert antecedent in subsets;
      ghost var x :| x in itemset && antecedent == {x};
      NotTriedYet(subsets, j, tried, x);
      var consequent := itemset - antecedent;
      if consequent != {} {
        var itemsetCount := SupportCount(rows, itemset);
        var support := itemsetCount as real / |rows| as real;
        var antecedentCount := SupportCount(rows, antecedent);
        SupportAtMostTransactions(antecedent, db);
        var antecedentSupport := antecedentCount as real / |rows| as real;
        var confidence := support / antecedentSupport;
        RulesForStep(db, itemset, tried, x, minConf);
        if confidence >= minConf {
          rules := rules + [ScriptRule(antecedent, consequent, support, confidence)];
        }
      } else {
        assert false;
      }
      tried := tried + {x};
    }
    forall y | y in itemset ensures y in tried {
      assert {y} in Singletons(itemset);
      assert subsets[..|subsets|] == subsets;
    }
  }

  lemma NotTriedYet<T>(subsets: seq<set<T>>, j: int, tried: set<T>, x: T)
    requires 0 <= j < |subsets| && NoDuplicates(subsets) && subsets[j] == {x}
    requires forall y :: y in tried <==> {y} in subsets[..j]
    ensures x !in tried
    ensures forall y :: y in tried + {x} <==> {y} in subsets[..j + 1]
  {
    assert subsets[..j + 1] == subsets[..j] + [subsets[j]];
  }

  /** Trying one more antecedent adds at most its own rule, which was not there before. */
  lemma RulesForStep<T>(db: seq<set<T>>, s: set<T>, tried: set<T>, x: T, minConf: real)
    requires tried <= s && x in s && x !in tried && s <= Items(db)
    ensures 0 < Support({x}, db)
    ensures multiset(RulesFor(db, s, tried + {x}, minConf))
         == multiset(RulesFor(db, s, tried, minConf))
            + (if RuleFor(db, s, x).confidence >= minConf then multiset{RuleFor(db, s, x)} else multiset{})
    ensures RuleFor(db, s, x) == ScriptRule({x}, s - {x}, Support(s, db) as real / |db| as real,
                                             (Support(s, db) as real / |db| as real) / (Support({x}, db) as real / |db| as real))
  {
    ItemSupported(x, db);
    var before := RulesFor(db, s, tried, minConf);
    var after := RulesFor(db, s, tried + {x}, minConf);
    if RuleFor(db, s, x).confidence >= minConf {
      assert RuleFor(db, s, x) !in before;
      assert after == before + {RuleFor(db, s, x)};
      FreshMultiset(before, RuleFor(db, s, x));
    } else {
      assert after == before;
    }
  }

  lemma FreshMultiset<X>(a: set<X>, x: X)
    requires x !in a
    ensures multiset(a + {x}) == multiset(a) + multiset{x}
  {
    assert a + {x} == a + {x};
  }

  /** Steps 4's outer loop: the rules of every listed itemset of more than one item, in list order. */
  method ScriptRules<T(==)>(rows: seq<seq<T>>, allFrequent: seq<set<T>>, minConf: real) returns (rules: seq<ScriptRule<T>>)
    requires forall s | s in allFrequent :: s <= Items(ToSets(rows))
    ensures multiset(rules) == RuleBag(ToSets(rows), allFrequent, minConf)
  {
    ghost var db := ToSets(rows);
    rules := [];
    for i := 0 to |allFrequent|
      invariant multiset(rules) == RuleBag(db, allFrequent[..i], minConf)
    {
      var itemset := allFrequent[i];
      assert allFrequent[..i + 1][..i] == allFrequent[..i];
      if |itemset| > 1 {
        var more := ItemsetRules(rows, itemset, minConf);
        rules := rules + more;
      } else {
        assert ItemsetBag(db, itemset, minConf) == multiset{};
      }
    }
    assert allFrequent[..|allFrequent|] == allFrequent;
  }

  /** The whole script: steps 1 to 3 mine the itemsets, step 4 prints their rules. */
  method Script<T(==)>(rows: seq<seq<T>>, minSup: int, minConf: real) returns (allFrequent: seq<set<T>>, rules: seq<ScriptRule<T>>)
    ensures forall s :: s in allFrequent <==> Mined(s, ToSets(rows), minSup)
    ensures forall s | s in allFrequent :: s <= Items(ToSets(rows))
    ensures multiset(rules) == RuleBag(ToSets(rows), allFrequent, minConf)
  {
    var candidates;
    candidates, allFrequent := FrequentItemsets(rows, minSup);
    rules := ScriptRules(rows, allFrequent, minConf);
  }

  /** Dividing both shares by the number of transactions cancels out. */
  lemma ShareRatio(a: real, b: real, n: real)
    requires 0.0 < n && 0.0 < b
    ensures (a / n) / (b / n) == a / b
  {
    assert a / n == (a / b) * (b / n);
  }

  /**
   * The shape of a printed rule: it comes from one item x of the itemset s;
   * the antecedent is {x}, the consequent is the rest of s and not empty;
   * support is the share of transactions containing s; confidence is the
   * ratio of the two counts, reaches the threshold and is at most 1.
   */
  lemma ScriptRuleShape<T>(db: seq<set<T>>, s: set<T>, minConf: real, r: ScriptRule<T>) returns (x: T)
    requires |s| > 1 && s <= Items(db) && r in RulesFor(db, s, s, minConf)
    ensures x in s && r.antecedent == {x} && r.consequent == s - {x} && r.consequent != {}
    ensures 0 < Support(r.antecedent, db) && 0 < |db|
    ensures r.support == Support(s, db) as real / |db| as real
    ensures r.confidence == Support(s, db) as real / Support(r.antecedent, db) as real
    ensures minConf <= r.confidence <= 1.0
  {
    ItemsWithinOccur(db, s);
    x :| x in s && r == RuleFor(db, s, x) && RuleFor(db, s, x).confidence >= minConf;
    ItemSupported(x, db);
    SupportAtMostTransactions({x}, db);
    assert |s - {x}| == |s| - 1;
    ShareRatio(Support(s, db) as real, Support({x}, db) as real, |db| as real);
    SupportAntiMonotone({x}, s, db);
    RatioOfCounts(Support(s, db), Support({x}, db));
  }

  /** The rule for item x of s is printed exactly when the ratio of the counts reaches the threshold. */
  lemma RuleForPrinted<T>(db: seq<set<T>>, s: set<T>, minConf: real, x: T)
    requires s <= Items(db) && x in s
    ensures 0 < Support({x}, db)
    ensures RuleFor(db, s, x) in RulesFor(db, s, s, minConf)
            <==> minConf <= Support(s, db) as real / Support({x}, db) as real
  {
    ItemSupported(x, db);
    SupportAtMostTransactions({x}, db);
    ShareRatio(Support(s, db) as real, Support({x}, db) as real, |db| as real);
    if RuleFor(db, s, x) in RulesFor(db, s, s, minConf) {
      ItemsWithinOccur(db, s);
      var y :| y in s && RuleFor(db, s, y) == RuleFor(db, s, x) && RuleFor(db, s, y).confidence >= minConf;
      assert {y} == RuleFor(db, s, y).antecedent;
      assert y in {x};
    }
  }

  /** Itemset `s` of the list makes the script print rule `r`. */
  ghost predicate Prints<T>(db: seq<set<T>>, s: set<T>, minConf: real, r: ScriptRule<T>)
    requires s <= Items(db)
  {
    |s| > 1 && r in RulesFor(db, s, s, minConf)
  }

  /** Position by position, whether the itemset there makes the script print `r`. */
  ghost function PrintFlags<T>(db: seq<set<T>>, itemsets: seq<set<T>>, minConf: real, r: ScriptRule<T>): (flags: seq<bool>)
    requires forall s | s in itemsets :: s <= Items(db)
    ensures |flags| == |itemsets|
    ensures forall i | 0 <= i < |itemsets| :: flags[i] == Prints(db, itemsets[i], minConf, r)
  {
    if itemsets == [] then []
    else
      var init := itemsets[..|itemsets| - 1];
      assert forall s | s in init :: s in itemsets;
      PrintFlags(db, init, minConf, r) + [Prints(db, itemsets[|itemsets| - 1], minConf, r)]
  }

  /** The positions of a sequence of flags that are set. */
  ghost function SetPositions(flags: seq<bool>): set<int>
  {
    set i | 0 <= i < |flags| && flags[i]
  }

  lemma SetPositionsSnoc(flags: seq<bool>, b: bool)
    ensures |SetPositions(flags + [b])| == |SetPositions(flags)| + (if b then 1 else 0)
  {
    var n := |flags|;
    if b {
      assert SetPositions(flags + [b]) == SetPositions(flags) + {n};
    } else {
      assert SetPositions(flags + [b]) == SetPositions(flags);
    }
  }

  lemma {:induction false} RuleBagFlags<T>(db: seq<set<T>>, itemsets: seq<set<T>>, minConf: real, r: ScriptRule<T>)
    requires forall s | s in itemsets :: s <= Items(db)
    ensures RuleBag(db, itemsets, minConf)[r] == |SetPositions(PrintFlags(db, itemsets, minConf, r))|
  {
    if itemsets != [] {
      var n := |itemsets| - 1;
      var init := itemsets[..n];
      assert forall s | s in init :: s in itemsets;
      RuleBagFlags(db, init, minConf, r);
      var b := Prints(db, itemsets[n], minConf, r);
      assert ItemsetBag(db, itemsets[n], minConf)[r] == if b then 1 else 0;
      SetPositionsSnoc(PrintFlags(db, init, minConf, r), b);
    }
  }

  /**
   * How often a rule is printed: once for every position of the list that
   * holds an itemset producing it.
   */
  lemma RuleBagCount<T>(db: seq<set<T>>, itemsets: seq<set<T>>, minConf: real, r: ScriptRule<T>)
    requires forall s | s in itemsets :: s <= Items(db)
    ensures RuleBag(db, itemsets, minConf)[r] == |set i | 0 <= i < |itemsets| && Prints(db, itemsets[i], minConf, r)|
  {
    RuleBagFlags(db, itemsets, minConf, r);
    var flags := PrintFlags(db, itemsets, minConf, r);
    assert SetPositions(flags) == set i | 0 <= i < |itemsets| && Prints(db, itemsets[i], minConf, r);
  }
}
