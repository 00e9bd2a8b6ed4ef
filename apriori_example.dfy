/**
 * The worked example that accompanies the function-based miner: five
 * shopping baskets, a minimum support of 2 and a minimum confidence of 0.7.
 */
module AprioriExample {
  import opened Transactions
  import opened Apriori

  const Baskets: seq<seq<string>> := [
    ["bread", "milk"],
    ["bread", "diaper", "beer", "egg"],
    ["milk", "diaper", "beer", "cola"],
    ["bread", "milk", "diaper", "beer"],
    ["bread", "milk", "diaper", "cola"]]

  const MinSupport := 2
  const MinConfidence := 0.7

  /** The baskets as apriori sees them, one set per basket. */
  const Example: seq<set<string>> := [
    {"bread", "milk"},
    {"bread", "diaper", "beer", "egg"},
    {"milk", "diaper", "beer", "cola"},
    {"bread", "milk", "diaper", "beer"},
    {"bread", "milk", "diaper", "cola"}]

  lemma ExampleIsToSets()
    ensures ToSets(Baskets) == Example
  {
    var db := ToSets(Baskets);
    forall i | 0 <= i < 5 ensures db[i] == Example[i] {
      assert db[i] == set x | x in Baskets[i];
    }
  }

  /** One more transaction adds one to the count of every itemset it contains. */
  lemma CountSnoc<T>(s: set<T>, db: seq<set<T>>, t: set<T>)
    ensures Count(s, db + [t]) == Count(s, db) + (if s <= t then 1 else 0)
  {
    assert (db + [t])[..|db|] == db;
  }

  /** The support of `s` in the example, basket by basket. */
  function ExampleCount(s: set<string>): (n: nat)
    ensures n <= |Example|
  {
    (if s <= Example[0] then 1 else 0) + (if s <= Example[1] then 1 else 0) + (if s <= Example[2] then 1 else 0)
    + (if s <= Example[3] then 1 else 0) + (if s <= Example[4] then 1 else 0)
  }

  lemma {:induction false} ExampleSupport(s: set<string>)
    ensures Support(s, Example) == ExampleCount(s)
  {
    CountIsSupport(s, Example);
    var e := Example;
    assert e == [] + [e[0]] + [e[1]] + [e[2]] + [e[3]] + [e[4]];
    CountSnoc(s, [], e[0]);
    CountSnoc(s, [] + [e[0]], e[1]);
    CountSnoc(s, [] + [e[0]] + [e[1]], e[2]);
    CountSnoc(s, [] + [e[0]] + [e[1]] + [e[2]], e[3]);
    CountSnoc(s, [] + [e[0]] + [e[1]] + [e[2]] + [e[3]], e[4]);
  }

  /** On the example, {bread, diaper, beer} is frequent with count 2 and egg, bought once, is not frequent. */
  lemma ExampleTable()
    ensures {"bread", "diaper", "beer"} in FrequentTable(Example, MinSupport)
    ensures FrequentTable(Example, MinSupport)[{"bread", "diaper", "beer"}] == 2
    ensures {"bread", "beer"} in FrequentTable(Example, MinSupport)
    ensures FrequentTable(Example, MinSupport)[{"bread", "beer"}] == 2
    ensures {"bread", "diaper"} in FrequentTable(Example, MinSupport)
    ensures FrequentTable(Example, MinSupport)[{"bread", "diaper"}] == 3
    ensures {"egg"} !in FrequentTable(Example, MinSupport)
  {
    ExampleSupport({"bread", "diaper", "beer"});
    ExampleSupport({"bread", "beer"});
    ExampleSupport({"bread", "diaper"});
    ExampleSupport({"egg"});
    assert "beer" !in Example[0] && "bread" !in Example[2] && "beer" !in Example[4];
    assert "egg" !in Example[0] && "egg" !in Example[2] && "egg" !in Example[3] && "egg" !in Example[4];
    FrequentTableEntries(Example, MinSupport, {"bread", "diaper", "beer"});
    FrequentTableEntries(Example, MinSupport, {"bread", "beer"});
    FrequentTableEntries(Example, MinSupport, {"bread", "diaper"});
    FrequentTableEntries(Example, MinSupport, {"egg"});
  }

  lemma ThreeItems()
    ensures |{"bread", "diaper", "beer"}| == 3
  {
    assert "bread"[0] != "diaper"[0] && "bread"[1] != "beer"[1] && "diaper"[0] != "beer"[0];
  }

  /** {bread, beer} -> {diaper} is emitted: all two baskets with bread and beer also hold a diaper. */
  lemma ExampleRuleEmitted()
    ensures LookupsSucceedOn(FrequentTable(Example, MinSupport), FrequentTable(Example, MinSupport).Keys)
    ensures Rule({"bread", "beer"}, {"diaper"}, 1.0) in RuleSet(FrequentTable(Example, MinSupport), MinConfidence)
  {
    ExampleTable();
    FrequentTableLookupsSucceed(Example, MinSupport);
    EmittedFromCounts(FrequentTable(Example, MinSupport));
  }

  lemma EmittedFromCounts(table: map<set<string>, nat>)
    requires LookupsSucceedOn(table, table.Keys)
    requires {"bread", "diaper", "beer"} in table && table[{"bread", "diaper", "beer"}] == 2
    requires {"bread", "beer"} in table && table[{"bread", "beer"}] == 2
    ensures Rule({"bread", "beer"}, {"diaper"}, 1.0) in RuleSet(table, MinConfidence)
  {
    var all: set<string> := {"bread", "diaper", "beer"};
    assert all - {"diaper"} == {"bread", "beer"};
    ThreeItems();
    assert table[all] as real / table[all - {"diaper"}] as real == 1.0;
    RuleSetComplete(table, MinConfidence, all, "diaper");
  }

  /** {bread, diaper} -> {beer} is not emitted, with any confidence: 2/3 is below 0.7. */
  lemma ExampleRuleRejected()
    ensures LookupsSucceedOn(FrequentTable(Example, MinSupport), FrequentTable(Example, MinSupport).Keys)
    ensures forall c :: Rule({"bread", "diaper"}, {"beer"}, c) !in RuleSet(FrequentTable(Example, MinSupport), MinConfidence)
  {
    ExampleTable();
    FrequentTableLookupsSucceed(Example, MinSupport);
    RejectedFromCounts(FrequentTable(Example, MinSupport));
  }

  lemma RejectedFromCounts(table: map<set<string>, nat>)
    requires LookupsSucceedOn(table, table.Keys)
    requires {"bread", "diaper", "beer"} in table && table[{"bread", "diaper", "beer"}] == 2
    requires {"bread", "diaper"} in table && table[{"bread", "diaper"}] == 3
    ensures forall c :: Rule({"bread", "diaper"}, {"beer"}, c) !in RuleSet(table, MinConfidence)
  {
    var all: set<string> := {"bread", "diaper", "beer"};
    assert {"bread", "diaper"} + {"beer"} == all;
    assert table[all] as real / table[{"bread", "diaper"}] as real < MinConfidence;
    forall c ensures Rule({"bread", "diaper"}, {"beer"}, c) !in RuleSet(table, MinConfidence) {
      if Rule({"bread", "diaper"}, {"beer"}, c) in RuleSet(table, MinConfidence) {
        RuleSetShape(table, MinConfidence, Rule({"bread", "diaper"}, {"beer"}, c));
      }
    }
  }

  /** The single items: bread, milk and diaper are in four baskets, beer in three, cola in two. */
  lemma ExampleSingletons()
    ensures {"bread"} in FrequentTable(Example, MinSupport) && FrequentTable(Example, MinSupport)[{"bread"}] == 4
    ensures {"milk"} in FrequentTable(Example, MinSupport) && FrequentTable(Example, MinSupport)[{"milk"}] == 4
    ensures {"diaper"} in FrequentTable(Example, MinSupport) && FrequentTable(Example, MinSupport)[{"diaper"}] == 4
    ensures {"beer"} in FrequentTable(Example, MinSupport) && FrequentTable(Example, MinSupport)[{"beer"}] == 3
    ensures {"cola"} in FrequentTable(Example, MinSupport) && FrequentTable(Example, MinSupport)[{"cola"}] == 2
  {
    ExampleSupport({"bread"});
    ExampleSupport({"milk"});
    ExampleSupport({"diaper"});
    ExampleSupport({"beer"});
    ExampleSupport({"cola"});
    assert "bread" !in Example[2] && "milk" !in Example[1] && "diaper" !in Example[0];
    assert "beer" !in Example[0] && "beer" !in Example[4];
    assert "cola" !in Example[0] && "cola" !in Example[1] && "cola" !in Example[3];
    FrequentTableEntries(Example, MinSupport, {"bread"});
    FrequentTableEntries(Example, MinSupport, {"milk"});
    FrequentTableEntries(Example, MinSupport, {"diaper"});
    FrequentTableEntries(Example, MinSupport, {"beer"});
    FrequentTableEntries(Example, MinSupport, {"cola"});
  }

  lemma BasketSizes()
    ensures |Example[0]| == 2 && |Example[1]| == 4 && |Example[2]| == 4 && |Example[3]| == 4 && |Example[4]| == 4
  {
    assert "bread"[0] != "milk"[0] && "bread"[0] != "diaper"[0] && "bread"[1] != "beer"[1] && "bread"[0] != "egg"[0];
    assert "bread"[0] != "cola"[0] && "milk"[0] != "diaper"[0] && "milk"[0] != "beer"[0] && "milk"[0] != "cola"[0];
    assert "diaper"[0] != "beer"[0] && "diaper"[0] != "egg"[0] && "diaper"[0] != "cola"[0] && "beer"[0] != "egg"[0];
    assert "beer"[0] != "cola"[0];
  }

  /**
   * An itemset of four or more items fits only a basket of four items, and
   * only by being that basket; no two baskets are the same, so it is in at
   * most one basket.
   */
  lemma {:induction false} LargeItemsetRare(s: set<string>)
    ensures |s| > 3 ==> Support(s, Example) <= 1
  {
    ExampleSupport(s);
    BasketSizes();
    assert "bread" in Example[1] && "bread" !in Example[2] && "bread" in Example[3] && "bread" in Example[4];
    assert "egg" in Example[1] && "egg" !in Example[3] && "egg" !in Example[4];
    assert "beer" in Example[3] && "beer" !in Example[4];
    forall i | 0 <= i < 5 && s <= Example[i] ensures |s| <= |Example[i]| && (|s| == |Example[i]| ==> s == Example[i]) {
      SubsetCard(s, Example[i]);
      if |s| == |Example[i]| {
        SubsetEqualCard(s, Example[i]);
      }
    }
  }

  /** No itemset of four or more items is frequent on the example. */
  lemma ExampleAtMostThreeItems()
    ensures forall s | s in FrequentTable(Example, MinSupport) :: |s| <= 3
  {
    forall s | s in FrequentTable(Example, MinSupport) ensures |s| <= 3 {
      FrequentTableEntries(Example, MinSupport, s);
      LargeItemsetRare(s);
    }
  }

  /** {diaper, beer} is in three baskets, as many as {beer}. */
  lemma ExamplePairCount()
    ensures {"diaper", "beer"} in FrequentTable(Example, MinSupport)
    ensures FrequentTable(Example, MinSupport)[{"diaper", "beer"}] == 3
  {
    ExampleSupport({"diaper", "beer"});
    assert "beer" !in Example[0] && "beer" !in Example[4];
    FrequentTableEntries(Example, MinSupport, {"diaper", "beer"});
  }

  /** {beer} -> {diaper} is emitted with confidence 1.0: every basket with beer also holds a diaper. */
  lemma ExampleBeerDiaper()
    ensures LookupsSucceedOn(FrequentTable(Example, MinSupport), FrequentTable(Example, MinSupport).Keys)
    ensures Rule({"beer"}, {"diaper"}, 1.0) in RuleSet(FrequentTable(Example, MinSupport), MinConfidence)
  {
    ExampleSingletons();
    ExamplePairCount();
    FrequentTableLookupsSucceed(Example, MinSupport);
    BeerDiaperFromCounts(FrequentTable(Example, MinSupport));
  }

  lemma BeerDiaperFromCounts(table: map<set<string>, nat>)
    requires LookupsSucceedOn(table, table.Keys)
    requires {"diaper", "beer"} in table && table[{"diaper", "beer"}] == 3
    requires {"beer"} in table && table[{"beer"}] == 3
    ensures Rule({"beer"}, {"diaper"}, 1.0) in RuleSet(table, MinConfidence)
  {
    var pair: set<string> := {"diaper", "beer"};
    assert "diaper"[0] != "beer"[0];
    assert pair - {"diaper"} == {"beer"};
    assert table[pair] as real / table[pair - {"diaper"}] as real == 1.0;
    RuleSetComplete(table, MinConfidence, pair, "diaper");
  }
}
