/**
 * Small inputs on which the script's level step differs from apriori.py's
 * candidate generation.
 */
module AprioriScriptExample {
  import opened Transactions
  import AprioriScript
  import Apriori

  /** Three 2-itemsets over three items join to the same 3-itemset three times: the script keeps every copy. */
  lemma JoinKeepsDuplicates()
    ensures AprioriScript.Joins([{1, 2}, {1, 3}, {2, 3}], 3, 3) == [{1, 2, 3}, {1, 2, 3}, {1, 2, 3}]
  {
    assert {1, 2} + {1, 3} == {1, 2, 3} && {1, 2} + {2, 3} == {1, 2, 3} && {1, 3} + {2, 3} == {1, 2, 3};
    assert |{1, 2, 3}| == 3;
  }

  /**
   * {1, 2} and {1, 3} join to {1, 2, 3} in the script although its subset
   * {2, 3} is not in the level; apriori.py prunes it.
   */
  lemma ScriptDoesNotPrune()
    ensures AprioriScript.Joins([{1, 2}, {1, 3}], 3, 2) == [{1, 2, 3}]
    ensures {1, 2, 3} !in Apriori.Candidates({{1, 2}, {1, 3}}, 3)
  {
    assert {1, 2} + {1, 3} == {1, 2, 3};
    assert |{1, 2, 3}| == 3;
    assert {1, 2, 3} - {1} == {2, 3};
    assert !Apriori.ImmediateSubsetsIn({1, 2, 3}, {{1, 2}, {1, 3}});
  }

  /**
   * With a threshold of 0 the script reports {1, 2}, which no transaction
   * contains; apriori.py only counts itemsets that occur.
   */
  lemma ZeroThresholdDiffers()
    ensures AprioriScript.Mined({1, 2}, [{1}, {2}], 0)
    ensures !Apriori.Frequent({1, 2}, [{1}, {2}], 0)
  {
    var db: seq<set<int>> := [{1}, {2}];
    assert 1 in db[0] && 2 in db[1];
    assert {1, 2} <= Items(db);
    assert (set i | 0 <= i < |db| && {1, 2} <= db[i]) == {};
  }
}
