# Apriori miners and the ID3 decision tree, modelled in Dafny

This project models three programs of a data-mining course repository and
proves what they compute.

- **`apriori.py`** is the function-based Apriori miner.
  - `get_frequent_itemsets` counts every single item in a dictionary.
  - `generate_candidates` joins two previous frequent itemsets into a
    candidate of exactly k items, and keeps the candidate only if every
    (k-1)-item combination of it is a previous frequent itemset.
  - `apriori` turns each transaction into a set. It then counts and filters
    level after level into an itemset → count table, and stops at the first
    empty level.
  - `generate_association_rules` emits `antecedent -> consequent` for each
    (n-1)-item antecedent of an n-item itemset, so the consequent is the one
    remaining item. A rule is emitted when `count(itemset) / count(antecedent)`
    reaches the confidence threshold. The worked example of five baskets
    (support 2, confidence 0.7) is stated as lemmas about the model.
- **`EXP7_Apriori.py`** is the script version of Apriori.
  - Its levels are lists, so one itemset may appear several times.
  - A level-k candidate is any union of two earlier entries `i < j` that has
    k items. There is no subset pruning.
  - Support is recounted from the raw transaction lists for every candidate
    and for every rule.
  - Rules go the opposite way from `apriori.py`: a single-item antecedent
    `{x}` and the consequent `itemset - {x}`. Each rule carries support
    `count(itemset) / n` and confidence `support / (count({x}) / n)`.
- **`EXP11_DecisionTree.py`** is an ID3 decision tree, of which the discrete
  part is modelled.
  - `split_data` selects rows by an attribute value.
  - `build_tree` has three leaf rules, picks the attribute of highest gain,
    and builds one subtree per value that occurs.
  - `predict` walks the tree.

Modules:

- `Transactions`: itemsets, transactions, and support. Support is defined by
  brute force as the number of transaction indices whose set contains the
  itemset. It is also defined as the left-to-right tally that the counting
  loops build, and the two are proved equal.
- `Apriori`: `apriori.py`.
- `AprioriExample`: the worked example at the end of `apriori.py`.
- `AprioriScript`: `EXP7_Apriori.py`.
- `AprioriScriptExample`: small inputs on which the two miners differ.
- `DecisionTree`: `EXP11_DecisionTree.py`.

Each loop of the source is a Dafny method with loop invariants, proved
against a ghost specification:

- `FrequentTable`: every non-empty itemset that some transaction contains and
  that reaches the threshold, with its brute-force support.
- `Candidates`: the surviving unions of two distinct previous itemsets.
- `RuleSet`: the rule of every (n-1)-item antecedent that reaches the
  threshold.
- `Joins` and `Levels`: the lists the script builds, in order.
- `Mined`: the itemsets the script reports.
- `RuleBag`: the multiset of rules the script prints.
- `Id3`: the tree `build_tree` returns.

Lemmas then prove what each specification means. The order in which Python
iterates a set or a dict is not fixed by the source. The model leaves it
open: such a loop picks any remaining element, and results whose order
depends on it are stated as sets or multisets.

## Model

| member | source | states |
|---|---|---|
| `Transactions.CountIsSupport` | apriori.py:36-39 | The tally one transaction at a time equals the brute-force support. |
| `Transactions.ToSets` | apriori.py:27 | `list(map(set, transactions))` keeps the number of transactions, and each becomes exactly the set of its items. |
| `Transactions.SupportAntiMonotone` | apriori.py:21-22 | A superset is contained in no more transactions than its subset. This is the principle behind pruning. |
| `Transactions.Enumerate` | apriori.py:16 | `list(prev_frequent_itemsets)` lists each element of the set exactly once, and nothing else. |
| `Apriori.GetFrequentItemsets` | apriori.py:4-12 | The result is keyed exactly by the singletons that some transaction contains and that reach `min_support`. Each maps to its brute-force support. |
| `Apriori.KeepFrequent` | apriori.py:11 | The filter keeps an entry if and only if its count reaches `min_support`, and changes no count. |
| `Apriori.GenerateCandidates` | apriori.py:14-24 | The nested loops over the listed itemsets return exactly `Candidates`: the unions `a + b` of two distinct previous itemsets that have k items and whose one-item removals are all previous itemsets. |
| `Apriori.CandidateShape` | apriori.py:17-23 | A candidate has exactly k items and is the union of two distinct previous itemsets. Every (k-1)-item subset of it is a previous itemset. |
| `Apriori.ImmediateSubsetsComplete` | apriori.py:21-22 | All one-item removals of `c` are previous itemsets if and only if every subset of `c` with one item fewer is. These subsets are what `combinations(candidate, k-1)` produces. |
| `Apriori.CandidatesComplete` | apriori.py:14-24 | Given every frequent (k-1)-itemset, every frequent k-itemset is among the candidates, so pruning loses nothing. |
| `Apriori.CountCandidates` | apriori.py:36-39 | The defaultdict gets a key exactly for the candidates contained in some transaction, and each count is the brute-force support. |
| `Apriori.Apriori` | apriori.py:26-46 | The returned table is exactly `FrequentTable` of the set-converted transactions. |
| `Apriori.MineLevels` | apriori.py:28-46 | The level loop ends and returns exactly `FrequentTable`. After level k the table holds the frequent itemsets of at most k items. |
| `Apriori.NextLevel` | apriori.py:33-42 | One pass turns exactly the frequent (k-1)-itemsets into exactly the frequent k-itemsets, each with its brute-force support. |
| `Apriori.LevelWithinItems` | apriori.py:31-44 | A non-empty level n has n at most the number of distinct items. This bounds the passes of the `while itemsets` loop. |
| `Apriori.TableComplete` | apriori.py:32 | When no frequent itemset has n items, none has more, so stopping at the first empty level loses nothing. |
| `Apriori.TableGrows` | apriori.py:43 | `update` only adds entries, keeps every earlier count, and adds only itemsets of exactly the new size. |
| `Apriori.FrequentTableEntries` | apriori.py:42-43 | A set is in the table if and only if it is non-empty, some transaction contains it, and it reaches `min_support`. Its count is its brute-force support. |
| `Apriori.FrequentTableClosed` | apriori.py:26-46 | Every non-empty subset of an entry is an entry, with a count at least as large. |
| `Apriori.GenerateAssociationRules` | apriori.py:48-58 | Rules are returned if and only if every antecedent lookup finds a non-zero count. The rules are exactly `RuleSet`, with no repeats. Otherwise the outcome is a `KeyError` on a missing antecedent, or a `ZeroDivisionError` on one counted zero, and that antecedent is an (n-1)-item combination of an entry. |
| `Apriori.ItemsetRules` | apriori.py:51-57 | For one itemset: the rules leaving out each item in turn that reach the threshold, with no repeats, each splitting the itemset. Otherwise the lookup that fails. |
| `Apriori.RuleSetShape` | apriori.py:52-57 | An emitted rule: antecedent and consequent are disjoint and make up an entry of more than one item. The consequent has one item. The confidence is the ratio of the two counts and reaches the threshold. |
| `Apriori.Confidence` | apriori.py:55 | The confidence is non-negative, times the antecedent's count it gives the itemset's count, and it is at most 1 exactly when the itemset's count is no larger. |
| `Apriori.RuleSetComplete` | apriori.py:55-57 | Every (n-1)-item antecedent whose count ratio reaches the threshold yields an emitted rule. |
| `Apriori.FrequentTableLookupsSucceed` | apriori.py:55 | On the table `apriori` returns, every antecedent lookup finds a non-zero count, so neither exception can occur. |
| `AprioriExample.ExampleIsToSets` | apriori.py:61-67 | The five example baskets, converted to sets. |
| `AprioriExample.ExampleSupport` | apriori.py:61-67 | Support on the example is the basket-by-basket count. |
| `AprioriExample.ExampleTable` | apriori.py:61-72 | On the example, {bread, diaper, beer} and {bread, beer} are frequent with count 2, {bread, diaper} with count 3, and {egg} is not frequent. |
| `AprioriExample.ExampleSingletons` | apriori.py:61-67 | On the example, bread, milk and diaper are each in four baskets, beer in three, and cola in two, so all five are frequent. |
| `AprioriExample.LargeItemsetRare` | apriori.py:61-67 | On the example, an itemset of four or more items is in at most one basket. |
| `AprioriExample.ExampleAtMostThreeItems` | apriori.py:61-72 | On the example, no frequent itemset has four or more items. |
| `AprioriExample.ExamplePairCount` | apriori.py:61-72 | On the example, {diaper, beer} is frequent with count 3. |
| `AprioriExample.ExampleBeerDiaper` | apriori.py:69-77 | On the example, {beer} -> {diaper} is emitted with confidence 1.0. |
| `AprioriExample.ExampleRuleEmitted` | apriori.py:69-77 | On the example, {bread, beer} -> {diaper} is emitted with confidence 1.0. |
| `AprioriExample.ExampleRuleRejected` | apriori.py:69-77 | On the example, {bread, diaper} -> {beer} is not emitted: 2/3 is below 0.7. |
| `AprioriScript.IsSubsetOfRow` | EXP7_Apriori.py:83 | `candidate.issubset(transaction)` on a list is containment in the list's set of items. |
| `AprioriScript.ItemsOf` | EXP7_Apriori.py:74 | The items gathered from the lists are exactly the items of the transactions. |
| `AprioriScript.SingletonCandidates` | EXP7_Apriori.py:77 | One singleton per item, exactly the singletons of the items, none twice. |
| `AprioriScript.SupportCount` | EXP7_Apriori.py:83 | The generator sum is the brute-force support of the candidate. |
| `AprioriScript.KeepFrequent` | EXP7_Apriori.py:81-86 | The survivors are no more than the candidates, and each is one of them. |
| `AprioriScript.KeepFrequentCopies` | EXP7_Apriori.py:81-86 | Filtering keeps every copy of a candidate that reaches `min_sup` and no copy of one that does not. |
| `AprioriScript.KeepFrequentMembers` | EXP7_Apriori.py:104-110 | A candidate survives if and only if it is in the list and reaches `min_sup`. |
| `AprioriScript.FilterBySupport` | EXP7_Apriori.py:80-86 | The filter loop appends, in order, exactly the candidates `KeepFrequent` keeps. |
| `AprioriScript.PairwiseUnions` | EXP7_Apriori.py:94-102 | The nested `i < j` loops produce `Joins`, in loop order. |
| `AprioriScript.JoinsMembers` | EXP7_Apriori.py:94-102 | A set is a candidate if and only if it is the union of entries a < b of the level and has exactly k items. Nothing is pruned. |
| `AprioriScript.FrequentItemsets` | EXP7_Apriori.py:72-114 | The singleton candidates are the singletons of the items, none twice. `all_frequent_itemsets` is the first level's survivors followed by `Levels`. A set is listed if and only if it is `Mined`. |
| `AprioriScript.HigherLevels` | EXP7_Apriori.py:89-114 | The `while` loop ends, and the list is the first level followed by every later level's survivors in order. |
| `AprioriScript.LevelsStep` | EXP7_Apriori.py:93-114 | One turn of the loop: level k's survivors have k items drawn from the transactions, then come the later levels. k - 1 never exceeds the number of items. |
| `AprioriScript.LevelsSound` | EXP7_Apriori.py:104-113 | Everything the loop adds reaches `min_sup`, is drawn from the items, and has at least k items. |
| `AprioriScript.LevelsComplete` | EXP7_Apriori.py:93-114 | From a level holding every qualifying (k-1)-itemset, the loop adds every qualifying itemset of k or more items. |
| `AprioriScript.FirstLevelExact` | EXP7_Apriori.py:74-86 | The first level's survivors are exactly the one-item itemsets that reach `min_sup`. |
| `AprioriScript.MinedExactly` | EXP7_Apriori.py:72-114 | Steps 1 to 3 list exactly the non-empty itemsets of the items that reach `min_sup`. |
| `AprioriScript.ItemsetRules` | EXP7_Apriori.py:127-153 | For one itemset of more than one item, the rules are, as a bag, exactly `RulesFor`: the rule {x} -> itemset - {x} for every item x whose confidence reaches `min_conf`. |
| `AprioriScript.ScriptRules` | EXP7_Apriori.py:125-153 | The rules of all listed itemsets form `RuleBag`: every listed copy of an itemset contributes its rules again. |
| `AprioriScript.Script` | EXP7_Apriori.py:72-153 | The whole script lists exactly the `Mined` itemsets and prints exactly `RuleBag` of them. |
| `AprioriScript.ScriptRuleShape` | EXP7_Apriori.py:129-149 | A printed rule has antecedent {x} for an item x of the itemset, and consequent the non-empty rest. Its support is count / n. Its confidence equals count(itemset) / count({x}), reaches `min_conf`, and is at most 1. |
| `AprioriScript.RuleForPrinted` | EXP7_Apriori.py:138-149 | The rule for item x is printed if and only if count(itemset) / count({x}) reaches `min_conf`. |
| `AprioriScript.RuleBagCount` | EXP7_Apriori.py:125-131 | A rule is printed once for every position of the list whose itemset produces it. |
| `AprioriScriptExample.JoinKeepsDuplicates` | EXP7_Apriori.py:94-102 | {1,2}, {1,3} and {2,3} produce the candidate {1,2,3} three times. |
| `AprioriScriptExample.ScriptDoesNotPrune` | EXP7_Apriori.py:94-102 | {1,2} and {1,3} produce {1,2,3} in the script, although `generate_candidates` prunes it. |
| `AprioriScriptExample.ZeroThresholdDiffers` | EXP7_Apriori.py:83-86 | With `min_sup` 0 the script reports an itemset that no transaction contains, and `apriori` does not. |
| `DecisionTree.SplitData` | EXP11_DecisionTree.py:106-107 | The subset is no longer than the data, and has only rows of the data with that value. |
| `DecisionTree.SplitDataMembers` | EXP11_DecisionTree.py:106-107 | A row is in the subset if and only if it is a row of the data with that value. |
| `DecisionTree.SplitDataCopies` | EXP11_DecisionTree.py:106-107 | Every copy of a matching row is kept, and no copy of any other row. |
| `DecisionTree.SplitDataConcat` | EXP11_DecisionTree.py:106-107 | Splitting distributes over concatenation, so the kept rows stay in their original order. |
| `DecisionTree.ValuesOf` | EXP11_DecisionTree.py:126 | Every row's value of the attribute is among the values, and there are no more values than rows. |
| `DecisionTree.ValuesOfSplits` | EXP11_DecisionTree.py:126-129 | Every value found has a non-empty split, so no subtree is built from no rows. |
| `DecisionTree.CountYes` | EXP11_DecisionTree.py:118 | `count_yes` is at most the number of rows. |
| `DecisionTree.CountYesIsSplit` | EXP11_DecisionTree.py:118 | `count_yes` is the number of rows whose class is "yes". |
| `DecisionTree.BestAttribute` | EXP11_DecisionTree.py:122-123 | The choice is one of the attributes. |
| `DecisionTree.BestAttributeIsFirstMaximum` | EXP11_DecisionTree.py:122-123 | The choice has the highest gain, and every attribute listed before it has a strictly lower gain. This is what `max` with a key returns. |
| `DecisionTree.Remove` | EXP11_DecisionTree.py:130 | The remaining attributes are exactly the others, and the list shrinks when the chosen one was present. |
| `DecisionTree.RemoveConcat` | EXP11_DecisionTree.py:130 | Removal distributes over concatenation, so the remaining attributes keep their order. |
| `DecisionTree.BuildTree` | EXP11_DecisionTree.py:110-133 | The tree built is `Id3` of the rows and attributes. |
| `DecisionTree.BuildBranches` | EXP11_DecisionTree.py:124-132 | The loop fills `tree[best]` with exactly one entry per value that occurs, each the tree of the matching rows over the remaining attributes. |
| `DecisionTree.Id3LeafRules` | EXP11_DecisionTree.py:111-119 | "yes" when every row says yes, which by itself covers no rows at all. Otherwise "no" when every row says no. Otherwise, with no attributes left, "yes" exactly when `count_yes >= len(data) / 2`, so ties go to "yes". A node in every other case. |
| `DecisionTree.Id3NodeShape` | EXP11_DecisionTree.py:121-132 | A node tests the best attribute, and its branch keys are exactly the values of it among the rows. Each child is the tree of a non-empty subset over the attributes without the chosen one. |
| `DecisionTree.Id3LeavesYesNo` | EXP11_DecisionTree.py:110-133 | Every leaf of the built tree is "yes" or "no". |
| `DecisionTree.Id3TestsWithin` | EXP11_DecisionTree.py:129-131 | The tree tests only the given attributes, and never the same attribute twice on one path. |
| `DecisionTree.HeightBound` | EXP11_DecisionTree.py:129-131 | Such a tree is no deeper than the number of attributes. |
| `DecisionTree.Predict` | EXP11_DecisionTree.py:150-163 | An answer is the outcome of some leaf of the tree, or "no" for a value the tree has no branch for. No answer, the `KeyError` of a missing attribute, happens only at a node. |
| `DecisionTree.PredictDefined` | EXP11_DecisionTree.py:150-163 | On an instance that has every attribute the tree may test, `predict` answers "yes" or "no" and never raises `KeyError`. |
| `DecisionTree.Id3PredictDefined` | EXP11_DecisionTree.py:150-163 | On an instance with all the attributes, prediction from the built tree is "yes" or "no". |
| `DecisionTree.Id3FitsTraining` | EXP11_DecisionTree.py:110-163 | On rows whose classes are "yes"/"no" and where rows agreeing on every attribute agree on the class, the built tree predicts each row's own class. |

## Left out

- Printing is not modelled:
  - apriori.py:72-80
  - EXP7_Apriori.py:116-119 and 150-153
  - `display_tree`, EXP11_DecisionTree.py:136-147

  The script's rules are stated as the records it would print.
- Loading the data is not modelled: `pd.read_csv` at EXP7_Apriori.py:69-70, and `load_data` at EXP11_DecisionTree.py:65-72. `get_user_input` and `main` (EXP11_DecisionTree.py:166-190) are I/O. Transactions and rows are parameters. pandas values such as NaN in short rows are not modelled. Nor is the `None` that `csv.DictReader` (EXP11_DecisionTree.py:69) puts in the missing fields of a short row (its `restval`): a row is a `map<string, string>`, which cannot hold it.
- `entropy` and `information_gain` (EXP11_DecisionTree.py:75-103) compute floating-point logarithms. They are a parameter `gain` that scores an attribute on some rows. Only the order it induces matters to the tree.
- Floating point: shares and confidences are exact reals. Python compares IEEE doubles, which can round a ratio across the threshold.
- Iteration order of Python sets and dicts is left open. Rule lists are stated by membership (`apriori.py`) or as a multiset (`EXP7_Apriori.py`), not in order.
- `min_support` of 0 or below is accepted by `apriori.py`, not rejected; the model follows the code. The table still holds only itemsets that some transaction contains, because a count is created by its first increment.
- Apriori.GetFrequentItemsets: takes the transactions as sets, as `apriori` passes them. Called directly on a list with a repeated item, the Python function would count that item twice in one transaction.
- AprioriScript.ItemsetRules: requires every item of the itemset to occur in some transaction. Otherwise the Python division by `antecedent_support` raises `ZeroDivisionError`, which is not modelled. The script's own mining only passes such itemsets.
- DecisionTree.BuildTree: requires every row to have the class column and every attribute, as the rows of a CSV reader do. The `KeyError` on a missing column is not modelled. A missing attribute of the instance in `predict` is modelled as `None`.
