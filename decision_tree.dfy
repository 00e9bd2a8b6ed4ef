/**
 * The discrete part of the ID3 decision tree: splitting rows on an
 * attribute value, building the tree (leaf rules, majority vote, choice
 * of the best attribute, one branch per value that occurs), and walking
 * the tree to predict the class of an instance. The information-gain score
 * is a parameter: only the order it induces on attributes matters here.
 */
module DecisionTree {

  datatype Option<T> = None | Some(value: T)

  /** A row as csv.DictReader returns it: column name to text. */
  type Row = map<string, string>

  /** The column that holds the class label. */
  const ClassKey := "class_buys_computer"

  /**
   * A leaf is a class label; a node is the dict {attribute: {value: subtree}},
   * whose single key is the attribute tested there.
   */
  datatype Tree = Leaf(outcome: string) | Node(attribute: string, branches: map<string, Tree>)

  /** The information-gain score of an attribute on some rows. */
  type Gain = (seq<Row>, string) -> real

  /** Every row has the class column and every attribute in `attributes`. */
  ghost predicate WellFormed(data: seq<Row>, attributes: seq<string>)
  {
    forall r | r in data :: ClassKey in r && forall a | a in attributes :: a in r
  }

  // ---------------------------------------------------------------------------
  // split_data

  /** `[row for row in data if row[attribute] == value]`. */
  function SplitData(data: seq<Row>, attribute: string, value: string): (subset: seq<Row>)
    requires forall r | r in data :: attribute in r
    ensures |subset| <= |data|
    ensures forall r | r in subset :: r in data && r[attribute] == value
  {
    if data == [] then []
    else
      var rest := SplitData(data[..|data| - 1], attribute, value);
      var r := data[|data| - 1];
      if r[attribute] == value then rest + [r] else rest
  }

  /** Each copy of a matching row is kept and each copy of any other row is dropped. */
  lemma {:induction false} SplitDataCopies(data: seq<Row>, attribute: string, value: string)
    requires forall r | r in data :: attribute in r
    ensures forall r | r in data :: multiset(SplitData(data, attribute, value))[r]
                                    == if r[attribute] == value then multiset(data)[r] else 0
    ensures forall r | r !in data :: multiset(SplitData(data, attribute, value))[r] == 0
  {
    if data != [] {
      var init := data[..|data| - 1];
      var last := data[|data| - 1];
      assert data == init + [last];
      assert forall r | r in init :: r in data;
      SplitDataCopies(init, attribute, value);
    }
  }

  /** The matching rows keep their order: splitting distributes over concatenation. */
  lemma {:induction false} SplitDataConcat(a: seq<Row>, b: seq<Row>, attribute: string, value: string)
    requires forall r | r in a + b :: attribute in r
    ensures SplitData(a + b, attribute, value) == SplitData(a, attribute, value) + SplitData(b, attribute, value)
    decreases |b|
  {
    assert forall r | r in a :: r in a + b;
    assert forall r | r in b :: r in a + b;
    if b != [] {
      var init := b[..|b| - 1];
      assert (a + b)[..|a + b| - 1] == a + init;
      assert forall r | r in a + init :: r in a + b;
      SplitDataConcat(a, init, attribute, value);
    } else {
      assert a + b == a;
    }
  }

  /** A row is in the split exactly when it is a row of the data with that value. */
  lemma SplitDataMembers(data: seq<Row>, attribute: string, value: string)
    requires forall r | r in data :: attribute in r
    ensures forall r :: r in SplitData(data, attribute, value) <==> r in data && r[attribute] == value
  {
    SplitDataCopies(data, attribute, value);
    forall r | r in data && r[attribute] == value ensures r in SplitData(data, attribute, value) {
      assert multiset(data)[r] > 0;
    }
  }

  // ---------------------------------------------------------------------------
  // build_tree

  /**
   * The values of `attribute` that occur in the rows,
   * `set(row[attribute] for row in data)`: every row's value, and no more
   * values than rows.
   */
  function ValuesOf(data: seq<Row>, attribute: string): (values: set<string>)
    requires forall r | r in data :: attribute in r
    ensures forall r | r in data :: r[attribute] in values
    ensures |values| <= |data|
  {
    ValuesOfRows(data, attribute);
    set r | r in data :: r[attribute]
  }

  lemma {:induction false} ValuesOfRows(data: seq<Row>, attribute: string)
    requires forall r | r in data :: attribute in r
    ensures |set r | r in data :: r[attribute]| <= |data|
    decreases |data|
  {
    if data != [] {
      var init := data[..|data| - 1];
      var last := data[|data| - 1];
      assert forall r | r in init :: r in data;
      ValuesOfRows(init, attribute);
      assert forall r | r in data :: r in init || r == last;
      assert (set r | r in data :: r[attribute]) == (set r | r in init :: r[attribute]) + {last[attribute]};
    }
  }

  /** Every value found among the rows is the value of some row: its split is not empty. */
  lemma ValuesOfSplits(data: seq<Row>, attribute: string)
    requires forall r | r in data :: attribute in r
    ensures forall v | v in ValuesOf(data, attribute) :: SplitData(data, attribute, v) != []
  {
    forall v | v in ValuesOf(data, attribute) ensures SplitData(data, attribute, v) != [] {
      var r :| r in data && r[attribute] == v;
      SplitDataMembers(data, attribute, v);
      assert r in SplitData(data, attribute, v);
    }
  }

  /** `sum(1 for row in data if row['class_buys_computer'] == 'yes')`. */
  function CountYes(data: seq<Row>): (n: nat)
    requires forall r | r in data :: ClassKey in r
    ensures n <= |data|
  {
    if data == [] then 0
    else CountYes(data[..|data| - 1]) + (if data[|data| - 1][ClassKey] == "yes" then 1 else 0)
  }

  predicate AllHaveClass(data: seq<Row>, outcome: string)
    requires forall r | r in data :: ClassKey in r
  {
    forall r | r in data :: r[ClassKey] == outcome
  }

  /**
   * `max(gains, key=lambda x: x[1])[0]`: the attribute of highest gain, the
   * first one in list order when several tie.
   */
  function BestAttribute(data: seq<Row>, attributes: seq<string>, gain: Gain): (best: string)
    requires |attributes| > 0
    ensures best in attributes
  {
    if |attributes| == 1 then attributes[0]
    else
      var rest := BestAttribute(data, attributes[1..], gain);
      if gain(data, rest) > gain(data, attributes[0]) then rest else attributes[0]
  }

  /** The choice has the highest gain, and every attribute before it has a strictly lower one. */
  lemma {:induction false} BestAttributeIsFirstMaximum(data: seq<Row>, attributes: seq<string>, gain: Gain) returns (i: int)
    requires |attributes| > 0
    ensures 0 <= i < |attributes| && attributes[i] == BestAttribute(data, attributes, gain)
    ensures forall a | a in attributes :: gain(data, a) <= gain(data, attributes[i])
    ensures forall j | 0 <= j < i :: gain(data, attributes[j]) < gain(data, attributes[i])
  {
    if |attributes| == 1 {
      i := 0;
    } else {
      var tail := attributes[1..];
      var k := BestAttributeIsFirstMaximum(data, tail, gain);
      assert forall a | a in attributes :: a == attributes[0] || a in tail;
      if gain(data, tail[k]) > gain(data, attributes[0]) {
        i := k + 1;
        assert forall j | 1 <= j < i :: attributes[j] == tail[j - 1];
      } else {
        i := 0;
      }
    }
  }

  /** `[attr for attr in attributes if attr != best_attribute]`. */
  function Remove(attributes: seq<string>, a: string): (rest: seq<string>)
    ensures forall b :: b in rest <==> b in attributes && b != a
    ensures a in attributes ==> |rest| < |attributes|
    ensures |rest| <= |attributes|
  {
    if attributes == [] then []
    else
      var init := Remove(attributes[..|attributes| - 1], a);
      var last := attributes[|attributes| - 1];
      assert forall b | b in attributes :: b in attributes[..|attributes| - 1] || b == last;
      if last == a then init else init + [last]
  }

  /** The other attributes keep their order: removal distributes over concatenation. */
  lemma {:induction false} RemoveConcat(xs: seq<string>, ys: seq<string>, a: string)
    ensures Remove(xs + ys, a) == Remove(xs, a) + Remove(ys, a)
    decreases |ys|
  {
    if ys == [] {
      assert xs + ys == xs;
    } else {
      var init := ys[..|ys| - 1];
      assert (xs + ys)[..|xs + ys| - 1] == xs + init;
      RemoveConcat(xs, init, a);
    }
  }

  /** The tree build_tree returns. */
  ghost function Id3(data: seq<Row>, attributes: seq<string>, gain: Gain): Tree
    requires WellFormed(data, attributes)
    decreases |attributes|
  {
    if AllHaveClass(data, "yes") then Leaf("yes")
    else if AllHaveClass(data, "no") then Leaf("no")
    else if attributes == [] then Leaf(if 2 * CountYes(data) >= |data| then "yes" else "no")
    else
      var best := BestAttribute(data, attributes, gain);
      var remaining := Remove(attributes, best);
      SplitWellFormed(data, attributes, best, remaining);
      Node(best, map v | v in ValuesOf(data, best) :: Id3(SplitData(data, best, v), remaining, gain))
  }

  /** The rows of a split still have the class column and every remaining attribute. */
  lemma SplitWellFormed(data: seq<Row>, attributes: seq<string>, best: string, remaining: seq<string>)
    requires WellFormed(data, attributes) && best in attributes
    requires forall b | b in remaining :: b in attributes
    ensures forall v :: WellFormed(SplitData(data, best, v), remaining)
  {
  }

  /**
   * build_tree: a leaf when the rows agree on the class or no attribute is
   * left, otherwise a node on the best attribute with one subtree per value
   * of it in the rows, each built from the matching rows and the other
   * attributes.
   */
  method BuildTree(data: seq<Row>, attributes: seq<string>, gain: Gain) returns (tree: Tree)
    requires WellFormed(data, attributes)
    ensures tree == Id3(data, attributes, gain)
    decreases |attributes|, 1
  {
    if AllHaveClass(data, "yes") {
      return Leaf("yes");
    }
    if AllHaveClass(data, "no") {
      return Leaf("no");
    }
    if attributes == [] {
      var countYes := CountYes(data);
      return Leaf(if 2 * countYes >= |data| then "yes" else "no");
    }
    var best := BestAttribute(data, attributes, gain);
    var branches := BuildBranches(data, attributes, best, gain);
    tree := Node(best, branches);
  }

  /** The loop of build_tree that fills `tree[best_attribute]`, one value at a time. */
  method BuildBranches(data: seq<Row>, attributes: seq<string>, best: string, gain: Gain)
    returns (branches: map<string, Tree>)
    requires WellFormed(data, attributes) && best in attributes
    ensures branches == map v | v in ValuesOf(data, best) :: Id3(SplitData(data, best, v), Remove(attributes, best), gain)
    decreases |attributes|, 0
  {
    branches := map[];
    var values := ValuesOf(data, best);
    var remaining := Remove(attributes, best);
    SplitWellFormed(data, attributes, best, remaining);
    ghost var done: set<string> := {};
    while values != {}
      invariant values <= ValuesOf(data, best) && done == ValuesOf(data, best) - values
      invariant branches.Keys == done
      invariant forall v | v in done :: branches[v] == Id3(SplitData(data, best, v), remaining, gain)
      decreases values
    {
      var value :| value in values;
      var subset := SplitData(data, best, value);
      var subtree := BuildTree(subset, remaining, gain);
      branches := branches[value := subtree];
      values := values - {value};
      done := done + {value};
    }
  }

  /** `count_yes` is the number of rows that the class split on "yes" keeps. */
  lemma {:induction false} CountYesIsSplit(data: seq<Row>)
    requires forall r | r in data :: ClassKey in r
    ensures CountYes(data) == |SplitData(data, ClassKey, "yes")|
  {
    if data != [] {
      var init := data[..|data| - 1];
      assert forall r | r in init :: r in data;
      CountYesIsSplit(init);
    }
  }

  /**
   * The leaf rules of build_tree: "yes" when every row says "yes" (so also
   * on no rows at all), otherwise "no" when every row says "no", otherwise
   * with no attribute left the majority, ties going to "yes"; in every other
   * case a node.
   */
  lemma Id3LeafRules(data: seq<Row>, attributes: seq<string>, gain: Gain)
    requires WellFormed(data, attributes)
    ensures data == [] ==> Id3(data, attributes, gain) == Leaf("yes")
    ensures AllHaveClass(data, "yes") ==> Id3(data, attributes, gain) == Leaf("yes")
    ensures !AllHaveClass(data, "yes") && AllHaveClass(data, "no") ==> Id3(data, attributes, gain) == Leaf("no")
    ensures !AllHaveClass(data, "yes") && !AllHaveClass(data, "no") && attributes == [] ==>
              Id3(data, attributes, gain)
              == Leaf(if CountYes(data) as real >= |data| as real / 2.0 then "yes" else "no")
    ensures Id3(data, attributes, gain).Node? <==>
              !AllHaveClass(data, "yes") && !AllHaveClass(data, "no") && attributes != []
  {
  }

  /**
   * A node tests the best attribute; its branches are exactly the values of
   * that attribute among the rows, and each child is the tree of the
   * non-empty set of matching rows over the other attributes.
   */
  lemma Id3NodeShape(data: seq<Row>, attributes: seq<string>, gain: Gain)
    requires WellFormed(data, attributes)
    requires Id3(data, attributes, gain).Node?
    ensures attributes != []
    ensures Id3(data, attributes, gain).attribute == BestAttribute(data, attributes, gain)
    ensures Id3(data, attributes, gain).branches.Keys == ValuesOf(data, BestAttribute(data, attributes, gain))
    ensures forall v | v in Id3(data, attributes, gain).branches ::
              var best := BestAttribute(data, attributes, gain);
              SplitData(data, best, v) != [] &&
              Id3(data, attributes, gain).branches[v] == Id3(SplitData(data, best, v), Remove(attributes, best), gain)
  {
    ValuesOfSplits(data, BestAttribute(data, attributes, gain));
  }

  // ---------------------------------------------------------------------------
  // What the tree looks like

  /** Every leaf is "yes" or "no". */
  ghost predicate LeavesYesNo(t: Tree)
  {
    match t
    case Leaf(outcome) => outcome == "yes" || outcome == "no"
    case Node(_, branches) => forall v | v in branches :: LeavesYesNo(branches[v])
  }

  /**
   * Every attribute tested on a path is one of `avail`, and no attribute is
   * tested again below a node that tests it.
   */
  ghost predicate TestsWithin(t: Tree, avail: set<string>)
  {
    match t
    case Leaf(_) => true
    case Node(a, branches) => a in avail && forall v | v in branches :: TestsWithin(branches[v], avail - {a})
  }

  /** No path has more than `n` nodes. */
  ghost predicate HeightAtMost(t: Tree, n: nat)
  {
    match t
    case Leaf(_) => true
    case Node(_, branches) => n > 0 && forall v | v in branches :: HeightAtMost(branches[v], n - 1)
  }

  lemma {:induction false} Id3LeavesYesNo(data: seq<Row>, attributes: seq<string>, gain: Gain)
    requires WellFormed(data, attributes)
    ensures LeavesYesNo(Id3(data, attributes, gain))
    decreases |attributes|
  {
    var t := Id3(data, attributes, gain);
    if t.Node? {
      var best := BestAttribute(data, attributes, gain);
      var remaining := Remove(attributes, best);
      forall v | v in t.branches ensures LeavesYesNo(t.branches[v]) {
        Id3LeavesYesNo(SplitData(data, best, v), remaining, gain);
      }
    }
  }

  /** The tree tests only the given attributes, and none twice on a path. */
  lemma {:induction false} Id3TestsWithin(data: seq<Row>, attributes: seq<string>, gain: Gain)
    requires WellFormed(data, attributes)
    ensures TestsWithin(Id3(data, attributes, gain), set a | a in attributes)
    decreases |attributes|
  {
    var t := Id3(data, attributes, gain);
    if t.Node? {
      var best := BestAttribute(data, attributes, gain);
      var remaining := Remove(attributes, best);
      assert (set a | a in remaining) == (set a | a in attributes) - {best};
      forall v | v in t.branches ensures TestsWithin(t.branches[v], (set a | a in attributes) - {best}) {
        Id3TestsWithin(SplitData(data, best, v), remaining, gain);
      }
    }
  }

  /** A tree that tests no attribute twice on a path is no deeper than the number of attributes. */
  lemma {:induction false} HeightBound(t: Tree, avail: set<string>)
    requires TestsWithin(t, avail)
    ensures HeightAtMost(t, |avail|)
    decreases t
  {
    if t.Node? {
      forall v | v in t.branches ensures HeightAtMost(t.branches[v], |avail| - 1) {
        HeightBound(t.branches[v], avail - {t.attribute});
      }
    }
  }

  // ---------------------------------------------------------------------------
  // predict

  /**
   * `predict`: a leaf gives its label; a node looks up the instance's value
   * of the tested attribute (None is the KeyError of an instance without
   * it) and follows that branch, or answers "no" when there is none.
   */
  function Predict(tree: Tree, instance: Row): (answer: Option<string>)
    ensures answer.None? ==> tree.Node?
    ensures answer.Some? ==> answer.value == "no" || HasLeaf(tree, answer.value)
  {
    match tree
    case Leaf(outcome) => Some(outcome)
    case Node(attribute, branches) =>
      if attribute !in instance then None
      else if instance[attribute] !in branches then Some("no")
      else Predict(branches[instance[attribute]], instance)
  }

  /** Some leaf of the tree carries `outcome`. */
  ghost predicate HasLeaf(t: Tree, outcome: string)
  {
    match t
    case Leaf(o) => o == outcome
    case Node(_, branches) => exists v | v in branches :: HasLeaf(branches[v], outcome)
  }

  /** An instance that has every tested attribute gets "yes" or "no", never the KeyError. */
  lemma {:induction false} PredictDefined(t: Tree, avail: set<string>, instance: Row)
    requires TestsWithin(t, avail) && LeavesYesNo(t)
    requires forall a | a in avail :: a in instance
    ensures Predict(t, instance) == Some("yes") || Predict(t, instance) == Some("no")
    decreases t
  {
    if t.Node? && t.attribute in instance && instance[t.attribute] in t.branches {
      PredictDefined(t.branches[instance[t.attribute]], avail - {t.attribute}, instance);
    }
  }

  /** On an instance with all the attributes, the built tree answers "yes" or "no". */
  lemma Id3PredictDefined(data: seq<Row>, attributes: seq<string>, gain: Gain, instance: Row)
    requires WellFormed(data, attributes)
    requires forall a | a in attributes :: a in instance
    ensures Predict(Id3(data, attributes, gain), instance) == Some("yes")
         || Predict(Id3(data, attributes, gain), instance) == Some("no")
  {
    Id3TestsWithin(data, attributes, gain);
    Id3LeavesYesNo(data, attributes, gain);
    PredictDefined(Id3(data, attributes, gain), (set a | a in attributes), instance);
  }

  // ---------------------------------------------------------------------------
  // The tree reproduces consistent training data

  predicate Agree(r1: Row, r2: Row, attributes: seq<string>)
    requires forall a | a in attributes :: a in r1 && a in r2
  {
    forall a | a in attributes :: r1[a] == r2[a]
  }

  /** Rows that agree on every attribute have the same class, and every class is "yes" or "no". */
  ghost predicate Consistent(data: seq<Row>, attributes: seq<string>)
  {
    && WellFormed(data, attributes)
    && (forall r | r in data :: r[ClassKey] == "yes" || r[ClassKey] == "no")
    && forall r1, r2 | r1 in data && r2 in data && Agree(r1, r2, attributes) :: r1[ClassKey] == r2[ClassKey]
  }

  /** With no attribute to tell rows apart, consistent rows all have one class. */
  lemma NoAttributesLeft(data: seq<Row>)
    requires Consistent(data, [])
    ensures AllHaveClass(data, "yes") || AllHaveClass(data, "no")
  {
    if !AllHaveClass(data, "yes") {
      var r1 :| r1 in data && r1[ClassKey] != "yes";
      forall r | r in data ensures r[ClassKey] == "no" {
        assert Agree(r, r1, []);
      }
    }
  }

  /** The rows with one value of the tested attribute are consistent over the other attributes. */
  lemma SplitConsistent(data: seq<Row>, attributes: seq<string>, best: string, v: string)
    requires Consistent(data, attributes) && best in attributes
    ensures Consistent(SplitData(data, best, v), Remove(attributes, best))
  {
    var subset := SplitData(data, best, v);
    var remaining := Remove(attributes, best);
    forall r1, r2 | r1 in subset && r2 in subset && Agree(r1, r2, remaining)
      ensures r1[ClassKey] == r2[ClassKey]
    {
      assert Agree(r1, r2, attributes);
    }
  }

  /** Built from consistent rows, the tree predicts each training row's own class. */
  lemma {:induction false} Id3FitsTraining(data: seq<Row>, attributes: seq<string>, gain: Gain, r: Row)
    requires Consistent(data, attributes) && r in data
    ensures Predict(Id3(data, attributes, gain), r) == Some(r[ClassKey])
    decreases |attributes|
  {
    if attributes == [] {
      NoAttributesLeft(data);
    } else if !AllHaveClass(data, "yes") && !AllHaveClass(data, "no") {
      var best := BestAttribute(data, attributes, gain);
      var remaining := Remove(attributes, best);
      var v := r[best];
      assert v in ValuesOf(data, best);
      SplitDataMembers(data, best, v);
      SplitConsistent(data, attributes, best, v);
      Id3FitsTraining(SplitData(data, best, v), remaining, gain, r);
    }
  }
}
