/** Decision-tree and random-forest inference (src/classification.rs): a tree
    is walked from the root by threshold tests, and a forest takes the most
    frequent of its trees' predictions, truncated to integers. */
module Classification {
  import opened Common

  /** A node of a decision tree. */
  datatype DecisionNode =
    | Leaf(classPrediction: real)
    | Node(featureIndex: nat, threshold: real, left: DecisionNode, right: DecisionNode)

  /** The number of edges on the longest root-to-leaf path. */
  function Depth(node: DecisionNode): nat {
    match node
    case Leaf(_) => 0
    case Node(_, _, left, right) =>
      1 + (if Depth(left) >= Depth(right) then Depth(left) else Depth(right))
  }

  /** The class predictions stored at the leaves. */
  function LeafClasses(node: DecisionNode): set<real> {
    match node
    case Leaf(c) => {c}
    case Node(_, _, left, right) => LeafClasses(left) + LeafClasses(right)
  }

  /** Every feature index tested on the path that `features` takes is a
      valid index; otherwise the walk panics. */
  predicate PathInBounds(node: DecisionNode, features: seq<real>) {
    match node
    case Leaf(_) => true
    case Node(i, th, left, right) =>
      i < |features| &&
      if features[i] <= th then PathInBounds(left, features) else PathInBounds(right, features)
  }

  /** The prediction of the subtree: left when the feature is at most the
      threshold, right otherwise, down to a leaf. */
  function Eval(node: DecisionNode, features: seq<real>): (p: real)
    requires PathInBounds(node, features)
    ensures p in LeafClasses(node)
  {
    match node
    case Leaf(c) => c
    case Node(i, th, left, right) =>
      if features[i] <= th then Eval(left, features) else Eval(right, features)
  }

  /** The number of tests made on the way to the leaf. */
  function PathLength(node: DecisionNode, features: seq<real>): nat
    requires PathInBounds(node, features)
  {
    match node
    case Leaf(_) => 0
    case Node(i, th, left, right) =>
      1 + if features[i] <= th then PathLength(left, features) else PathLength(right, features)
  }

  /** A walk takes at most `Depth` steps. */
  lemma {:induction false} PathLengthAtMostDepth(node: DecisionNode, features: seq<real>)
    requires PathInBounds(node, features)
    ensures PathLength(node, features) <= Depth(node)
  {
    match node
    case Leaf(_) =>
    case Node(i, th, left, right) =>
      if features[i] <= th {
        PathLengthAtMostDepth(left, features);
      } else {
        PathLengthAtMostDepth(right, features);
      }
  }

  datatype DecisionTree = DecisionTree(root: DecisionNode) {
    /** `DecisionTree::predict`: moves a cursor down from the root until it
        reaches a leaf. `steps` counts the loop's iterations. */
    method Predict(features: seq<real>) returns (p: real, ghost steps: nat)
      requires PathInBounds(root, features)
      ensures p == Eval(root, features)
      ensures root.Leaf? ==> p == root.classPrediction
      ensures steps == PathLength(root, features) <= Depth(root)
    {
      var current := root;
      steps := 0;
      while current.Node?
        invariant PathInBounds(current, features)
        invariant Eval(current, features) == Eval(root, features)
        invariant steps + PathLength(current, features) == PathLength(root, features)
        decreases current
      {
        steps := steps + 1;
        if features[current.featureIndex] <= current.threshold {
          current := current.left;
        } else {
          current := current.right;
        }
      }
      PathLengthAtMostDepth(root, features);
      return current.classPrediction, steps;
    }
  }

  /** `prediction as i64` for a finite prediction: truncation toward zero. */
  function Trunc(x: real): (t: int)
    ensures x >= 0.0 ==> t as real <= x < t as real + 1.0
    ensures x < 0.0 ==> t as real - 1.0 < x <= t as real
  {
    if x >= 0.0 then x.Floor else -((-x).Floor)
  }

  predicate AllPathsInBounds(trees: seq<DecisionTree>, features: seq<real>) {
    forall t :: 0 <= t < |trees| ==> PathInBounds(trees[t].root, features)
  }

  /** The truncated prediction of every tree, in order. */
  function Votes(trees: seq<DecisionTree>, features: seq<real>): (v: seq<int>)
    requires AllPathsInBounds(trees, features)
    ensures |v| == |trees|
  {
    seq(|trees|, t requires 0 <= t < |trees| => Trunc(Eval(trees[t].root, features)))
  }

  /** `x` is a most frequent vote: some tree voted for it, and no value has
      more votes. */
  ghost predicate IsMajorityVote(trees: seq<DecisionTree>, features: seq<real>, x: real)
    requires AllPathsInBounds(trees, features)
  {
    var votes := Votes(trees, features);
    exists v :: x == v as real && v in votes &&
      forall k :: multiset(votes)[k] <= multiset(votes)[v]
  }

  /** When every tree casts the same vote, that vote is the only majority. */
  lemma UnanimousVote(trees: seq<DecisionTree>, features: seq<real>, v: int, x: real)
    requires AllPathsInBounds(trees, features)
    requires |trees| > 0 && forall t :: 0 <= t < |trees| ==> Trunc(Eval(trees[t].root, features)) == v
    requires IsMajorityVote(trees, features, x)
    ensures x == v as real
  {
    var votes := Votes(trees, features);
    var w :| x == w as real && w in votes && forall k :: multiset(votes)[k] <= multiset(votes)[w];
    var t :| 0 <= t < |votes| && votes[t] == w;
    assert votes[t] == v;
  }

  datatype RandomForest = RandomForest(trees: seq<DecisionTree>) {
    /** `RandomForest::predict`: every tree's prediction, a count per
        truncated value, then a value with the largest count. Which of
        several tied values wins depends on the hash map's iteration order,
        so the choice is left open. */
    method Predict(features: seq<real>) returns (r: Option<real>)
      requires AllPathsInBounds(trees, features)
      ensures r.None? <==> |trees| == 0
      ensures r.Some? ==> IsMajorityVote(trees, features, r.value)
    {
      if |trees| == 0 {
        return None;
      }
      var predictions: seq<real> := [];
      for t := 0 to |trees|
        invariant |predictions| == t
        invariant forall j :: 0 <= j < t ==> predictions[j] == Eval(trees[j].root, features)
      {
        var p;
        ghost var steps;
        p, steps := trees[t].Predict(features);
        predictions := predictions + [p];
      }
      var counts := CountVotes(predictions);
      ghost var votes := Votes(trees, features);
      assert Truncated(predictions) == votes;
      assert Truncated(predictions)[0] in multiset(Truncated(predictions));
      var best, bestCount := MaxByCount(counts, Truncated(predictions));
      forall k
        ensures multiset(votes)[k] <= multiset(votes)[best]
      {
        if k !in counts {
          assert multiset(votes)[k] == 0;
        }
      }
      return Some(best as real);
    }
  }

  /** Each prediction truncated to an integer. */
  function Truncated(predictions: seq<real>): (keys: seq<int>)
    ensures |keys| == |predictions| && forall j :: 0 <= j < |keys| ==> keys[j] == Trunc(predictions[j])
  {
    seq(|predictions|, j requires 0 <= j < |predictions| => Trunc(predictions[j]))
  }

  /** The count table: how many predictions truncate to each value. */
  method CountVotes(predictions: seq<real>) returns (counts: map<int, nat>)
    ensures forall k :: k in counts <==> k in multiset(Truncated(predictions))
    ensures forall k :: k in counts ==> counts[k] == multiset(Truncated(predictions))[k]
  {
    ghost var keys := Truncated(predictions);
    counts := map[];
    for t := 0 to |predictions|
      invariant forall k :: k in counts <==> k in multiset(keys[..t])
      invariant forall k :: k in counts ==> counts[k] == multiset(keys[..t])[k]
    {
      var key := Trunc(predictions[t]);
      assert keys[..t + 1] == keys[..t] + [key];
      counts := counts[key := (if key in counts then counts[key] else 0) + 1];
    }
    assert keys[..|predictions|] == keys;
  }

  /** `max_by_key` over the count table: visits the keys in the given
      order, which lists every key of the table (possibly more than once),
      and keeps the last key with the largest count. The hash map's own
      iteration order is not modelled; the result is only pinned down when
      one count is strictly largest. */
  method MaxByCount(counts: map<int, nat>, order: seq<int>) returns (best: int, bestCount: nat)
    requires |order| > 0
    requires forall j :: 0 <= j < |order| ==> order[j] in counts
    requires forall k :: k in counts ==> k in order
    ensures best in counts && counts[best] == bestCount
    ensures forall k :: k in counts ==> counts[k] <= bestCount
  {
    best, bestCount := order[0], counts[order[0]];
    for j := 1 to |order|
      invariant best in counts && counts[best] == bestCount
      invariant forall j' :: 0 <= j' < j ==> counts[order[j']] <= bestCount
    {
      var key := order[j];
      if counts[key] >= bestCount {
        best, bestCount := key, counts[key];
      }
    }
  }

  /** `random_forest_predict`: one prediction per feature row, NaN when the
      forest has no trees. */
  method RandomForestPredict(forest: RandomForest, rows: seq<seq<real>>) returns (out: seq<Float>)
    requires forall i :: 0 <= i < |rows| ==> AllPathsInBounds(forest.trees, rows[i])
    ensures |out| == |rows|
    ensures forall i :: 0 <= i < |rows| ==> (out[i] == NaN <==> |forest.trees| == 0)
    ensures forall i :: 0 <= i < |rows| && out[i].Num? ==> IsMajorityVote(forest.trees, rows[i], out[i].v)
  {
    out := [];
    for i := 0 to |rows|
      invariant |out| == i
      invariant forall j :: 0 <= j < i ==> (out[j] == NaN <==> |forest.trees| == 0)
      invariant forall j :: 0 <= j < i && out[j].Num? ==> IsMajorityVote(forest.trees, rows[j], out[j].v)
    {
      var r := forest.Predict(rows[i]);
      var value := match r case Some(v) => Num(v) case None => NaN;
      out := out + [value];
    }
  }
}
