/** One fitted decision tree as the serialiser reads it: the `tree_` arrays of a
    scikit-learn estimator, indexed by local node id, and what it takes for the
    serialiser's reads of them to stay in bounds. */
module BandageShape {
  /** The arrays the serialiser reads. `threshold` is held in hundredths (the source
      formats a float with two decimals); `value[node][output][class]` is integral. */
  datatype Tree = Tree(
    childrenLeft: seq<int>,
    childrenRight: seq<int>,
    feature: seq<int>,
    threshold: seq<int>,
    nOutputs: nat,
    value: seq<seq<seq<int>>>,
    nodeCount: nat)

  /** Root 0 exists, every array has an entry per node, and the children of every split
      are numbered after it and inside the tree (scikit-learn numbers nodes in creation
      order). A node is a leaf when its two child entries are equal (both the -1
      sentinel). */
  predicate ValidNumbering(t: Tree)
  {
    && t.nodeCount > 0
    && |t.childrenLeft| == t.nodeCount
    && |t.childrenRight| == t.nodeCount
    && |t.feature| == t.nodeCount
    && |t.threshold| == t.nodeCount
    && |t.value| == t.nodeCount
    && forall n :: 0 <= n < t.nodeCount ==> ChildrenAfter(t, n)
  }

  /** The trees scikit-learn builds: a single leaf is the smallest. */
  type ValidTree = t: Tree | ValidNumbering(t) witness Tree([-1], [-1], [-2], [-200], 1, [[[0]]], 1)

  /** Node `n` is a leaf, or both its children are numbered after it inside the tree. */
  predicate ChildrenAfter(t: Tree, n: nat)
    requires n < |t.childrenLeft| && n < |t.childrenRight|
  {
    t.childrenLeft[n] != t.childrenRight[n] ==>
      n < t.childrenLeft[n] < t.nodeCount && n < t.childrenRight[n] < t.nodeCount
  }

  /** `tree.children_left[n] == tree.children_right[n]`. */
  predicate IsLeaf(t: ValidTree, n: nat)
    requires n < t.nodeCount
  {
    t.childrenLeft[n] == t.childrenRight[n]
  }

  function Left(t: ValidTree, n: nat): (c: nat)
    requires n < t.nodeCount && !IsLeaf(t, n)
    ensures n < c < t.nodeCount
  {
    assert ChildrenAfter(t, n);
    t.childrenLeft[n]
  }

  function Right(t: ValidTree, n: nat): (c: nat)
    requires n < t.nodeCount && !IsLeaf(t, n)
    ensures n < c < t.nodeCount && c != Left(t, n)
  {
    assert ChildrenAfter(t, n);
    t.childrenRight[n]
  }

  /** Node `n` has `nOutputs` value rows, none of them empty. */
  predicate ValueShape(t: Tree, n: nat)
  {
    && n < |t.value|
    && |t.value[n]| == t.nOutputs > 0
    && forall o :: 0 <= o < t.nOutputs ==> |t.value[n][o]| > 0
  }

  /** `tree.value[n][0]` for a single output, `tree.value[n].T[0]` otherwise. */
  function LeafVector(t: Tree, n: nat): (v: seq<int>)
    requires ValueShape(t, n)
    ensures |v| > 0
  {
    if t.nOutputs == 1 then t.value[n][0]
    else seq(t.nOutputs, o requires 0 <= o < t.nOutputs => t.value[n][o][0])
  }

  /** What the walk reads at node `n` is there: a split's feature indexes the feature
      names, and a leaf's argmax indexes the classes. */
  predicate NodeReadable(t: ValidTree, n: nat, nFeatures: nat, nClasses: nat)
    requires n < t.nodeCount
  {
    && ValueShape(t, n)
    && (!IsLeaf(t, n) ==> 0 <= t.feature[n] < nFeatures)
    && (IsLeaf(t, n) ==> |LeafVector(t, n)| <= nClasses)
  }

  /** Every node is readable. */
  predicate WellFormed(t: ValidTree, nFeatures: nat, nClasses: nat)
  {
    forall n :: 0 <= n < t.nodeCount ==> NodeReadable(t, n, nFeatures, nClasses)
  }

  /** `np.argmax(v)`: the first index holding the largest entry. */
  function ArgMax(v: seq<int>): (k: nat)
    requires |v| > 0
    ensures k < |v|
    ensures forall j :: 0 <= j < |v| ==> v[j] <= v[k]
    ensures forall j :: 0 <= j < k ==> v[j] < v[k]
    decreases |v|
  {
    if |v| == 1 then 0
    else
      var k := ArgMax(v[..|v| - 1]);
      if v[|v| - 1] > v[k] then |v| - 1 else k
  }

  /** `classes[np.argmax(value)]`: the class a leaf predicts is one of the classes. */
  function LeafClass(t: Tree, n: nat, classes: seq<string>): (c: string)
    requires ValueShape(t, n) && |LeafVector(t, n)| <= |classes|
    ensures c in classes
  {
    classes[ArgMax(LeafVector(t, n))]
  }
}
