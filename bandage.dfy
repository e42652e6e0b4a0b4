/** The serialiser itself: every tree of a fitted ensemble is walked breadth-first with
    its node ids offset by the nodes of the trees before it, then the k-mer catalogs of
    the classes are joined against the features the splits used. */
module Bandage {
  import opened Wrappers
  import opened Seqs
  import opened Text
  import opened BandageRecords
  import opened BandageShape
  import opened BandageTree
  import opened BandageJoin

  // ---------------------------------------------------------------------------
  // Ensembles
  // ---------------------------------------------------------------------------

  /** The `prefix` after the given trees: the sum of their node counts. */
  function TotalNodes(trees: seq<ValidTree>): nat
    decreases |trees|
  {
    if |trees| == 0 then 0 else TotalNodes(trees[..|trees| - 1]) + trees[|trees| - 1].nodeCount
  }

  predicate AllWellFormed(trees: seq<ValidTree>, nFeatures: nat, nClasses: nat)
  {
    forall k :: 0 <= k < |trees| ==> WellFormed(trees[k], nFeatures, nClasses)
  }

  /** The records the tree loop writes: each tree's walk in turn, its ids offset by the
      node counts of the trees before it. */
  function EnsembleRecords(trees: seq<ValidTree>, featureNames: seq<string>, classes: seq<string>): seq<Record>
    requires AllWellFormed(trees, |featureNames|, |classes|)
    decreases |trees|
  {
    if |trees| == 0 then []
    else
      var front := trees[..|trees| - 1];
      EnsembleRecords(front, featureNames, classes)
        + Walk(trees[|trees| - 1], [0], TotalNodes(front), featureNames, classes)
  }

  /** The trees of a boosted ensemble, stage by stage (`for i in estimators_: for tc in i`). */
  function Flatten(stages: seq<seq<ValidTree>>): seq<ValidTree>
    decreases |stages|
  {
    if |stages| == 0 then [] else Flatten(stages[..|stages| - 1]) + stages[|stages| - 1]
  }

  /** Where stage `i` starts in the flattened sequence. */
  function Offset(stages: seq<seq<ValidTree>>, i: nat): nat
    requires i <= |stages|
  {
    |Flatten(stages[..i])|
  }

  /** Tree `j` of stage `i` is at position `Offset(stages, i) + j`: stage-major order. */
  lemma {:induction false} FlattenIndex(stages: seq<seq<ValidTree>>, i: nat, j: nat)
    requires i < |stages| && j < |stages[i]|
    ensures Offset(stages, i) + j < |Flatten(stages)|
    ensures Flatten(stages)[Offset(stages, i) + j] == stages[i][j]
    decreases |stages|
  {
    var front := stages[..|stages| - 1];
    if i == |stages| - 1 {
      assert stages[..i] == front;
    } else {
      assert front[..i] == stages[..i];
      FlattenIndex(front, i, j);
    }
  }

  /** Every tree of the flattened sequence belongs to some stage. */
  lemma {:induction false} FlattenMembers(stages: seq<seq<ValidTree>>, t: ValidTree)
    ensures t in Flatten(stages) <==> exists i :: 0 <= i < |stages| && t in stages[i]
    decreases |stages|
  {
    if |stages| > 0 {
      var front := stages[..|stages| - 1];
      FlattenMembers(front, t);
      if exists i :: 0 <= i < |front| && t in front[i] {
        var i :| 0 <= i < |front| && t in front[i];
        assert stages[i] == front[i];
      }
      forall i | 0 <= i < |front| ensures front[i] == stages[i] { }
    }
  }

  /** The trees of the first stages come first. */
  lemma {:induction false} FlattenPrefix(stages: seq<seq<ValidTree>>, n: nat)
    requires n <= |stages|
    ensures Flatten(stages[..n]) <= Flatten(stages)
    decreases |stages|
  {
    if n < |stages| {
      var front := stages[..|stages| - 1];
      assert front[..n] == stages[..n];
      FlattenPrefix(front, n);
    } else {
      assert stages[..n] == stages;
    }
  }

  /** The trees of a stage are trees of the flattened ensemble. */
  lemma StageWellFormed(stages: seq<seq<ValidTree>>, i: nat, nFeatures: nat, nClasses: nat)
    requires i < |stages| && AllWellFormed(Flatten(stages), nFeatures, nClasses)
    ensures AllWellFormed(stages[i], nFeatures, nClasses)
  {
    forall j | 0 <= j < |stages[i]| ensures WellFormed(stages[i][j], nFeatures, nClasses) {
      FlattenIndex(stages, i, j);
    }
  }

  lemma WellFormedConcat(a: seq<ValidTree>, b: seq<ValidTree>, nFeatures: nat, nClasses: nat)
    requires AllWellFormed(a, nFeatures, nClasses) && AllWellFormed(b, nFeatures, nClasses)
    ensures AllWellFormed(a + b, nFeatures, nClasses)
  {
    assert forall k :: 0 <= k < |a + b| ==> (a + b)[k] == if k < |a| then a[k] else b[k - |a|];
  }

  /** The last tree's walk comes after the records of the trees before it. */
  lemma EnsembleLast(trees: seq<ValidTree>, featureNames: seq<string>, classes: seq<string>)
    requires AllWellFormed(trees, |featureNames|, |classes|) && |trees| > 0
    ensures var front := trees[..|trees| - 1];
      && AllWellFormed(front, |featureNames|, |classes|)
      && TotalNodes(trees) == TotalNodes(front) + trees[|trees| - 1].nodeCount
      && EnsembleRecords(trees, featureNames, classes)
         == EnsembleRecords(front, featureNames, classes) + Walk(trees[|trees| - 1], [0], TotalNodes(front), featureNames, classes)
  {
  }

  /** Appending a tree appends its walk, offset by the nodes before it. */
  lemma EnsembleAppend(trees: seq<ValidTree>, t: ValidTree, featureNames: seq<string>, classes: seq<string>)
    requires AllWellFormed(trees, |featureNames|, |classes|) && WellFormed(t, |featureNames|, |classes|)
    ensures AllWellFormed(trees + [t], |featureNames|, |classes|)
    ensures TotalNodes(trees + [t]) == TotalNodes(trees) + t.nodeCount
    ensures EnsembleRecords(trees + [t], featureNames, classes)
         == EnsembleRecords(trees, featureNames, classes) + Walk(t, [0], TotalNodes(trees), featureNames, classes)
  {
    WellFormedConcat(trees, [t], |featureNames|, |classes|);
    assert (trees + [t])[..|trees|] == trees;
  }

  /** A record of a tree's walk is written by the tree loop. */
  lemma {:induction false} EnsembleHasWalk(trees: seq<ValidTree>, featureNames: seq<string>, classes: seq<string>, k: nat, r: Record)
    requires AllWellFormed(trees, |featureNames|, |classes|) && k < |trees|
    requires r in Walk(trees[k], [0], TotalNodes(trees[..k]), featureNames, classes)
    ensures r in EnsembleRecords(trees, featureNames, classes)
    decreases |trees|
  {
    var n := |trees| - 1;
    EnsembleLast(trees, featureNames, classes);
    var front := EnsembleRecords(trees[..n], featureNames, classes);
    var last := Walk(trees[n], [0], TotalNodes(trees[..n]), featureNames, classes);
    if k < n {
      TakeTake(trees, n, k);
      EnsembleHasWalk(trees[..n], featureNames, classes, k, r);
    } else {
      assert k == n;
    }
    InAppend(r, front, last);
  }

  /** A record written by the tree loop belongs to the walk of one of the trees. */
  lemma {:induction false} EnsembleFindWalk(trees: seq<ValidTree>, featureNames: seq<string>, classes: seq<string>, r: Record)
    returns (k: nat)
    requires AllWellFormed(trees, |featureNames|, |classes|)
    requires r in EnsembleRecords(trees, featureNames, classes)
    ensures k < |trees| && r in Walk(trees[k], [0], TotalNodes(trees[..k]), featureNames, classes)
    decreases |trees|
  {
    var n := |trees| - 1;
    EnsembleLast(trees, featureNames, classes);
    if r in EnsembleRecords(trees[..n], featureNames, classes) {
      k := EnsembleFindWalk(trees[..n], featureNames, classes, r);
      TakeTake(trees, n, k);
    } else {
      k := n;
    }
  }

  /** A record is written exactly when it belongs to the walk of one of the trees, offset
      by the trees before it. */
  lemma EnsembleBlocks(trees: seq<ValidTree>, featureNames: seq<string>, classes: seq<string>, r: Record)
    requires AllWellFormed(trees, |featureNames|, |classes|)
    ensures r in EnsembleRecords(trees, featureNames, classes) <==>
      exists k :: 0 <= k < |trees| && r in Walk(trees[k], [0], TotalNodes(trees[..k]), featureNames, classes)
  {
    if r in EnsembleRecords(trees, featureNames, classes) {
      var k := EnsembleFindWalk(trees, featureNames, classes, r);
    }
    if exists k :: 0 <= k < |trees| && r in Walk(trees[k], [0], TotalNodes(trees[..k]), featureNames, classes) {
      var k :| 0 <= k < |trees| && r in Walk(trees[k], [0], TotalNodes(trees[..k]), featureNames, classes);
      EnsembleHasWalk(trees, featureNames, classes, k, r);
    }
  }

  /** The ids of the trees before `k` all come below those of tree `k`. */
  lemma {:induction false} TotalNodesPrefix(trees: seq<ValidTree>, k: nat)
    requires k < |trees|
    ensures TotalNodes(trees[..k]) + trees[k].nodeCount <= TotalNodes(trees)
    decreases |trees|
  {
    var n := |trees| - 1;
    if k < n {
      TakeTake(trees, n, k);
      TotalNodesPrefix(trees[..n], k);
    }
  }

  /** Every record of the tree loop is about a node of the ensemble, and every split
      names children that come after it and inside the ensemble: the graph Bandage reads
      has no dangling or backward edges. */
  lemma EnsembleInRange(trees: seq<ValidTree>, featureNames: seq<string>, classes: seq<string>)
    requires AllWellFormed(trees, |featureNames|, |classes|)
    ensures forall r :: r in EnsembleRecords(trees, featureNames, classes) ==> InRange(r, 0, TotalNodes(trees))
  {
    forall r | r in EnsembleRecords(trees, featureNames, classes)
      ensures InRange(r, 0, TotalNodes(trees))
    {
      var k := EnsembleFindWalk(trees, featureNames, classes, r);
      WalkInRange(trees[k], [0], TotalNodes(trees[..k]), featureNames, classes);
      TotalNodesPrefix(trees, k);
    }
  }

  /** In an ensemble of real trees, every id below the total node count gets exactly one
      N record, and no other id gets one. */
  lemma {:induction false} EnsembleNodeIds(trees: seq<ValidTree>, featureNames: seq<string>, classes: seq<string>, y: nat)
    requires AllWellFormed(trees, |featureNames|, |classes|)
    requires forall k :: 0 <= k < |trees| ==> IsTree(trees[k])
    ensures multiset(IdsOf(EnsembleRecords(trees, featureNames, classes), NodeKind))[y]
         == if y < TotalNodes(trees) then 1 else 0
    decreases |trees|
  {
    if |trees| > 0 {
      var n := |trees| - 1;
      var front := trees[..n];
      EnsembleLast(trees, featureNames, classes);
      EnsembleNodeIds(front, featureNames, classes, y);
      IdsOfConcat(EnsembleRecords(front, featureNames, classes), Walk(trees[n], [0], TotalNodes(front), featureNames, classes), NodeKind);
      WalkNodeIdsExact(trees[n], TotalNodes(front), featureNames, classes, y);
    }
  }

  /** Along the whole tree loop, each N record is matched by one C record for the same
      id, in the same order, and the F records are exactly those of the splits. */
  lemma {:induction false} EnsembleNotes(trees: seq<ValidTree>, featureNames: seq<string>, classes: seq<string>)
    requires AllWellFormed(trees, |featureNames|, |classes|)
    ensures var recs := EnsembleRecords(trees, featureNames, classes);
      && IdsOf(recs, ClassKind) == IdsOf(recs, NodeKind)
      && IdsOf(recs, FeatureKind) == IdsOf(recs, InnerKind)
    decreases |trees|
  {
    if |trees| > 0 {
      var n := |trees| - 1;
      var front := trees[..n];
      EnsembleLast(trees, featureNames, classes);
      EnsembleNotes(front, featureNames, classes);
      var recs := EnsembleRecords(front, featureNames, classes);
      var walk := Walk(trees[n], [0], TotalNodes(front), featureNames, classes);
      WalkNoteIds(trees[n], [0], TotalNodes(front), featureNames, classes);
      IdsOfConcat(recs, walk, NodeKind);
      IdsOfConcat(recs, walk, ClassKind);
      IdsOfConcat(recs, walk, FeatureKind);
      IdsOfConcat(recs, walk, InnerKind);
    }
  }

  // ---------------------------------------------------------------------------
  // The printers
  // ---------------------------------------------------------------------------

  /** One pass of the FIFO loop: the N line of a node (with its children for a split),
      its C line, and for a split its F line and its registration; also what the node
      appends to the queue. */
  method EmitNode(t: ValidTree, nodeId: nat, prefix: nat, featureNames: seq<string>, classes: seq<string>,
                  out0: seq<Record>, features0: map<string, seq<nat>>)
    returns (out: seq<Record>, features: map<string, seq<nat>>, kids: seq<nat>)
    requires WellFormed(t, |featureNames|, |classes|) && nodeId < t.nodeCount
    requires features0 == RegistryOf(out0)
    ensures out == out0 + NodeRecords(t, nodeId, prefix, featureNames, classes)
    ensures features == RegistryOf(out)
    ensures kids == Children(t, nodeId)
  {
    out, features := out0, features0;
    assert NodeReadable(t, nodeId, |featureNames|, |classes|);
    var id := nodeId + prefix;
    if t.childrenLeft[nodeId] == t.childrenRight[nodeId] {
      kids := [];
      var value := LeafVector(t, nodeId);
      var className := classes[ArgMax(value)];
      RegistryAppend(out, LeafNode(id));
      out := out + [LeafNode(id)];
      RegistryAppend(out, ClassNote(id, className));
      out := out + [ClassNote(id, className)];
    } else {
      var childLeftId := Left(t, nodeId);
      var childRightId := Right(t, nodeId);
      kids := [childLeftId, childRightId];
      RegistryAppend(out, InnerNode(id, childLeftId + prefix, childRightId + prefix));
      out := out + [InnerNode(id, childLeftId + prefix, childRightId + prefix)];
      var feature := featureNames[t.feature[nodeId]];
      var threshold := t.threshold[nodeId];
      var classF := Split(feature, '_')[0];
      RegistryAppend(out, ClassNote(id, classF));
      out := out + [ClassNote(id, classF)];
      RegistryAppend(out, FeatureNote(id, feature, threshold));
      out := out + [FeatureNote(id, feature, threshold)];
      if feature in features {
        features := features[feature := features[feature] + [id]];
      } else {
        features := features[feature := [id]];
      }
    }
  }

  /** The FIFO loop over one tree, starting from the root. */
  method EmitTree(t: ValidTree, prefix: nat, featureNames: seq<string>, classes: seq<string>,
                  out0: seq<Record>, features0: map<string, seq<nat>>)
    returns (out: seq<Record>, features: map<string, seq<nat>>)
    requires WellFormed(t, |featureNames|, |classes|)
    requires features0 == RegistryOf(out0)
    ensures out == out0 + Walk(t, [0], prefix, featureNames, classes)
    ensures features == RegistryOf(out)
  {
    out, features := out0, features0;
    var nodeIds: seq<nat> := [0];
    ghost var whole := out0 + Walk(t, nodeIds, prefix, featureNames, classes);
    while |nodeIds| > 0
      invariant InTree(t, nodeIds)
      invariant out + Walk(t, nodeIds, prefix, featureNames, classes) == whole
      invariant features == RegistryOf(out)
      decreases Weight(t, nodeIds)
    {
      ghost var queue := nodeIds;
      ghost var before := out;
      var nodeId := nodeIds[0];
      var kids;
      out, features, kids := EmitNode(t, nodeId, prefix, featureNames, classes, out, features);
      nodeIds := nodeIds[1..] + kids;
      assert nodeIds == Next(t, queue);
      WalkAdvance(t, queue, nodeIds, prefix, featureNames, classes, before, out);
    }
  }

  /** One more pass of the tree loop appends the next tree's walk. */
  lemma EmitTreesNext(earlier: seq<ValidTree>, trees: seq<ValidTree>, j: nat, featureNames: seq<string>, classes: seq<string>)
    requires j < |trees|
    requires AllWellFormed(earlier + trees[..j], |featureNames|, |classes|) && AllWellFormed(trees, |featureNames|, |classes|)
    ensures WellFormed(trees[j], |featureNames|, |classes|)
    ensures AllWellFormed(earlier + trees[..j + 1], |featureNames|, |classes|)
    ensures TotalNodes(earlier + trees[..j + 1]) == TotalNodes(earlier + trees[..j]) + trees[j].nodeCount
    ensures EnsembleRecords(earlier + trees[..j + 1], featureNames, classes)
         == EnsembleRecords(earlier + trees[..j], featureNames, classes)
            + Walk(trees[j], [0], TotalNodes(earlier + trees[..j]), featureNames, classes)
  {
    var done := earlier + trees[..j];
    TakeNext(trees, j);
    AppendAssoc(earlier, trees[..j], [trees[j]]);
    EnsembleAppend(done, trees[j], featureNames, classes);
  }

  /** The loop over a sequence of trees (`for tc in ...`), continuing an ensemble whose
      `earlier` trees are already written. */
  method EmitTrees(trees: seq<ValidTree>, ghost earlier: seq<ValidTree>, prefix0: nat, featureNames: seq<string>, classes: seq<string>,
                   out0: seq<Record>, features0: map<string, seq<nat>>)
    returns (prefix: nat, out: seq<Record>, features: map<string, seq<nat>>)
    requires AllWellFormed(earlier, |featureNames|, |classes|) && AllWellFormed(trees, |featureNames|, |classes|)
    requires prefix0 == TotalNodes(earlier)
    requires out0 == EnsembleRecords(earlier, featureNames, classes) && features0 == RegistryOf(out0)
    ensures AllWellFormed(earlier + trees, |featureNames|, |classes|)
    ensures prefix == TotalNodes(earlier + trees)
    ensures out == EnsembleRecords(earlier + trees, featureNames, classes)
    ensures features == RegistryOf(out)
  {
    prefix, out, features := prefix0, out0, features0;
    assert earlier + trees[..0] == earlier;
    var j := 0;
    while j < |trees|
      invariant j <= |trees|
      invariant AllWellFormed(earlier + trees[..j], |featureNames|, |classes|)
      invariant prefix == TotalNodes(earlier + trees[..j])
      invariant out == EnsembleRecords(earlier + trees[..j], featureNames, classes)
      invariant features == RegistryOf(out)
    {
      EmitTreesNext(earlier, trees, j, featureNames, classes);
      out, features := EmitTree(trees[j], prefix, featureNames, classes, out, features);
      prefix := prefix + trees[j].nodeCount;
      j := j + 1;
    }
    assert trees[..j] == trees;
  }

  /** `printModelBase`: the tree loop over `estimators_`, then the catalog join. */
  method PrintModelBase(trees: seq<ValidTree>, featureNames: seq<string>, classes: seq<string>,
                        sourceDir: string, files: map<string, string>)
    returns (out: seq<Record>, missing: Option<string>)
    requires AllWellFormed(trees, |featureNames|, |classes|)
    ensures var walks := EnsembleRecords(trees, featureNames, classes);
      && out == walks + JoinAll(sourceDir, classes, files, RegistryOf(walks)).0
      && missing == JoinAll(sourceDir, classes, files, RegistryOf(walks)).1
  {
    var prefix, features;
    assert [] + trees == trees;
    prefix, out, features := EmitTrees(trees, [], 0, featureNames, classes, [], map[]);
    out, missing := EmitCatalogs(sourceDir, classes, files, features, out);
  }

  /** `printModelGradientBoosting`: the same, over the trees of every boosting stage in
      turn, with one running prefix. */
  method PrintModelGradientBoosting(stages: seq<seq<ValidTree>>, featureNames: seq<string>, classes: seq<string>,
                                    sourceDir: string, files: map<string, string>)
    returns (out: seq<Record>, missing: Option<string>)
    requires AllWellFormed(Flatten(stages), |featureNames|, |classes|)
    ensures var walks := EnsembleRecords(Flatten(stages), featureNames, classes);
      && out == walks + JoinAll(sourceDir, classes, files, RegistryOf(walks)).0
      && missing == JoinAll(sourceDir, classes, files, RegistryOf(walks)).1
  {
    var prefix := 0;
    var features: map<string, seq<nat>> := map[];
    out := [];
    var i := 0;
    while i < |stages|
      invariant 0 <= i <= |stages|
      invariant AllWellFormed(Flatten(stages[..i]), |featureNames|, |classes|)
      invariant prefix == TotalNodes(Flatten(stages[..i]))
      invariant out == EnsembleRecords(Flatten(stages[..i]), featureNames, classes)
      invariant features == RegistryOf(out)
    {
      TakeTake(stages, i + 1, i);
      StageWellFormed(stages, i, |featureNames|, |classes|);
      prefix, out, features := EmitTrees(stages[i], Flatten(stages[..i]), prefix, featureNames, classes, out, features);
      i := i + 1;
    }
    assert stages[..i] == stages;
    out, missing := EmitCatalogs(sourceDir, classes, files, features, out);
  }

  // ---------------------------------------------------------------------------
  // Choosing the printer
  // ---------------------------------------------------------------------------

  datatype ForestKind = RandomForest | GradientBoosting | AdaBoost

  /** `--type-of-forest`: 0, 1 and 2 name the three ensembles; any other number ends the
      run with exit status 2. */
  function ForestType(code: int): (k: Option<ForestKind>)
    ensures k.Some? <==> 0 <= code <= 2
  {
    if code < 0 || code > 2 then None
    else if code == 0 then Some(RandomForest)
    else if code == 1 then Some(GradientBoosting)
    else Some(AdaBoost)
  }

  /** The number a kind of ensemble is given on the command line. */
  function ForestCode(k: ForestKind): int
  {
    match k
    case RandomForest => 0
    case GradientBoosting => 1
    case AdaBoost => 2
  }

  /** The codes and the kinds correspond one to one. */
  lemma ForestTypeRoundTrip(code: int, k: ForestKind)
    ensures ForestType(ForestCode(k)) == Some(k)
    ensures ForestType(code) == Some(k) <==> code == ForestCode(k)
  {
  }

  /** A fitted ensemble as the printers see it: a random forest or AdaBoost holds a list
      of trees, gradient boosting a list of stages of trees. */
  datatype Model = Forest(trees: seq<ValidTree>) | Boosted(stages: seq<seq<ValidTree>>)

  /** The trees of an ensemble in the order the printers visit them. */
  function ModelTrees(model: Model): seq<ValidTree>
  {
    match model
    case Forest(trees) => trees
    case Boosted(stages) => Flatten(stages)
  }

  /** `buildAndPrintModel` for an ensemble already at hand: 1 selects the boosting
      printer, 0, 2 and every other code the base printer. Either way the output is the
      walk of every tree in visiting order followed by the catalog join. */
  method BuildAndPrintModel(typeOfForest: int, model: Model, featureNames: seq<string>, classes: seq<string>,
                            sourceDir: string, files: map<string, string>)
    returns (out: seq<Record>, missing: Option<string>)
    requires model.Boosted? <==> typeOfForest == 1
    requires AllWellFormed(ModelTrees(model), |featureNames|, |classes|)
    ensures var walks := EnsembleRecords(ModelTrees(model), featureNames, classes);
      && out == walks + JoinAll(sourceDir, classes, files, RegistryOf(walks)).0
      && missing == JoinAll(sourceDir, classes, files, RegistryOf(walks)).1
  {
    if typeOfForest == 0 {
      out, missing := PrintModelBase(model.trees, featureNames, classes, sourceDir, files);
    } else if typeOfForest == 1 {
      out, missing := PrintModelGradientBoosting(model.stages, featureNames, classes, sourceDir, files);
    } else {
      out, missing := PrintModelBase(model.trees, featureNames, classes, sourceDir, files);
    }
  }
}
