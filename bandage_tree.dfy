/** The records one node of a tree writes, and the breadth-first walk over a tree with
    its node ids offset by a prefix. */
module BandageTree {
  import opened Seqs
  import opened Text
  import opened BandageRecords
  import opened BandageShape

  /** The records node `n` writes, with every id offset by `prefix`: a leaf writes N and
      its predicted class; a split writes N with its children, the category of its
      feature (the text before the first '_') as C, and F with feature and threshold. */
  function NodeRecords(t: ValidTree, n: nat, prefix: nat, featureNames: seq<string>, classes: seq<string>): (block: seq<Record>)
    requires WellFormed(t, |featureNames|, |classes|) && n < t.nodeCount
    ensures IsLeaf(t, n) ==>
      && |block| == 2
      && block[0] == LeafNode(n + prefix)
      && block[1].ClassNote? && block[1].id == n + prefix && block[1].className in classes
    ensures !IsLeaf(t, n) ==>
      && |block| == 3
      && block[0] == InnerNode(n + prefix, Left(t, n) + prefix, Right(t, n) + prefix)
      && block[2].FeatureNote? && block[2].id == n + prefix
      && block[2].feature in featureNames && block[2].threshold == t.threshold[n]
      && block[1] == ClassNote(n + prefix, Split(block[2].feature, '_')[0])
  {
    assert NodeReadable(t, n, |featureNames|, |classes|);
    var id := n + prefix;
    if IsLeaf(t, n) then
      [LeafNode(id), ClassNote(id, LeafClass(t, n, classes))]
    else
      var feature := featureNames[t.feature[n]];
      [InnerNode(id, Left(t, n) + prefix, Right(t, n) + prefix),
       ClassNote(id, Split(feature, '_')[0]),
       FeatureNote(id, feature, t.threshold[n])]
  }

  // ---------------------------------------------------------------------------
  // The FIFO walk
  // ---------------------------------------------------------------------------

  /** What a node appends to the queue: nothing for a leaf, left then right for a split. */
  function Children(t: ValidTree, n: nat): (kids: seq<nat>)
    requires n < t.nodeCount
    ensures |kids| == if IsLeaf(t, n) then 0 else 2
    ensures forall i :: 0 <= i < |kids| ==> n < kids[i] < t.nodeCount
  {
    if IsLeaf(t, n) then [] else [Left(t, n), Right(t, n)]
  }

  predicate InTree(t: ValidTree, queue: seq<nat>)
  {
    forall i :: 0 <= i < |queue| ==> queue[i] < t.nodeCount
  }

  /** The queue after one step: the head popped, its children appended. Less work is
      left in it. */
  function Next(t: ValidTree, queue: seq<nat>): (next: seq<nat>)
    requires InTree(t, queue) && |queue| > 0
    ensures InTree(t, next) && Weight(t, next) < Weight(t, queue)
  {
    WeightPop(t, queue);
    queue[1..] + Children(t, queue[0])
  }

  /** The number of nodes in the unfolding of the subtree at `n`. */
  function Size(t: ValidTree, n: nat): nat
    requires n < t.nodeCount
    decreases t.nodeCount - n
  {
    if IsLeaf(t, n) then 1 else 1 + Size(t, Left(t, n)) + Size(t, Right(t, n))
  }

  /** The work left in a queue: the total unfolded size of its entries. */
  function Weight(t: ValidTree, queue: seq<nat>): nat
    requires InTree(t, queue)
    decreases |queue|
  {
    if |queue| == 0 then 0 else Size(t, queue[0]) + Weight(t, queue[1..])
  }

  lemma {:induction false} WeightConcat(t: ValidTree, a: seq<nat>, b: seq<nat>)
    requires InTree(t, a) && InTree(t, b)
    ensures InTree(t, a + b) && Weight(t, a + b) == Weight(t, a) + Weight(t, b)
    decreases |a|
  {
    if |a| > 0 {
      assert (a + b)[1..] == a[1..] + b;
      WeightConcat(t, a[1..], b);
    } else {
      assert a + b == b;
    }
  }

  /** Popping the head and appending its children leaves strictly less work. */
  lemma WeightPop(t: ValidTree, queue: seq<nat>)
    requires InTree(t, queue) && |queue| > 0
    ensures var next := queue[1..] + Children(t, queue[0]);
      InTree(t, next) && Weight(t, next) < Weight(t, queue)
  {
    var kids := Children(t, queue[0]);
    assert InTree(t, queue[1..]);
    WeightConcat(t, queue[1..], kids);
    assert Weight(t, queue) == Size(t, queue[0]) + Weight(t, queue[1..]);
    if |kids| == 2 {
      assert kids[1..] == [kids[1]];
      assert kids[1..][1..] == [];
      assert Weight(t, kids[1..]) == Size(t, kids[1]) + Weight(t, kids[1..][1..]);
      assert Weight(t, kids) == Size(t, kids[0]) + Size(t, kids[1]);
    }
  }

  /** The records written while the queue drains: pop the head, write its records,
      append its children. `Walk(t, [0], prefix, ...)` is one tree's output. */
  function Walk(t: ValidTree, queue: seq<nat>, prefix: nat, featureNames: seq<string>, classes: seq<string>): seq<Record>
    requires WellFormed(t, |featureNames|, |classes|) && InTree(t, queue)
    decreases Weight(t, queue)
  {
    if |queue| == 0 then []
    else
      NodeRecords(t, queue[0], prefix, featureNames, classes)
        + Walk(t, Next(t, queue), prefix, featureNames, classes)
  }

  /** The walk writes the head's records, then walks the queue the head leaves behind. */
  lemma WalkStep(t: ValidTree, queue: seq<nat>, prefix: nat, featureNames: seq<string>, classes: seq<string>)
    requires WellFormed(t, |featureNames|, |classes|) && InTree(t, queue) && |queue| > 0
    ensures Walk(t, queue, prefix, featureNames, classes)
         == NodeRecords(t, queue[0], prefix, featureNames, classes) + Walk(t, Next(t, queue), prefix, featureNames, classes)
  {
  }

  /** One pass of the loop that computes the walk: after writing the head's records and
      replacing the head by its children, the rest of the walk is the walk of the new
      queue, and less work is left. */
  lemma WalkAdvance(t: ValidTree, queue: seq<nat>, next: seq<nat>, prefix: nat, featureNames: seq<string>, classes: seq<string>,
                    before: seq<Record>, after: seq<Record>)
    requires WellFormed(t, |featureNames|, |classes|) && InTree(t, queue) && |queue| > 0
    requires next == Next(t, queue)
    requires after == before + NodeRecords(t, queue[0], prefix, featureNames, classes)
    ensures after + Walk(t, next, prefix, featureNames, classes) == before + Walk(t, queue, prefix, featureNames, classes)
  {
    WalkStep(t, queue, prefix, featureNames, classes);
    AppendAssoc(before, NodeRecords(t, queue[0], prefix, featureNames, classes), Walk(t, next, prefix, featureNames, classes));
  }

  /** The local ids in the order the walk pops them. */
  function VisitOrder(t: ValidTree, queue: seq<nat>): (order: seq<nat>)
    requires InTree(t, queue)
    ensures InTree(t, order)
    decreases Weight(t, queue)
  {
    if |queue| == 0 then [] else [queue[0]] + VisitOrder(t, Next(t, queue))
  }

  lemma VisitStep(t: ValidTree, queue: seq<nat>)
    requires InTree(t, queue) && |queue| > 0
    ensures VisitOrder(t, queue) == [queue[0]] + VisitOrder(t, Next(t, queue))
  {
  }

  function Shift(s: seq<nat>, prefix: nat): (r: seq<nat>)
    ensures |r| == |s|
    decreases |s|
  {
    if |s| == 0 then [] else [s[0] + prefix] + Shift(s[1..], prefix)
  }

  lemma ShiftCons(x: nat, s: seq<nat>, prefix: nat)
    ensures Shift([x] + s, prefix) == [x + prefix] + Shift(s, prefix)
  {
    assert ([x] + s)[1..] == s;
  }

  lemma {:induction false} ShiftCount(s: seq<nat>, prefix: nat, y: nat)
    ensures multiset(Shift(s, prefix))[y] == if y < prefix then 0 else multiset(s)[y - prefix]
    decreases |s|
  {
    if |s| > 0 {
      ShiftCount(s[1..], prefix, y);
      assert multiset(Shift(s, prefix)) == multiset{s[0] + prefix} + multiset(Shift(s[1..], prefix));
      assert s == [s[0]] + s[1..];
      assert multiset(s) == multiset{s[0]} + multiset(s[1..]);
    }
  }

  lemma IdsOfTwo(a: Record, b: Record, k: Kind)
    ensures IdsOf([a, b], k) == IdOf(a, k) + IdOf(b, k)
  {
    assert [a, b][1..] == [b];
    assert [b][1..] == [];
  }

  lemma IdsOfThree(a: Record, b: Record, c: Record, k: Kind)
    ensures IdsOf([a, b, c], k) == IdOf(a, k) + IdOf(b, k) + IdOf(c, k)
  {
    assert [a, b, c][1..] == [b, c];
    IdsOfTwo(b, c, k);
  }

  /** The ids one node's block is about. */
  lemma BlockIds(t: ValidTree, n: nat, prefix: nat, featureNames: seq<string>, classes: seq<string>)
    requires WellFormed(t, |featureNames|, |classes|) && n < t.nodeCount
    ensures var block := NodeRecords(t, n, prefix, featureNames, classes);
      && IdsOf(block, NodeKind) == [n + prefix]
      && IdsOf(block, ClassKind) == [n + prefix]
      && IdsOf(block, FeatureKind) == IdsOf(block, InnerKind)
      && IdsOf(block, InnerKind) == if IsLeaf(t, n) then [] else [n + prefix]
  {
    var block := NodeRecords(t, n, prefix, featureNames, classes);
    if IsLeaf(t, n) {
      assert block == [block[0], block[1]];
      IdsOfTwo(block[0], block[1], NodeKind);
      IdsOfTwo(block[0], block[1], ClassKind);
      IdsOfTwo(block[0], block[1], FeatureKind);
      IdsOfTwo(block[0], block[1], InnerKind);
    } else {
      assert block == [block[0], block[1], block[2]];
      IdsOfThree(block[0], block[1], block[2], NodeKind);
      IdsOfThree(block[0], block[1], block[2], ClassKind);
      IdsOfThree(block[0], block[1], block[2], FeatureKind);
      IdsOfThree(block[0], block[1], block[2], InnerKind);
    }
  }

  /** The ids of a node's block followed by more records. */
  lemma BlockThenIds(t: ValidTree, n: nat, prefix: nat, featureNames: seq<string>, classes: seq<string>, rest: seq<Record>)
    requires WellFormed(t, |featureNames|, |classes|) && n < t.nodeCount
    ensures var recs := NodeRecords(t, n, prefix, featureNames, classes) + rest;
      var inner := if IsLeaf(t, n) then [] else [n + prefix];
      && IdsOf(recs, NodeKind) == [n + prefix] + IdsOf(rest, NodeKind)
      && IdsOf(recs, ClassKind) == [n + prefix] + IdsOf(rest, ClassKind)
      && IdsOf(recs, InnerKind) == inner + IdsOf(rest, InnerKind)
      && IdsOf(recs, FeatureKind) == inner + IdsOf(rest, FeatureKind)
  {
    var block := NodeRecords(t, n, prefix, featureNames, classes);
    BlockIds(t, n, prefix, featureNames, classes);
    IdsOfConcat(block, rest, NodeKind);
    IdsOfConcat(block, rest, ClassKind);
    IdsOfConcat(block, rest, FeatureKind);
    IdsOfConcat(block, rest, InnerKind);
  }

  /** The ids the walk's records are about, one step at a time. */
  lemma WalkStepIds(t: ValidTree, queue: seq<nat>, prefix: nat, featureNames: seq<string>, classes: seq<string>)
    requires WellFormed(t, |featureNames|, |classes|) && InTree(t, queue) && |queue| > 0
    ensures var recs := Walk(t, queue, prefix, featureNames, classes);
      var rest := Walk(t, Next(t, queue), prefix, featureNames, classes);
      var inner := if IsLeaf(t, queue[0]) then [] else [queue[0] + prefix];
      && IdsOf(recs, NodeKind) == [queue[0] + prefix] + IdsOf(rest, NodeKind)
      && IdsOf(recs, ClassKind) == [queue[0] + prefix] + IdsOf(rest, ClassKind)
      && IdsOf(recs, InnerKind) == inner + IdsOf(rest, InnerKind)
      && IdsOf(recs, FeatureKind) == inner + IdsOf(rest, FeatureKind)
  {
    WalkStep(t, queue, prefix, featureNames, classes);
    BlockThenIds(t, queue[0], prefix, featureNames, classes, Walk(t, Next(t, queue), prefix, featureNames, classes));
  }

  /** Along a walk, the N records name the visited nodes offset by the prefix. */
  lemma {:induction false} WalkNodeIds(t: ValidTree, queue: seq<nat>, prefix: nat, featureNames: seq<string>, classes: seq<string>)
    requires WellFormed(t, |featureNames|, |classes|) && InTree(t, queue)
    ensures IdsOf(Walk(t, queue, prefix, featureNames, classes), NodeKind) == Shift(VisitOrder(t, queue), prefix)
    decreases Weight(t, queue)
  {
    if |queue| > 0 {
      WalkNodeIds(t, Next(t, queue), prefix, featureNames, classes);
      WalkStepIds(t, queue, prefix, featureNames, classes);
      VisitStep(t, queue);
      ShiftCons(queue[0], VisitOrder(t, Next(t, queue)), prefix);
    }
  }

  /** Along a walk, each N record is matched by one C record for the same id, in the
      same order, and the F records are exactly those of the split nodes. */
  lemma {:induction false} WalkNoteIds(t: ValidTree, queue: seq<nat>, prefix: nat, featureNames: seq<string>, classes: seq<string>)
    requires WellFormed(t, |featureNames|, |classes|) && InTree(t, queue)
    ensures var recs := Walk(t, queue, prefix, featureNames, classes);
      && IdsOf(recs, ClassKind) == IdsOf(recs, NodeKind)
      && IdsOf(recs, FeatureKind) == IdsOf(recs, InnerKind)
    decreases Weight(t, queue)
  {
    if |queue| > 0 {
      WalkNoteIds(t, Next(t, queue), prefix, featureNames, classes);
      WalkStepIds(t, queue, prefix, featureNames, classes);
    }
  }

  /** A node record about an id in [lo, hi) whose children, for a split, come after it
      and stay below `hi`. */
  predicate InRange(r: Record, lo: nat, hi: nat)
  {
    && !r.Segment?
    && lo <= r.id < hi
    && (r.InnerNode? ==> r.id < r.left < hi && r.id < r.right < hi)
  }

  /** Every record of one node's block is about that node of this tree. */
  lemma BlockInRange(t: ValidTree, n: nat, prefix: nat, featureNames: seq<string>, classes: seq<string>)
    requires WellFormed(t, |featureNames|, |classes|) && n < t.nodeCount
    ensures forall r :: r in NodeRecords(t, n, prefix, featureNames, classes) ==> InRange(r, prefix, prefix + t.nodeCount)
  {
    var block := NodeRecords(t, n, prefix, featureNames, classes);
    if IsLeaf(t, n) {
      assert block == [block[0], block[1]];
    } else {
      assert block == [block[0], block[1], block[2]];
    }
  }

  /** Every record of a walk is about a node of this tree, offset by the prefix, and every
      child id a split names comes after the split and stays inside the same range. */
  lemma {:induction false} WalkInRange(t: ValidTree, queue: seq<nat>, prefix: nat, featureNames: seq<string>, classes: seq<string>)
    requires WellFormed(t, |featureNames|, |classes|) && InTree(t, queue)
    ensures forall r :: r in Walk(t, queue, prefix, featureNames, classes) ==> InRange(r, prefix, prefix + t.nodeCount)
    decreases Weight(t, queue)
  {
    if |queue| > 0 {
      WalkInRange(t, Next(t, queue), prefix, featureNames, classes);
      WalkStep(t, queue, prefix, featureNames, classes);
      BlockInRange(t, queue[0], prefix, featureNames, classes);
    }
  }

  // ---------------------------------------------------------------------------
  // A real tree is walked exactly once per node
  // ---------------------------------------------------------------------------

  /** Node `p` splits and one of its two children is `m`. */
  predicate Edge(t: ValidTree, p: nat, m: nat)
  {
    p < t.nodeCount && !IsLeaf(t, p) && (Left(t, p) == m || Right(t, p) == m)
  }

  ghost predicate HasParent(t: ValidTree, m: nat)
  {
    exists p :: Edge(t, p, m)
  }

  /** The arrays describe a tree: every node but the root has exactly one parent. */
  ghost predicate IsTree(t: ValidTree)
  {
    && (forall m :: 0 < m < t.nodeCount ==> HasParent(t, m))
    && (forall p, q, m :: Edge(t, p, m) && Edge(t, q, m) ==> p == q)
  }

  /** How often node `m` occurs in the unfolding of the subtree at `x`. */
  function Occ(t: ValidTree, x: nat, m: nat): nat
    requires x < t.nodeCount
    decreases t.nodeCount - x
  {
    (if x == m then 1 else 0)
      + (if IsLeaf(t, x) then 0 else Occ(t, Left(t, x), m) + Occ(t, Right(t, x), m))
  }

  function OccAll(t: ValidTree, queue: seq<nat>, m: nat): nat
    requires InTree(t, queue)
    decreases |queue|
  {
    if |queue| == 0 then 0 else Occ(t, queue[0], m) + OccAll(t, queue[1..], m)
  }

  lemma {:induction false} OccAllConcat(t: ValidTree, a: seq<nat>, b: seq<nat>, m: nat)
    requires InTree(t, a) && InTree(t, b)
    ensures InTree(t, a + b) && OccAll(t, a + b, m) == OccAll(t, a, m) + OccAll(t, b, m)
    decreases |a|
  {
    if |a| > 0 {
      assert (a + b)[1..] == a[1..] + b;
      OccAllConcat(t, a[1..], b, m);
    } else {
      assert a + b == b;
    }
  }

  /** Popping the head removes its own occurrence and hands the rest of its unfolding to
      its children. */
  lemma OccPop(t: ValidTree, queue: seq<nat>, m: nat)
    requires InTree(t, queue) && |queue| > 0
    ensures OccAll(t, Next(t, queue), m) + (if queue[0] == m then 1 else 0) == OccAll(t, queue, m)
  {
    var kids := Children(t, queue[0]);
    assert InTree(t, queue[1..]);
    OccAllConcat(t, queue[1..], kids, m);
    assert OccAll(t, queue, m) == Occ(t, queue[0], m) + OccAll(t, queue[1..], m);
    if |kids| == 2 {
      assert kids[1..] == [kids[1]];
      assert kids[1..][1..] == [];
      assert OccAll(t, kids[1..], m) == Occ(t, kids[1], m) + OccAll(t, kids[1..][1..], m);
      assert OccAll(t, kids, m) == Occ(t, kids[0], m) + Occ(t, kids[1], m);
    }
  }

  /** The walk visits each node as often as it occurs in the unfoldings of the queue. */
  lemma {:induction false} VisitCount(t: ValidTree, queue: seq<nat>, m: nat)
    requires InTree(t, queue)
    ensures multiset(VisitOrder(t, queue))[m] == OccAll(t, queue, m)
    decreases Weight(t, queue)
  {
    if |queue| > 0 {
      VisitCount(t, Next(t, queue), m);
      VisitStep(t, queue);
      OccPop(t, queue, m);
    }
  }

  /** Nothing numbered before `x` occurs below it. */
  lemma {:induction false} OccBelow(t: ValidTree, x: nat, m: nat)
    requires x < t.nodeCount && m < x
    ensures Occ(t, x, m) == 0
    decreases t.nodeCount - x
  {
    if !IsLeaf(t, x) {
      OccBelow(t, Left(t, x), m);
      OccBelow(t, Right(t, x), m);
    }
  }

  /** Nothing outside the tree occurs in it. */
  lemma {:induction false} OccOutside(t: ValidTree, x: nat, m: nat)
    requires x < t.nodeCount && t.nodeCount <= m
    ensures Occ(t, x, m) == 0
    decreases t.nodeCount - x
  {
    if !IsLeaf(t, x) {
      OccOutside(t, Left(t, x), m);
      OccOutside(t, Right(t, x), m);
    }
  }

  lemma OccSelf(t: ValidTree, x: nat)
    requires x < t.nodeCount
    ensures Occ(t, x, x) == 1
  {
    if !IsLeaf(t, x) {
      OccBelow(t, Left(t, x), x);
      OccBelow(t, Right(t, x), x);
    }
  }

  /** In a tree, the paths from `x` to `m` are the paths from `x` to m's parent. */
  lemma {:induction false} OccParent(t: ValidTree, x: nat, m: nat, p: nat)
    requires IsTree(t) && x < t.nodeCount && m != x && Edge(t, p, m)
    ensures Occ(t, x, m) == Occ(t, x, p)
    decreases t.nodeCount - x
  {
    if !IsLeaf(t, x) {
      var l, r := Left(t, x), Right(t, x);
      OccBelow(t, l, x);
      OccBelow(t, r, x);
      if l == m || r == m {
        assert Edge(t, x, m);
        assert p == x;
        if l == m {
          OccSelf(t, l);
          OccParent(t, r, m, p);
        } else {
          OccSelf(t, r);
          OccParent(t, l, m, p);
        }
      } else {
        OccParent(t, l, m, p);
        OccParent(t, r, m, p);
      }
    }
  }

  /** In a tree, every node occurs exactly once below the root. */
  lemma {:induction false} OccRoot(t: ValidTree, m: nat)
    requires IsTree(t) && m < t.nodeCount
    ensures Occ(t, 0, m) == 1
    decreases m
  {
    if m == 0 {
      OccSelf(t, 0);
    } else {
      assert HasParent(t, m);
      var p :| Edge(t, p, m);
      OccParent(t, 0, m, p);
      OccRoot(t, p);
    }
  }

  /** Walking a tree from the root visits every one of its nodes exactly once. */
  lemma VisitedOnce(t: ValidTree, m: nat)
    requires IsTree(t)
    ensures multiset(VisitOrder(t, [0]))[m] == if m < t.nodeCount then 1 else 0
  {
    VisitCount(t, [0], m);
    assert [0][1..] == [];
    if m < t.nodeCount {
      OccRoot(t, m);
    } else {
      OccOutside(t, 0, m);
    }
  }

  /** So a tree's N records carry the ids prefix .. prefix + nodeCount - 1, each once. */
  lemma WalkNodeIdsExact(t: ValidTree, prefix: nat, featureNames: seq<string>, classes: seq<string>, y: nat)
    requires WellFormed(t, |featureNames|, |classes|) && IsTree(t)
    ensures multiset(IdsOf(Walk(t, [0], prefix, featureNames, classes), NodeKind))[y]
         == if prefix <= y < prefix + t.nodeCount then 1 else 0
  {
    WalkNodeIds(t, [0], prefix, featureNames, classes);
    ShiftCount(VisitOrder(t, [0]), prefix, y);
    if prefix <= y {
      VisitedOnce(t, y - prefix);
    }
  }
}
