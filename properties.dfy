/**
 What a run of relaxed neighbor joining guarantees, proved on the `Pass`
 and `Run` functions that the main loop is verified against.
 */
module Properties {
  import opened Matrices
  import opened Trees
  import opened Search
  import opened Joining
  import opened Rnj

  /**
   On a symmetric matrix with zero diagonal a pass never reports a failed
   search nor a non-zero self distance; the one way it can fail is the
   i != j assertion.
   */
  lemma PassOnMetric(M: Matrix, nodes: seq<Tree>, order: seq<nat>, noNegatives: bool)
    requires |nodes| >= 3 && IsSquare(M, |nodes|) && Symmetric(M) && ZeroDiagonal(M)
    requires IsPermutation(order, |nodes|)
    ensures Pass(M, nodes, order, noNegatives).Ok? || Pass(M, nodes, order, noNegatives) == Err(SamePair)
  {
    ScanSucceedsOnSymmetric(M, RowSums(M), order);
  }

  /** The i != j assertion can only fire when candidate 0 pairs with itself. */
  lemma SamePairOnlyAtZero(M: Matrix, nodes: seq<Tree>, order: seq<nat>, noNegatives: bool)
    requires |nodes| >= 3 && IsSquare(M, |nodes|) && InRange(order, |nodes|)
    requires Pass(M, nodes, order, noNegatives) == Err(SamePair)
    ensures Scan(NearestAll(M, RowSums(M)), order) == Found(0, 0)
  {
    SelfPairOnlyAtZero(M, RowSums(M), order);
  }

  /** A successful pass is the join of the pair the search found, merged and compacted. */
  lemma PassJoins(M: Matrix, nodes: seq<Tree>, order: seq<nat>, noNegatives: bool)
      returns (i: nat, j: nat, li: real, lj: real)
    requires |nodes| >= 3 && IsSquare(M, |nodes|) && InRange(order, |nodes|)
    requires Pass(M, nodes, order, noNegatives).Ok?
    ensures Scan(NearestAll(M, RowSums(M)), order) == Found(i, j) && i != j
    ensures Pass(M, nodes, order, noNegatives).value ==
            State(Compacted(Merged(M, i, j), j), RelocatedNodes(nodes[i := Joined(nodes, i, j, li, lj)], j))
    ensures noNegatives ==> li >= 0.0 && lj >= 0.0
  {
    var r := RowSums(M);
    var o := Scan(NearestAll(M, r), order);
    i, j := o.i, o.j;
    li := BranchLength(M[i][j], r[i], r[j], noNegatives);
    lj := BranchLength(M[i][j], r[j], r[i], noNegatives);
    ContractedIsMergeThenCompact(M, i, j);
  }

  /**
   A successful pass keeps the taxon names below the active nodes and leaves
   an internal node active.
   */
  lemma PassKeepsLeaves(M: Matrix, nodes: seq<Tree>, order: seq<nat>, noNegatives: bool)
    requires |nodes| >= 3 && IsSquare(M, |nodes|) && InRange(order, |nodes|)
    requires Pass(M, nodes, order, noNegatives).Ok?
    ensures LeafSum(Pass(M, nodes, order, noNegatives).value.nodes) == LeafSum(nodes)
    ensures exists k :: 0 <= k < |nodes| - 1 && Pass(M, nodes, order, noNegatives).value.nodes[k].Internal?
  {
    var i, j, li, lj := PassJoins(M, nodes, order, noNegatives);
    JoinKeepsLeaves(nodes, i, j, li, lj);
    JoinStaysActive(nodes, i, j, li, lj);
    var rs := RelocatedNodes(nodes[i := Joined(nodes, i, j, li, lj)], j);
    var k :| 0 <= k < |rs| && rs[k] == Joined(nodes, i, j, li, lj);
    assert rs[k].Internal?;
  }

  /** A successful pass keeps a symmetric zero-diagonal matrix so. */
  lemma PassKeepsMetric(M: Matrix, nodes: seq<Tree>, order: seq<nat>, noNegatives: bool)
    requires |nodes| >= 3 && IsSquare(M, |nodes|) && InRange(order, |nodes|)
    requires Pass(M, nodes, order, noNegatives).Ok? && Symmetric(M) && ZeroDiagonal(M)
    ensures Symmetric(Pass(M, nodes, order, noNegatives).value.dist)
    ensures ZeroDiagonal(Pass(M, nodes, order, noNegatives).value.dist)
  {
    var i, j, li, lj := PassJoins(M, nodes, order, noNegatives);
    MergedKeepsMetric(M, i, j);
    CompactedKeepsMetric(Merged(M, i, j), j);
  }

  /** With clamping on, a successful pass keeps every branch length non-negative. */
  lemma PassKeepsNonNegative(M: Matrix, nodes: seq<Tree>, order: seq<nat>)
    requires |nodes| >= 3 && IsSquare(M, |nodes|) && InRange(order, |nodes|)
    requires Pass(M, nodes, order, true).Ok? && AllNonNegative(nodes)
    ensures AllNonNegative(Pass(M, nodes, order, true).value.nodes)
  {
    var i, j, li, lj := PassJoins(M, nodes, order, true);
    JoinKeepsNonNegative(nodes, i, j, li, lj);
  }

  /**
   Everything a later pass or the final step needs from one pass over a
   symmetric zero-diagonal matrix: it fails only at the i != j assertion, and
   on success the matrix stays symmetric with zero diagonal, the taxon names
   below the active nodes are kept, an internal node is active, and clamping
   keeps branch lengths non-negative.
   */
  lemma PassOutcome(M: Matrix, nodes: seq<Tree>, order: seq<nat>, noNegatives: bool)
    requires |nodes| >= 3 && IsSquare(M, |nodes|) && Symmetric(M) && ZeroDiagonal(M)
    requires IsPermutation(order, |nodes|)
    requires noNegatives ==> AllNonNegative(nodes)
    ensures var P := Pass(M, nodes, order, noNegatives);
            (P.Ok? || P == Err(SamePair)) &&
            (P.Ok? ==> Symmetric(P.value.dist) && ZeroDiagonal(P.value.dist) &&
                       LeafSum(P.value.nodes) == LeafSum(nodes) &&
                       (|nodes| > 3 || P.value.nodes[0].Internal? || P.value.nodes[1].Internal?) &&
                       (noNegatives ==> AllNonNegative(P.value.nodes)))
  {
    PassOnMetric(M, nodes, order, noNegatives);
    var P := Pass(M, nodes, order, noNegatives);
    if P.Ok? {
      PassKeepsLeaves(M, nodes, order, noNegatives);
      PassKeepsMetric(M, nodes, order, noNegatives);
      if noNegatives {
        PassKeepsNonNegative(M, nodes, order);
      }
      var ns := P.value.nodes;
      var k :| 0 <= k < |ns| && ns[k].Internal?;
      if |nodes| == 3 {
        assert ns[0].Internal? || ns[1].Internal? by {
          if k == 0 {
          } else {
            assert k == 1;
          }
        }
      }
    }
  }

  /**
   One step of `Run` on a symmetric zero-diagonal matrix: either the run
   stops at the i != j assertion, or it continues from a smaller state that
   keeps the metric, the taxon names and the sign of the branch lengths.
   */
  lemma RunStep(M: Matrix, nodes: seq<Tree>, noNegatives: bool, randomize: bool,
                shuffles: seq<seq<nat>>) returns (N: Matrix, ns: seq<Tree>)
    requires |nodes| >= 3 && IsSquare(M, |nodes|) && Symmetric(M) && ZeroDiagonal(M)
    requires randomize ==> ValidShuffles(shuffles, |nodes|)
    requires noNegatives ==> AllNonNegative(nodes)
    ensures Run(M, nodes, noNegatives, randomize, shuffles) == Err(SamePair) ||
            (|ns| == |nodes| - 1 && IsSquare(N, |ns|) && Symmetric(N) && ZeroDiagonal(N) &&
             Run(M, nodes, noNegatives, randomize, shuffles) ==
               Run(N, ns, noNegatives, randomize, Later(randomize, shuffles, |nodes|)) &&
             LeafSum(ns) == LeafSum(nodes) &&
             (|nodes| > 3 || ns[0].Internal? || ns[1].Internal?) &&
             (noNegatives ==> AllNonNegative(ns)))
  {
    RunUnfolds(M, nodes, noNegatives, randomize, shuffles);
    var order := Order(randomize, shuffles, |nodes|);
    PassOutcome(M, nodes, order, noNegatives);
    var P := Pass(M, nodes, order, noNegatives);
    N, ns := M, nodes;
    if P.Ok? {
      N, ns := P.value.dist, P.value.nodes;
    }
  }

  /**
   When one of the last two nodes is internal, the emitted root carries
   exactly their taxon names, has three children, and with clamping on only
   non-negative branch lengths.
   */
  lemma FinishKeepsLeaves(a: Tree, b: Tree, d01: real, noNegatives: bool)
    requires a.Internal? || b.Internal?
    ensures RootLeaves(Finish(a, b, d01, noNegatives)) == Leaves(a) + Leaves(b)
    ensures |Finish(a, b, d01, noNegatives).children| == 3
    ensures noNegatives && NonNegative(a) && NonNegative(b) ==>
              RootNonNegative(Finish(a, b, d01, noNegatives))
  {
    var swap := |Children(a)| < |Children(b)|;
    var root := if swap then b else a;
    var extra := if swap then a else b;
    assert root.Internal?;
    var last := Branch(extra, Clamp(d01, noNegatives));
    var cs := Children(root);
    assert Finish(a, b, d01, noNegatives) == Root(cs + [last]);
    BranchLeavesAppend(cs, [last]);
    ChildrenLeaves(root);
    BranchLeavesSingle(last);
    assert Leaves(root) + Leaves(extra) == Leaves(a) + Leaves(b);
  }

  /**
   From any state with at least three active nodes (or two, one of them
   internal), on a symmetric zero-diagonal matrix: the run either yields a
   tree or stops at the i != j assertion; a tree carries exactly the taxon
   names of the active nodes, has three children at the top and, with
   clamping on, only non-negative branch lengths.
   */
  lemma {:induction false} RunOutcome(M: Matrix, nodes: seq<Tree>, noNegatives: bool,
                                      randomize: bool, shuffles: seq<seq<nat>>)
    requires IsSquare(M, |nodes|) && Symmetric(M) && ZeroDiagonal(M)
    requires randomize ==> ValidShuffles(shuffles, |nodes|)
    requires |nodes| >= 3 || (|nodes| == 2 && (nodes[0].Internal? || nodes[1].Internal?))
    requires noNegatives ==> AllNonNegative(nodes)
    ensures var res := Run(M, nodes, noNegatives, randomize, shuffles);
            (res.Ok? || res == Err(SamePair)) &&
            (res.Ok? ==> RootLeaves(res.value) == LeafSum(nodes)) &&
            (res.Ok? && noNegatives ==> RootNonNegative(res.value)) &&
            (res.Ok? ==> |res.value.children| == 3)
    decreases |nodes|
  {
    if |nodes| > 2 {
      var N, ns := RunStep(M, nodes, noNegatives, randomize, shuffles);
      if Run(M, nodes, noNegatives, randomize, shuffles) != Err(SamePair) {
        RunOutcome(N, ns, noNegatives, randomize, Later(randomize, shuffles, |nodes|));
      }
    } else {
      FinishKeepsLeaves(nodes[0], nodes[1], M[0][1], noNegatives);
      assert nodes[1..][1..] == [];
      assert LeafSum(nodes) == Leaves(nodes[0]) + Leaves(nodes[1]) + LeafSum([]);
    }
  }

  /**
   The main theorem: for at least three taxa and a symmetric matrix with
   zero diagonal, the algorithm either stops at the i != j assertion or
   emits a tree with three children at the top whose leaves are exactly the
   taxa, each as often as it was given, with non-negative branch lengths
   when clamping is on.
   */
  lemma RelaxedNeighborJoiningOutcome(names: seq<string>, M: Matrix, noNegatives: bool,
                                      randomize: bool, shuffles: seq<seq<nat>>)
    requires |names| >= 3 && IsSquare(M, |names|) && Symmetric(M) && ZeroDiagonal(M)
    requires randomize ==> ValidShuffles(shuffles, |names|)
    ensures var res := Run(M, LeafNodes(names), noNegatives, randomize, shuffles);
            (res.Ok? || res == Err(SamePair)) &&
            (res.Ok? ==> RootLeaves(res.value) == multiset(names)) &&
            (res.Ok? && noNegatives ==> RootNonNegative(res.value)) &&
            (res.Ok? ==> |res.value.children| == 3)
  {
    LeafNodesLeaves(names);
    RunOutcome(M, LeafNodes(names), noNegatives, randomize, shuffles);
  }

  /**
   With two taxa the loop does not run, both nodes are leaves, no swap
   happens, and the emitted root owns only the second leaf: the first taxon
   is dropped.
   */
  lemma TwoTaxaDropFirst(x: string, y: string, M: Matrix, noNegatives: bool,
                         randomize: bool, shuffles: seq<seq<nat>>)
    requires IsSquare(M, 2)
    ensures Run(M, LeafNodes([x, y]), noNegatives, randomize, shuffles) ==
            Ok(Root([Branch(Leaf(y), Clamp(M[0][1], noNegatives))]))
    ensures RootLeaves(Run(M, LeafNodes([x, y]), noNegatives, randomize, shuffles).value) == multiset{y}
  {
    var ns := LeafNodes([x, y]);
    assert ns == [Leaf(x), Leaf(y)];
    assert Children(Leaf(x)) == [] && Children(Leaf(y)) == [];
    var res := Root([Branch(Leaf(y), Clamp(M[0][1], noNegatives))]);
    assert Finish(Leaf(x), Leaf(y), M[0][1], noNegatives) == res;
    assert res.children[1..] == [];
    assert RootLeaves(res) == Leaves(Leaf(y)) + BranchLeaves([]);
  }

  /** The 3 x 3 matrix of zeros: three identical taxa. */
  function Zeros3(): (M: Matrix)
    ensures IsSquare(M, 3) && Symmetric(M) && ZeroDiagonal(M)
  {
    [[0.0, 0.0, 0.0], [0.0, 0.0, 0.0], [0.0, 0.0, 0.0]]
  }

  /**
   The i != j assertion is reachable: for three taxa at distance zero and
   the unshuffled scan, candidate 0 sees an all-zero row whose sentinel is 0
   too, pairs with itself, and the pass stops.
   */
  lemma ZeroDistancesHitSamePair(x: string, y: string, z: string, noNegatives: bool)
    ensures Pass(Zeros3(), LeafNodes([x, y, z]), Range(3), noNegatives) == Err(SamePair)
    ensures Run(Zeros3(), LeafNodes([x, y, z]), noNegatives, false, []) == Err(SamePair)
  {
    var M := Zeros3();
    var r := RowSums(M);
    assert ColumnSum(M, 0, 3) == 0.0 && ColumnSum(M, 1, 3) == 0.0 && ColumnSum(M, 2, 3) == 0.0;
    assert r == [0.0, 0.0, 0.0];
    var t := ProbeRow(M, r, 0);
    assert Coef(3) == 3.0;
    forall k | 0 <= k < 3
      ensures TransformedRow(M, r, 0)[k] == 0.0
    {
    }
    assert TransformedRow(M, r, 0) == [0.0, 0.0, 0.0];
    assert t == [0.0, 0.0, 0.0];
    assert Nearest(M, r, 0) == 0;
    assert Range(3)[0] == 0;
    assert NearestAll(M, r)[0] == 0;
    assert Scan(NearestAll(M, r), Range(3)) == Found(0, 0);
    assert Run(M, LeafNodes([x, y, z]), noNegatives, false, []) ==
           RunWith(M, LeafNodes([x, y, z]), Range(3), noNegatives, false, []) ==
           Continue(Err(SamePair), 3, noNegatives, false, []);
  }
}
