/**
 Relaxed neighbor joining (Evans, Sheneman and Foster): while more than two
 nodes are active, find a reciprocal nearest-neighbour pair under the
 transformed distance, join it into a new internal node, and remove one slot
 from the distance matrix and the node list; then join the last two nodes
 under a synthetic root.
 */
module Rnj {
  import opened Matrices
  import opened Trees
  import opened Search
  import opened Joining

  /** The ways a run can stop without a tree. */
  datatype Failure =
    | SearchFailure          // no candidate in the scan was reciprocal
    | SamePair               // the accepted pair has i == j (an assertion in the source)
    | SelfDistanceNonZero    // d[j][j] != 0 after compaction (an assertion in the source)
    | TooFewTaxa             // fewer than two taxa: the final step indexes nodes[0] or nodes[1]

  datatype Result<T> = Ok(value: T) | Err(error: Failure)

  /** The working state between passes: the active matrix and the active nodes. */
  datatype State = State(dist: Matrix, nodes: seq<Tree>)

  /** One shuffled scan order per pass, for m, m - 1, ..., 3 active nodes. */
  ghost predicate ValidShuffles(shuffles: seq<seq<nat>>, m: nat)
    decreases m
  {
    m <= 2 || (|shuffles| > 0 && IsPermutation(shuffles[0], m) && ValidShuffles(shuffles[1..], m - 1))
  }

  /** The scan order of the pass over m nodes: the next shuffle, or 0 .. m-1. */
  function Order(randomize: bool, shuffles: seq<seq<nat>>, m: nat): (order: seq<nat>)
    requires m > 2 && (randomize ==> ValidShuffles(shuffles, m))
    ensures IsPermutation(order, m)
    ensures randomize ==> order == shuffles[0]
  {
    if randomize then shuffles[0] else Range(m)
  }

  /** The shuffles left for the passes after the one over m nodes. */
  function Later(randomize: bool, shuffles: seq<seq<nat>>, m: nat): (rest: seq<seq<nat>>)
    requires m > 2 && (randomize ==> ValidShuffles(shuffles, m))
    ensures randomize ==> ValidShuffles(rest, m - 1)
    ensures !randomize ==> rest == shuffles
  {
    if randomize then shuffles[1..] else shuffles
  }

  /**
   One pass of the main loop: search, join, merge, compact. Every successful
   pass removes exactly one active node.
   */
  ghost function Pass(M: Matrix, nodes: seq<Tree>, order: seq<nat>, noNegatives: bool): (res: Result<State>)
    requires |nodes| >= 3 && IsSquare(M, |nodes|) && InRange(order, |nodes|)
    ensures res != Err(TooFewTaxa)
    ensures res.Ok? ==> |res.value.nodes| == |nodes| - 1 && IsSquare(res.value.dist, |nodes| - 1)
  {
    var m := |nodes|;
    var r := RowSums(M);
    match Scan(NearestAll(M, r), order)
    case NoPair => Err(SearchFailure)
    case Found(i, j) =>
      if i == j then Err(SamePair)
      else
        var li := BranchLength(M[i][j], r[i], r[j], noNegatives);
        var lj := BranchLength(M[i][j], r[j], r[i], noNegatives);
        if MergedEntry(M, i, j, m - 1, m - 1) != 0.0 then Err(SelfDistanceNonZero)
        else Ok(State(Contracted(M, i, j), RelocatedNodes(nodes[i := Joined(nodes, i, j, li, lj)], j)))
  }

  /**
   The last two nodes: the one with more children becomes the root
   candidate, the other hangs below it with length d[0][1], and the emitted
   root owns the candidate's children followed by that node.
   */
  function Finish(a: Tree, b: Tree, d01: real, noNegatives: bool): (t: Root)
    ensures |Children(a)| >= |Children(b)| ==> t == Root(Children(a) + [Branch(b, Clamp(d01, noNegatives))])
    ensures |Children(a)| < |Children(b)| ==> t == Root(Children(b) + [Branch(a, Clamp(d01, noNegatives))])
  {
    var (root, extra) := if |Children(a)| < |Children(b)| then (b, a) else (a, b);
    Root(Children(root) + [Branch(extra, Clamp(d01, noNegatives))])
  }

  /** A whole run from a given state, as a function. */
  ghost function Run(M: Matrix, nodes: seq<Tree>, noNegatives: bool, randomize: bool,
                     shuffles: seq<seq<nat>>): (res: Result<Root>)
    requires IsSquare(M, |nodes|)
    requires randomize ==> ValidShuffles(shuffles, |nodes|)
    ensures res == Err(TooFewTaxa) <==> |nodes| < 2
    decreases |nodes|, 1, 0
  {
    if |nodes| > 2 then RunPass(M, nodes, noNegatives, randomize, shuffles)
    else if |nodes| < 2 then Err(TooFewTaxa)
    else Ok(Finish(nodes[0], nodes[1], M[0][1], noNegatives))
  }

  /** A run over more than two active nodes: the pass takes the next scan order. */
  ghost function RunPass(M: Matrix, nodes: seq<Tree>, noNegatives: bool, randomize: bool,
                         shuffles: seq<seq<nat>>): (res: Result<Root>)
    requires |nodes| > 2 && IsSquare(M, |nodes|)
    requires randomize ==> ValidShuffles(shuffles, |nodes|)
    ensures res != Err(TooFewTaxa)
    decreases |nodes|, 0, 2
  {
    RunWith(M, nodes, Order(randomize, shuffles, |nodes|), noNegatives, randomize,
            Later(randomize, shuffles, |nodes|))
  }

  /** One pass in the given scan order, then the rest of the run on the shuffles left. */
  ghost function RunWith(M: Matrix, nodes: seq<Tree>, order: seq<nat>, noNegatives: bool,
                         randomize: bool, rest: seq<seq<nat>>): (res: Result<Root>)
    requires |nodes| > 2 && IsSquare(M, |nodes|) && InRange(order, |nodes|)
    requires randomize ==> ValidShuffles(rest, |nodes| - 1)
    ensures res != Err(TooFewTaxa)
    decreases |nodes|, 0, 1
  {
    Continue(Pass(M, nodes, order, noNegatives), |nodes|, noNegatives, randomize, rest)
  }

  /** After a pass over m nodes: its error, or the rest of the run on what it left. */
  ghost function Continue(p: Result<State>, m: nat, noNegatives: bool, randomize: bool,
                          rest: seq<seq<nat>>): (res: Result<Root>)
    requires m > 2 && p != Err(TooFewTaxa)
    requires p.Ok? ==> |p.value.nodes| == m - 1 && IsSquare(p.value.dist, m - 1)
    requires randomize ==> ValidShuffles(rest, m - 1)
    ensures res != Err(TooFewTaxa)
    decreases m, 0, 0
  {
    match p
    case Err(e) => Err(e)
    case Ok(s) => Run(s.dist, s.nodes, noNegatives, randomize, rest)
  }

  /** One step of `Run` while more than two nodes are active. */
  lemma RunUnfolds(M: Matrix, nodes: seq<Tree>, noNegatives: bool, randomize: bool,
                   shuffles: seq<seq<nat>>)
    requires |nodes| > 2 && IsSquare(M, |nodes|)
    requires randomize ==> ValidShuffles(shuffles, |nodes|)
    ensures var P := Pass(M, nodes, Order(randomize, shuffles, |nodes|), noNegatives);
            Run(M, nodes, noNegatives, randomize, shuffles) ==
              if P.Err? then Err(P.error)
              else Run(P.value.dist, P.value.nodes, noNegatives, randomize,
                       Later(randomize, shuffles, |nodes|))
  {
    var order := Order(randomize, shuffles, |nodes|);
    assert Run(M, nodes, noNegatives, randomize, shuffles) == RunPass(M, nodes, noNegatives, randomize, shuffles)
        == RunWith(M, nodes, order, noNegatives, randomize, Later(randomize, shuffles, |nodes|))
        == Continue(Pass(M, nodes, order, noNegatives), |nodes|, noNegatives, randomize,
                    Later(randomize, shuffles, |nodes|));
  }

  /** `Run` once at most two nodes are active. */
  lemma RunStops(M: Matrix, nodes: seq<Tree>, noNegatives: bool, randomize: bool,
                 shuffles: seq<seq<nat>>)
    requires |nodes| <= 2 && IsSquare(M, |nodes|)
    requires randomize ==> ValidShuffles(shuffles, |nodes|)
    ensures Run(M, nodes, noNegatives, randomize, shuffles) ==
              if |nodes| < 2 then Err(TooFewTaxa) else Ok(Finish(nodes[0], nodes[1], M[0][1], noNegatives))
  {
  }

  /**
   One pass on the buffer: row sums, search, branch lengths, merge into row
   and column i, compaction of slot j. On success the active block of size
   m - 1 and the returned node list are the state `Pass` describes.
   */
  method JoinPass(d: array2<real>, nodes: seq<Tree>, order: seq<nat>, noNegatives: bool)
      returns (res: Result<seq<Tree>>)
    requires 3 <= |nodes| <= d.Length0 && |nodes| <= d.Length1 && InRange(order, |nodes|)
    modifies d
    ensures var P := Pass(old(Mat(d, |nodes|)), nodes, order, noNegatives);
            (res.Err? <==> P.Err?) &&
            (res.Err? ==> res.error == P.error) &&
            (res.Ok? ==> res.value == P.value.nodes && Mat(d, |nodes| - 1) == P.value.dist)
  {
    ghost var M := Mat(d, |nodes|);
    var m := |nodes|;
    var r := ComputeRowSums(d, m);
    var found := FindPair(d, m, r, order);
    if found.NoPair? {
      return Err(SearchFailure);
    }
    var i, j := found.i, found.j;
    if i == j {
      return Err(SamePair);
    }
    var li := BranchLength(d[i, j], r[i], r[j], noNegatives);
    var lj := BranchLength(d[i, j], r[j], r[i], noNegatives);
    var node := Internal(Branch(nodes[i], li), Branch(nodes[j], lj));
    assert node == Joined(nodes, i, j, li, lj);
    MergeRows(d, m, i, j);
    ghost var N := Mat(d, m);
    var ns := nodes[i := node];
    CompactRows(d, m, j);
    ContractedIsMergeThenCompact(M, i, j);
    assert d[j, j] == N[m - 1][m - 1];
    if d[j, j] != 0.0 {
      return Err(SelfDistanceNonZero);
    }
    ns := ns[j := ns[m - 1]];
    ns := ns[..m - 1];
    assert ns == RelocatedNodes(nodes[i := node], j);
    res := Ok(ns);
  }

  /**
   One iteration of the main loop, stated against `Run`: a failed pass is
   the outcome of the whole run, and a successful one leaves a state from
   which the rest of the run has the same outcome.
   */
  method Step(d: array2<real>, nodes: seq<Tree>, noNegatives: bool, randomize: bool,
              shuffles: seq<seq<nat>>, ghost M: Matrix)
      returns (res: Result<seq<Tree>>, ghost N: Matrix)
    requires 3 <= |nodes| <= d.Length0 && |nodes| <= d.Length1
    requires randomize ==> ValidShuffles(shuffles, |nodes|)
    requires M == Mat(d, |nodes|)
    modifies d
    ensures res.Err? ==> Run(M, nodes, noNegatives, randomize, shuffles) == Err(res.error)
    ensures res.Ok? ==> |res.value| == |nodes| - 1 && N == Mat(d, |nodes| - 1)
    ensures res.Ok? ==> Run(N, res.value, noNegatives, randomize, Later(randomize, shuffles, |nodes|)) ==
                        Run(M, nodes, noNegatives, randomize, shuffles)
  {
    var order := Order(randomize, shuffles, |nodes|);
    RunUnfolds(M, nodes, noNegatives, randomize, shuffles);
    ghost var P := Pass(M, nodes, order, noNegatives);
    res := JoinPass(d, nodes, order, noNegatives);
    N := if P.Ok? then P.value.dist else M;
  }

  /**
   The algorithm on the dense matrix `d` of the taxa `names`, which it
   overwrites. The scan order of each pass is the next entry of `shuffles`
   when `randomize` is set, and 0 .. m-1 otherwise. Each pass removes one
   node, so a successful run makes |names| - 2 passes.
   */
  method RelaxedNeighborJoining(names: seq<string>, d: array2<real>, noNegatives: bool,
                                randomize: bool, shuffles: seq<seq<nat>>)
      returns (result: Result<Root>, ghost passes: nat)
    requires d.Length0 == |names| && d.Length1 == |names|
    requires randomize ==> ValidShuffles(shuffles, |names|)
    modifies d
    ensures result == Run(old(Mat(d, |names|)), LeafNodes(names), noNegatives, randomize, shuffles)
    ensures result.Ok? ==> passes == |names| - 2
  {
    ghost var M := Mat(d, |names|);
    ghost var spec := Run(M, LeafNodes(names), noNegatives, randomize, shuffles);
    var nodes := LeafNodes(names);
    var m := |names|;
    var rest := shuffles;
    passes := 0;
    while m > 2
      invariant m == |nodes| <= |names|
      invariant passes + m == |names|
      invariant randomize ==> ValidShuffles(rest, m)
      invariant M == Mat(d, m)
      invariant Run(M, nodes, noNegatives, randomize, rest) == spec
      decreases m
    {
      var step;
      step, M := Step(d, nodes, noNegatives, randomize, rest, M);
      if step.Err? {
        return Err(step.error), passes;
      }
      nodes := step.value;
      rest := Later(randomize, rest, m);
      m := m - 1;
      passes := passes + 1;
    }
    RunStops(M, nodes, noNegatives, randomize, rest);
    if m < 2 {
      return Err(TooFewTaxa), passes;
    }
    assert M[0][1] == d[0, 1];
    result := Ok(Finish(nodes[0], nodes[1], d[0, 1], noNegatives));
  }
}
