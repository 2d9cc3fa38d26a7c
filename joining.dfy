/**
 Joining an accepted pair (i, j): the branch lengths of the two nodes, the
 distances of the new node written over row and column i, and the removal of
 slot j by moving the last row, column and node into it.
 */
module Joining {
  import opened Matrices
  import opened Trees

  /** max(0, x) when negative lengths are switched off, x otherwise. */
  function Clamp(x: real, noNegatives: bool): (y: real)
    ensures noNegatives ==> y >= 0.0 && y >= x && (x >= 0.0 ==> y == x)
    ensures noNegatives ==> y == 0.0 || y == x
    ensures !noNegatives ==> y == x
  {
    if noNegatives && x < 0.0 then 0.0 else x
  }

  /** Length of the branch from node a to the new node: (d[a][b] + r[a] - r[b]) / 2. */
  function BranchLength(dab: real, ra: real, rb: real, noNegatives: bool): (l: real)
    ensures !noNegatives ==> 2.0 * l == dab + ra - rb
    ensures noNegatives ==> l >= 0.0 && 2.0 * l >= dab + ra - rb
    ensures noNegatives ==> l == 0.0 || 2.0 * l == dab + ra - rb
  {
    Clamp(0.5 * (dab + ra - rb), noNegatives)
  }

  /**
   Unclamped, the two branch lengths split d[i][j] exactly; clamped, both are
   non-negative and together cover at least d[i][j].
   */
  lemma BranchLengthsSplitDistance(dij: real, ri: real, rj: real, noNegatives: bool)
    ensures var li, lj := BranchLength(dij, ri, rj, noNegatives), BranchLength(dij, rj, ri, noNegatives);
            (!noNegatives ==> li + lj == dij) &&
            (noNegatives ==> li >= 0.0 && lj >= 0.0 && li + lj >= dij)
  {
  }

  /** Distance from the node joining i and j to node k: (d[i][k] + d[j][k] - d[i][j]) / 2. */
  function JoinDistance(M: Matrix, i: nat, j: nat, k: nat): real
    requires IsSquare(M, |M|) && i < |M| && j < |M| && k < |M|
  {
    0.5 * (M[i][k] + M[j][k] - M[i][j])
  }

  /**
   Entry (a, b) after the merge: row i and column i hold the join distances,
   d[i][i] is 0, every other entry is unchanged.
   */
  function MergedEntry(M: Matrix, i: nat, j: nat, a: nat, b: nat): real
    requires IsSquare(M, |M|) && i < |M| && j < |M| && a < |M| && b < |M|
  {
    if a == i && b == i then 0.0
    else if a == i then JoinDistance(M, i, j, b)
    else if b == i then JoinDistance(M, i, j, a)
    else M[a][b]
  }

  /** The matrix after the merge. */
  function Merged(M: Matrix, i: nat, j: nat): (N: Matrix)
    requires IsSquare(M, |M|) && i < |M| && j < |M|
    ensures IsSquare(N, |M|)
  {
    seq(|M|, a requires 0 <= a < |M| =>
      seq(|M|, b requires 0 <= b < |M| => MergedEntry(M, i, j, a, b)))
  }

  /**
   Writes the distances of the new node into column i, then row i, then
   clears d[i][i]; nothing outside the active block changes.
   */
  method MergeRows(d: array2<real>, m: nat, i: nat, j: nat)
    requires m <= d.Length0 && m <= d.Length1 && i < m && j < m
    modifies d
    ensures Mat(d, m) == Merged(old(Mat(d, m)), i, j)
    ensures forall a, b :: 0 <= a < d.Length0 && 0 <= b < d.Length1 && (a >= m || b >= m) ==>
              d[a, b] == old(d[a, b])
  {
    ghost var M := Mat(d, m);
    var dij := d[i, j];
    var newDists := [];
    for k := 0 to m
      invariant |newDists| == k
      invariant forall t :: 0 <= t < k ==> newDists[t] == JoinDistance(M, i, j, t)
    {
      newDists := newDists + [0.5 * (d[i, k] + d[j, k] - dij)];
    }
    for a := 0 to m
      invariant forall x, y :: 0 <= x < d.Length0 && 0 <= y < d.Length1 ==>
                  d[x, y] == if y == i && x < a then newDists[x] else old(d[x, y])
    {
      d[a, i] := newDists[a];
    }
    for b := 0 to m
      invariant forall x, y :: 0 <= x < d.Length0 && 0 <= y < d.Length1 ==>
                  d[x, y] == if x == i && y < b then newDists[y]
                             else if y == i && x < m then newDists[x]
                             else old(d[x, y])
    {
      d[i, b] := newDists[b];
    }
    d[i, i] := 0.0;
    SameEntries(Mat(d, m), Merged(M, i, j), m);
  }

  /** A symmetric matrix with zero diagonal stays so after the merge. */
  lemma MergedKeepsMetric(M: Matrix, i: nat, j: nat)
    requires IsSquare(M, |M|) && i < |M| && j < |M| && Symmetric(M) && ZeroDiagonal(M)
    ensures Symmetric(Merged(M, i, j)) && ZeroDiagonal(Merged(M, i, j))
  {
  }

  /**
   Why the join distances are what they are: when i and j hang off a common
   point with branches li and lj, and every other node k lies x[k] beyond
   that point, the merged row holds exactly the distances from that point.
   */
  lemma MergedRecoversAdditive(M: Matrix, i: nat, j: nat, li: real, lj: real, x: seq<real>)
    requires IsSquare(M, |M|) && i < |M| && j < |M| && i != j && |x| == |M|
    requires M[i][j] == li + lj
    requires forall k :: 0 <= k < |M| && k != i && k != j ==> M[i][k] == li + x[k] && M[j][k] == lj + x[k]
    ensures forall k :: 0 <= k < |M| && k != i && k != j ==>
              Merged(M, i, j)[i][k] == x[k] && Merged(M, i, j)[k][i] == x[k]
  {
  }

  /** Where slot a of the compacted matrix comes from: slot j takes the last one. */
  function Source(j: nat, m: nat, a: nat): nat
    requires 0 < m
  {
    if a == j then m - 1 else a
  }

  /** The matrix after compaction, of size m - 1: slot j holds what was at m - 1. */
  function Compacted(M: Matrix, j: nat): (N: Matrix)
    requires IsSquare(M, |M|) && j < |M|
    ensures IsSquare(N, |M| - 1)
  {
    seq(|M| - 1, a requires 0 <= a < |M| - 1 =>
      seq(|M| - 1, b requires 0 <= b < |M| - 1 => M[Source(j, |M|, a)][Source(j, |M|, b)]))
  }

  /** The first n entries of row a of the matrix a whole join leaves behind. */
  function ContractedRow(M: Matrix, i: nat, j: nat, a: nat, n: nat): (row: seq<real>)
    requires IsSquare(M, |M|) && i < |M| && j < |M| && a < |M| - 1 && n <= |M| - 1
    ensures |row| == n
  {
    if n == 0 then []
    else ContractedRow(M, i, j, a, n - 1) + [MergedEntry(M, i, j, Source(j, |M|, a), Source(j, |M|, n - 1))]
  }

  /** The first n rows of the matrix a whole join leaves behind. */
  function ContractedPrefix(M: Matrix, i: nat, j: nat, n: nat): (N: Matrix)
    requires IsSquare(M, |M|) && i < |M| && j < |M| && n <= |M| - 1
    ensures |N| == n && forall a :: 0 <= a < n ==> |N[a]| == |M| - 1
  {
    if n == 0 then [] else ContractedPrefix(M, i, j, n - 1) + [ContractedRow(M, i, j, n - 1, |M| - 1)]
  }

  /**
   The matrix a whole join (merge, then compaction) leaves behind: entry
   (a, b) is the merged entry of the relocated indices. It is the same matrix
   as `Compacted(Merged(M, i, j), j)` (`ContractedIsMergeThenCompact`); built
   row by row, it keeps the nested comprehensions of the two steps from being
   unfolded wherever a pass is reasoned about.
   */
  function Contracted(M: Matrix, i: nat, j: nat): (N: Matrix)
    requires IsSquare(M, |M|) && i < |M| && j < |M|
    ensures IsSquare(N, |M| - 1)
  {
    ContractedPrefix(M, i, j, |M| - 1)
  }

  lemma {:induction false} ContractedRowEntries(M: Matrix, i: nat, j: nat, a: nat, n: nat)
    requires IsSquare(M, |M|) && i < |M| && j < |M| && a < |M| - 1 && n <= |M| - 1
    ensures forall b :: 0 <= b < n ==>
              ContractedRow(M, i, j, a, n)[b] == MergedEntry(M, i, j, Source(j, |M|, a), Source(j, |M|, b))
  {
    if n > 0 {
      ContractedRowEntries(M, i, j, a, n - 1);
    }
  }

  lemma {:induction false} ContractedPrefixRows(M: Matrix, i: nat, j: nat, n: nat)
    requires IsSquare(M, |M|) && i < |M| && j < |M| && n <= |M| - 1
    ensures forall a :: 0 <= a < n ==> ContractedPrefix(M, i, j, n)[a] == ContractedRow(M, i, j, a, |M| - 1)
  {
    if n > 0 {
      ContractedPrefixRows(M, i, j, n - 1);
    }
  }

  /** Every entry of the contraction. */
  lemma ContractedEntries(M: Matrix, i: nat, j: nat)
    requires IsSquare(M, |M|) && i < |M| && j < |M|
    ensures forall a, b :: 0 <= a < |M| - 1 && 0 <= b < |M| - 1 ==>
              Contracted(M, i, j)[a][b] == MergedEntry(M, i, j, Source(j, |M|, a), Source(j, |M|, b))
  {
    ContractedPrefixRows(M, i, j, |M| - 1);
    forall a | 0 <= a < |M| - 1 {
      ContractedRowEntries(M, i, j, a, |M| - 1);
    }
  }

  /** Merging and then compacting, as the code does in two steps, is the contraction. */
  lemma ContractedIsMergeThenCompact(M: Matrix, i: nat, j: nat)
    requires IsSquare(M, |M|) && i < |M| && j < |M|
    ensures Compacted(Merged(M, i, j), j) == Contracted(M, i, j)
  {
    ContractedEntries(M, i, j);
    SameEntries(Compacted(Merged(M, i, j), j), Contracted(M, i, j), |M| - 1);
  }

  /**
   Copies the last row into row j, then the last column into column j. On the
   active block every entry then reads the entry of the relocated indices;
   nothing outside the block changes.
   */
  method CompactRows(d: array2<real>, m: nat, j: nat)
    requires m <= d.Length0 && m <= d.Length1 && j < m
    modifies d
    ensures forall a, b :: 0 <= a < m && 0 <= b < m ==>
              d[a, b] == old(d[Source(j, m, a), Source(j, m, b)])
    ensures forall a, b :: 0 <= a < d.Length0 && 0 <= b < d.Length1 && (a >= m || b >= m) ==>
              d[a, b] == old(d[a, b])
    ensures Mat(d, m - 1) == Compacted(old(Mat(d, m)), j)
    ensures d[j, j] == old(d[m - 1, m - 1])
  {
    ghost var M := Mat(d, m);
    for b := 0 to m
      invariant forall x, y :: 0 <= x < d.Length0 && 0 <= y < d.Length1 ==>
                  d[x, y] == if x == j && y < b then old(d[m - 1, y]) else old(d[x, y])
    {
      d[j, b] := d[m - 1, b];
    }
    ghost var R := Mat(d, m);
    for a := 0 to m
      invariant forall x, y :: 0 <= x < d.Length0 && 0 <= y < d.Length1 ==>
                  d[x, y] == if y == j && x < a then R[x][m - 1]
                             else if x < m && y < m then R[x][y]
                             else old(d[x, y])
    {
      d[a, j] := d[a, m - 1];
    }
    SameEntries(Mat(d, m - 1), Compacted(M, j), m - 1);
  }

  /**
   Compaction only relabels: entries away from row and column j keep their
   value, row and column j carry the former last row and column.
   */
  lemma CompactedFrame(M: Matrix, j: nat)
    requires IsSquare(M, |M|) && j < |M|
    ensures forall a, b :: 0 <= a < |M| - 1 && 0 <= b < |M| - 1 && a != j && b != j ==>
              Compacted(M, j)[a][b] == M[a][b]
    ensures forall b :: 0 <= b < |M| - 1 && j < |M| - 1 && b != j ==>
              Compacted(M, j)[j][b] == M[|M| - 1][b] && Compacted(M, j)[b][j] == M[b][|M| - 1]
    ensures j < |M| - 1 ==> Compacted(M, j)[j][j] == M[|M| - 1][|M| - 1]
  {
  }

  /** Compaction keeps a symmetric matrix with zero diagonal so. */
  lemma CompactedKeepsMetric(M: Matrix, j: nat)
    requires IsSquare(M, |M|) && j < |M| && Symmetric(M) && ZeroDiagonal(M)
    ensures Symmetric(Compacted(M, j)) && ZeroDiagonal(Compacted(M, j))
  {
  }

  /** The node list after compaction: slot j takes the last node, the last slot is dropped. */
  function RelocatedNodes(ns: seq<Tree>, j: nat): (rs: seq<Tree>)
    requires j < |ns|
    ensures |rs| == |ns| - 1
    ensures forall a :: 0 <= a < |rs| ==> rs[a] == ns[Source(j, |ns|, a)]
  {
    ns[j := ns[|ns| - 1]][..|ns| - 1]
  }

  /** The node joining i and j. */
  function Joined(ns: seq<Tree>, i: nat, j: nat, li: real, lj: real): (t: Tree)
    requires i < |ns| && j < |ns|
    ensures Children(t) == [Branch(ns[i], li), Branch(ns[j], lj)]
  {
    Internal(Branch(ns[i], li), Branch(ns[j], lj))
  }

  /** Exchanging z for y and then removing x from a sum s gives back the
      sum minus z, whatever the multisets are. */
  lemma MultisetExchange(r: multiset<string>, s: multiset<string>, t: multiset<string>,
                         y: multiset<string>, z: multiset<string>)
    requires s + z == t + y && r + y == s
    ensures r + z == t
  {
    assert r + z + y == t + y;
    assert r + z == r + z + y - y;
  }

  lemma MultisetAbsorb(a: multiset<string>, b: multiset<string>, x: multiset<string>, y: multiset<string>)
    requires a + x == b + (x + y)
    ensures a == b + y
  {
    assert a + x - x == a;
    assert b + (x + y) - x == b + y;
  }

  lemma MultisetCancel(a: multiset<string>, b: multiset<string>, x: multiset<string>)
    requires a + x == b + x
    ensures a == b
  {
    assert a == a + x - x;
  }

  /** The slots of the relocated list, as sequence facts. */
  lemma RelocatedParts(ns: seq<Tree>, j: nat)
    requires j < |ns|
    ensures |ns[j := ns[|ns| - 1]]| == |ns|
    ensures ns[j := ns[|ns| - 1]][|ns| - 1] == ns[|ns| - 1]
    ensures RelocatedNodes(ns, j) == ns[j := ns[|ns| - 1]][..|ns| - 1]
  {
  }

  /** Removing slot j loses exactly the leaves of the node that was there. */
  lemma RelocatedNodesLeaves(ns: seq<Tree>, j: nat)
    requires j < |ns|
    ensures LeafSum(RelocatedNodes(ns, j)) + Leaves(ns[j]) == LeafSum(ns)
  {
    var n := |ns| - 1;
    var last := ns[n];
    var ns2 := ns[j := last];
    RelocatedParts(ns, j);
    LeafSumUpdate(ns, j, last);
    LeafSumDropLast(ns2, n);
    MultisetExchange(LeafSum(RelocatedNodes(ns, j)), LeafSum(ns2), LeafSum(ns), Leaves(last), Leaves(ns[j]));
  }

  /**
   Replacing node i by the join of i and j and then removing slot j keeps the
   taxon names below the active list.
   */
  lemma JoinKeepsLeaves(ns: seq<Tree>, i: nat, j: nat, li: real, lj: real)
    requires i < |ns| && j < |ns| && i != j
    ensures LeafSum(RelocatedNodes(ns[i := Joined(ns, i, j, li, lj)], j)) == LeafSum(ns)
  {
    var node := Joined(ns, i, j, li, lj);
    var ns1 := ns[i := node];
    LeafSumUpdate(ns, i, node);
    assert Leaves(node) == Leaves(ns[i]) + Leaves(ns[j]);
    RelocatedNodesLeaves(ns1, j);
    assert ns1[j] == ns[j];
    MultisetAbsorb(LeafSum(ns1), LeafSum(ns), Leaves(ns[i]), Leaves(ns[j]));
    MultisetCancel(LeafSum(RelocatedNodes(ns1, j)), LeafSum(ns), Leaves(ns[j]));
  }

  /** The new node stays in the active list, at slot i or, if i was last, at slot j. */
  lemma JoinStaysActive(ns: seq<Tree>, i: nat, j: nat, li: real, lj: real)
    requires i < |ns| && j < |ns| && i != j
    ensures Joined(ns, i, j, li, lj) in RelocatedNodes(ns[i := Joined(ns, i, j, li, lj)], j)
  {
    var node := Joined(ns, i, j, li, lj);
    var rs := RelocatedNodes(ns[i := node], j);
    if i == |ns| - 1 {
      assert rs[j] == node;
    } else {
      assert rs[i] == node;
    }
  }

  /** With clamping on, the join keeps every branch length non-negative. */
  lemma JoinKeepsNonNegative(ns: seq<Tree>, i: nat, j: nat, li: real, lj: real)
    requires i < |ns| && j < |ns| && AllNonNegative(ns) && li >= 0.0 && lj >= 0.0
    ensures AllNonNegative(RelocatedNodes(ns[i := Joined(ns, i, j, li, lj)], j))
  {
    var ns1 := ns[i := Joined(ns, i, j, li, lj)];
    assert AllNonNegative(ns1);
  }
}
