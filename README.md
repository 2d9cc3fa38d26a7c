# Relaxed neighbor joining, modelled in Dafny

This project models `rnj` from `rnj.py`, the relaxed neighbor-joining
method of Evans, Sheneman and Foster. Given a symmetric matrix of pairwise
distances between taxa, `rnj` builds an unrooted binary tree with branch
lengths. While more than two nodes are active, each pass does four things:

1. It recomputes the normalised column sums `r`.
2. It scans the active indices in a (possibly shuffled) order. For a
   candidate `i` it finds `j`, the argmin of the transformed distances
   `T(i,k) = coef*d[i][k] - r[k] - r[i]` with `coef = m/(m-2)`. The self
   entry of that row is replaced by `2|T(i,0)| + 2|T(i,m-1)|`. The candidate
   is accepted when the argmin of row `j` is `i` again.
3. It hangs the two nodes under a new internal node with branch lengths
   `(d[i][j] ± (r[i] - r[j]))/2`. These are clamped at zero when
   `no_negatives` is set. It then writes the new node's distances
   `(d[i][k] + d[j][k] - d[i][j])/2` over row and column `i`.
4. It removes slot `j` by copying the last row, column and node into it and
   shrinking everything by one.

The last two nodes are joined under a synthetic root.

The modules follow those steps:

- `Matrices` (matrices.dfy): the working matrix and the column sums.
- `Search` (search.dfy): transformed distances, argmin and the reciprocal
  pair scan.
- `Joining` (joining.dfy): branch lengths, merge and compaction.
- `Trees` (trees.dfy): the tree values.
- `Rnj` (rnj.dfy): one pass, the whole run, and the main loop.
- `Properties` (properties.dfy): what a run guarantees.

The source mutates a numpy matrix in place. The model keeps it as an
`array2<real>` of size m0 x m0 and works on its leading m x m block.
`d = d[0:m-1, 0:m-1]` is a view on the same buffer, so shrinking is
`m := m - 1`. The node list is a `seq<Tree>` that the loop reassigns.

Each imperative method is proved equal to a function:

- `ComputeRowSums` is proved equal to `RowSums`.
- `FindPair` is proved equal to `Scan` over the nearest node of every
  active node (`NearestAll`). The code computes a nearest node only when
  the scan reaches it; the values are pure, so the whole vector describes
  the same search.
- `MergeRows` is proved equal to `Merged`.
- `CompactRows` is proved equal to `Compacted`.
- `JoinPass` is proved equal to `Pass`.
- `Step`, one loop iteration, is proved to preserve the outcome of `Run`.
- `RelaxedNeighborJoining` is proved equal to `Run`.

The lemmas about those functions carry the algorithm's guarantees.

Where the code and the method's description differ, the model follows the
code:

- **Too few taxa.** Fewer than three taxa are not rejected up front.
  - With two taxa the loop is skipped. Both nodes are leaves, so the root
    gets only the second one, and the first taxon is missing from the tree
    (`TwoTaxaDropFirst`).
  - With fewer than two taxa, indexing `nodes[0]` or `nodes[1]` fails
    (`TooFewTaxa`). No other input yields that error (`Rnj.Run`).
- **Column sums.** `r` is summed along axis 0, down the columns, not along
  the rows. The two agree on a symmetric matrix (`ColumnSumIsRowSum`).
- **The sentinel.** It is not always larger than the rest of its row. For
  row 0 of a zero-distance matrix it ties with the minimum, so argmin picks
  `i` itself and the `i != j` assertion fails (`ZeroDistancesHitSamePair`).
  This cannot happen in any row but row 0 (`NearestAvoidsSelf`).
- **Error kinds.** The source raises a generic exception when the search
  fails and uses `assert` for its two sanity checks. The model returns four
  separate error kinds: `SearchFailure`, `SamePair`, `SelfDistanceNonZero`
  and `TooFewTaxa`.

Main results:

- On a symmetric matrix a full scan always finds a reciprocal pair, whatever
  the scan order (`ScanSucceedsOnSymmetric`).
- For at least three taxa and a symmetric matrix with a zero diagonal, a run
  either stops at the `i != j` assertion or returns a tree
  (`RelaxedNeighborJoiningOutcome`). The tree's leaves are exactly the
  input taxa, with multiplicity. With clamping on, every branch length in it
  is non-negative.

## Model

| member | source | states |
|---|---|---|
| `Matrices.ComputeRowSums` | rnj.py:54-57 | for m >= 3 active nodes, returns each column sum of the active block times 1/(m-2) |
| `Matrices.ColumnSumIsRowSum` | rnj.py:54-57 | on a symmetric matrix, the axis-0 sums the code takes equal the row sums |
| `Matrices.RowSums` | rnj.py:57 | r has one entry per active node, and r[k] times (m - 2) is the sum of column k |
| `Search.Coef` | rnj.py:67 | coef times (m - 2) is m, so coef = m/(m-2) > 1 |
| `Search.TransformedRow` | rnj.py:72 | entry k of row i is the transformed distance: T(i,k) + r[k] + r[i] = coef · d[i][k] |
| `Search.Sentinel` | rnj.py:75-76 | the self-entry stand-in is >= 0 and >= the entries at 0 and m-1 it is built from |
| `Search.ProbeRow` | rnj.py:72-76 | the searched row i has T(i,k) at every k != i, and at i the sentinel 2\|T(i,0)\| + 2\|T(i,m-1)\| from the unmodified row |
| `Search.Nearest` | rnj.py:72-78 | j = argmin of candidate i's searched row: an active index whose value is <= every entry, every earlier entry strictly larger |
| `Search.ProbeRowOf` | rnj.py:66-76 | computes that row for candidate i from the buffer, with coef = m/(m-2) |
| `Search.ArgMinPrefix` | rnj.py:78 | the index of a minimum of the first n entries, and the lowest one among equal minima |
| `Search.ArgMin` | rnj.py:78 | numpy argmin: an index whose value is <= every entry, with every earlier entry strictly larger |
| `Search.Range` | rnj.py:61-63 | the unshuffled scan 0..m-1 is a permutation of the active indices |
| `Search.Scan` | rnj.py:68-90 | a found pair consists of active indices |
| `Search.FindPair` | rnj.py:64-93 | the for/break scan with the chose_pair flag returns exactly what `Scan` specifies for the nearest nodes of the active block |
| `Search.ScanFailsIffNoneReciprocal` | rnj.py:68-93 | the search reports failure iff no candidate in the scan order is reciprocal |
| `Search.ScanFindsFirstReciprocal` | rnj.py:68-90 | a found (i, j) has i at some position t of the order, every earlier candidate non-reciprocal, j = nearest(i) and nearest(j) = i |
| `Search.NearestAvoidsSelf` | rnj.py:74-78 | for every candidate i > 0, argmin never returns i itself |
| `Search.TransformedSymmetric` | rnj.py:72 | on a symmetric matrix T(a,b) = T(b,a) for a != b |
| `Search.SymmetricHasReciprocal` | rnj.py:68-90 | every symmetric matrix with m >= 3 has a reciprocal index, for any r |
| `Search.ScanSucceedsOnSymmetric` | rnj.py:92-93 | on a symmetric matrix a scan over a permutation never fails |
| `Search.SelfPairOnlyAtZero` | rnj.py:74-94 | an accepted pair with i == j can only be candidate 0 |
| `Joining.Clamp` | rnj.py:100-103 | with no_negatives the result is max(0, x), so >= 0 and x itself when x >= 0; otherwise x |
| `Joining.BranchLength` | rnj.py:97-103 | the length (d[a][b] + r[a] - r[b])/2 exactly without clamping; with no_negatives it is >= 0 and >= that value, i.e. Clamp((d[a][b] + r[a] - r[b])/2) |
| `Joining.BranchLengthsSplitDistance` | rnj.py:96-103 | unclamped, the two branch lengths add up to d[i][j]; clamped, both are >= 0 and add up to at least d[i][j] |
| `Joining.MergeRows` | rnj.py:108-112 | the active block becomes `Merged`: column i, then row i, set to (d[i][k]+d[j][k]-d[i][j])/2, then d[i][i] = 0; entries outside the block unchanged |
| `Joining.MergedKeepsMetric` | rnj.py:109-112 | the merge keeps a symmetric, zero-diagonal matrix so |
| `Joining.MergedRecoversAdditive` | rnj.py:109 | if d[i][k] = li + x[k], d[j][k] = lj + x[k] and d[i][j] = li + lj, the merged row and column hold exactly x[k] |
| `Joining.CompactRows` | rnj.py:115-119 | after the row copy and then the column copy, entry (a,b) of the block is the old entry at (src a, src b), where src j = m-1; d[j][j] is the old d[m-1][m-1]; the shrunk block is `Compacted`; nothing outside the block changes |
| `Joining.CompactedFrame` | rnj.py:115-119 | entries away from row and column j are unchanged; row and column j carry the former last row and column |
| `Joining.CompactedKeepsMetric` | rnj.py:115-119 | compaction keeps a symmetric, zero-diagonal matrix so |
| `Joining.Contracted` | rnj.py:108-119 | merging i and j and compacting j leaves a square matrix one smaller |
| `Joining.ContractedEntries` | rnj.py:108-119 | entry (a, b) of the contracted matrix is the merged entry at (src a, src b) |
| `Joining.ContractedIsMergeThenCompact` | rnj.py:108-119 | the contracted matrix is exactly the merge followed by the compaction |
| `Joining.RelocatedNodes` | rnj.py:120-121 | the node list shrinks by one, and slot a holds the old node at src a, the same relabelling as the matrix |
| `Joining.Joined` | rnj.py:105-106 | the new node's children are the former node i then the former node j, with their lengths |
| `Joining.RelocatedNodesLeaves` | rnj.py:120-121 | removing slot j loses exactly the leaves of the node at j |
| `Joining.JoinKeepsLeaves` | rnj.py:105-121 | joining i and j into slot i, then compacting j, keeps the multiset of taxon names below the active nodes |
| `Joining.JoinStaysActive` | rnj.py:113-121 | the new node is still active after compaction |
| `Joining.JoinKeepsNonNegative` | rnj.py:97-106 | with both new lengths >= 0, every branch length below the active nodes stays >= 0 |
| `Trees.LeafNodesLeaves` | rnj.py:48 | the initial leaves carry each taxon name as often as it is given, and have no branch lengths yet |
| `Trees.LeafNodes` | rnj.py:48 | one leaf per taxon name, in the order of the names |
| `Trees.ChildrenLeaves` | rnj.py:132-134 | an internal node's children carry exactly its leaves |
| `Rnj.Order` | rnj.py:59-61 | the scan order of a pass is a permutation of the active indices, the next shuffle when randomising |
| `Rnj.Later` | rnj.py:59-61 | after a randomised pass one valid shuffle per later pass remains; unrandomised, nothing is consumed |
| `Rnj.Pass` | rnj.py:50-121 | a successful pass leaves exactly one node fewer, and a square matrix of that size; a failing pass never reports `TooFewTaxa` |
| `Rnj.Finish` | rnj.py:123-134 | the node with more children becomes the root candidate, nodes[0] on a tie; the root owns its children followed by the other node at Clamp(d[0][1]) |
| `Rnj.Run` | rnj.py:50-134 | the run fails with `TooFewTaxa` exactly when fewer than two nodes are active; with more than two it passes, with two it finishes |
| `Rnj.RunPass` | rnj.py:50-121 | a run over more than two active nodes never reports `TooFewTaxa` |
| `Rnj.RunWith` | rnj.py:50-121 | one pass in the given order, then the rest of the run, never reports `TooFewTaxa` |
| `Rnj.Continue` | rnj.py:92-121 | after a pass, its error is propagated (never `TooFewTaxa`) or the run goes on from its state |
| `Rnj.RunUnfolds` | rnj.py:49-121 | with more than two nodes, a run is one pass followed by the run from the pass's state, or the pass's error |
| `Rnj.RunStops` | rnj.py:123-134 | with at most two nodes the run emits the root of the last two, or fails for fewer than two |
| `Rnj.JoinPass` | rnj.py:52-121 | one loop iteration on the buffer fails exactly when `Pass` fails, with the same error; otherwise it returns `Pass`'s node list and leaves `Pass`'s matrix in the active block |
| `Rnj.Step` | rnj.py:50-121 | one loop iteration on the buffer: a failure is the outcome of the whole run; otherwise the run from the new state has the same outcome |
| `Rnj.RelaxedNeighborJoining` | rnj.py:35-134 | the whole loop and finalisation return exactly `Run` of the initial block and leaves; a successful run makes \|names\| - 2 passes |
| `Properties.PassOnMetric` | rnj.py:68-118 | on a symmetric zero-diagonal matrix, a pass fails only at the i != j assertion, never by search failure or a non-zero d[j][j] |
| `Properties.SamePairOnlyAtZero` | rnj.py:74-94 | when a pass stops at the i != j assertion, the search accepted (0, 0) |
| `Properties.PassJoins` | rnj.py:96-121 | a successful pass is the join of the found pair (i != j), merged and compacted; with clamping both lengths are >= 0 |
| `Properties.PassKeepsLeaves` | rnj.py:105-121 | a pass keeps the multiset of taxon names and leaves an internal node active |
| `Properties.PassKeepsMetric` | rnj.py:109-119 | a pass keeps the matrix symmetric with a zero diagonal |
| `Properties.PassKeepsNonNegative` | rnj.py:96-106 | with no_negatives, a pass keeps every branch length >= 0 |
| `Properties.PassOutcome` | rnj.py:68-121 | on a symmetric zero-diagonal matrix a pass fails only at the i != j assertion; on success it keeps the metric, the taxon multiset, an internal node among the last two, and non-negative lengths under clamping |
| `Properties.RunStep` | rnj.py:49-121 | one step of the run on such a matrix either stops at the i != j assertion or continues from a smaller state with the same outcome and the same guarantees |
| `Properties.FinishKeepsLeaves` | rnj.py:123-134 | with one of the last two nodes internal, the root has three children, carries exactly their taxon names, and has non-negative lengths under clamping |
| `Properties.RunOutcome` | rnj.py:50-134 | from any state with at least three active nodes on a symmetric zero-diagonal matrix, the run returns a tree or stops at the i != j assertion; a tree's root has three children, keeps the taxon multiset and, with clamping, only non-negative lengths |
| `Properties.RelaxedNeighborJoiningOutcome` | rnj.py:35-134 | for at least three taxa: a tree or the i != j assertion; a tree's root has three children, its leaves are exactly the taxa (every taxon appears, as the test's pairwise check needs); with no_negatives every length >= 0 |
| `Properties.TwoTaxaDropFirst` | rnj.py:123-134 | with two taxa the root owns only the second leaf, at length Clamp(d[0][1]) |
| `Properties.ZeroDistancesHitSamePair` | rnj.py:72-94 | three taxa at distance zero with the unshuffled scan stop at the i != j assertion |

## Left out

- Floating point. numpy's IEEE arithmetic is modelled with exact `real`
  arithmetic, including the sentinel and the `d[j][j] == 0.0` comparison.
- Randomisation. `random.shuffle` and `seed` become a parameter. `shuffles`
  holds one permutation of the active indices per pass, used when
  `randomize` is set.
- Dictionary-to-matrix conversion. `distanceDictTo2D` (rnj.py:23, 46) is
  not part of this model.
  - The model starts from the names and the dense matrix that it returns.
  - The model overwrites that matrix in place. In the source the matrix is
    local to `rnj`.
  - The model does not check the input mapping for missing or duplicated
    pairs.
- Tree construction. `TreeBuilder.createEdge`, `.deepcopy()` and the
  mutable `Parent` setter are not part of this model. Trees are immutable
  values.
  - The model assumes that `nodes[1].Parent = nodes[0]` appends `nodes[1]`
    to `nodes[0].Children`, and that the new root takes over those children
    in order.
- Assertions disabled. Python's `-O` flag turns `assert` off. The model
  always treats the two assertions as failures.
- Round-trip accuracy. The test's claim is that the output tree reproduces
  a tree-additive input matrix (test_rnj.py:21-33). That is the full
  correctness theorem of neighbor joining, and it depends on Newick parsing
  and distance computation that are not part of this model. Only the
  single-merge step of it is proved (`MergedRecoversAdditive`).
- Running time. The O(N^2 log N) claim (rnj.py:9) is not modelled.
