/**
 Tree nodes built by relaxed neighbor joining.

 A leaf wraps a taxon name; an internal node owns exactly two children. The
 branch length of a node is assigned just before the node is attached to its
 parent, so it is kept on the edge from the parent (`Branch`).
 */
module Trees {

  datatype Tree = Leaf(name: string) | Internal(left: Branch, right: Branch)

  datatype Branch = Branch(node: Tree, length: real)

  /** The emitted tree: a synthetic root owning a list of children. */
  datatype Root = Root(children: seq<Branch>)

  /** The children of a node, in order. */
  function Children(t: Tree): (cs: seq<Branch>)
    ensures t.Leaf? <==> cs == []
    ensures t.Internal? ==> cs == [t.left, t.right]
  {
    match t
    case Leaf(_) => []
    case Internal(l, r) => [l, r]
  }

  /** The taxon names below a node, with multiplicity. */
  function Leaves(t: Tree): multiset<string> {
    match t
    case Leaf(n) => multiset{n}
    case Internal(l, r) => Leaves(l.node) + Leaves(r.node)
  }

  /** The taxon names below a list of active nodes. */
  function LeafSum(ns: seq<Tree>): multiset<string> {
    if ns == [] then multiset{} else Leaves(ns[0]) + LeafSum(ns[1..])
  }

  /** The taxon names below the children of a root. */
  function BranchLeaves(bs: seq<Branch>): multiset<string> {
    if bs == [] then multiset{} else Leaves(bs[0].node) + BranchLeaves(bs[1..])
  }

  function RootLeaves(t: Root): multiset<string> {
    BranchLeaves(t.children)
  }

  /** Every branch length below the node is non-negative. */
  predicate NonNegative(t: Tree) {
    match t
    case Leaf(_) => true
    case Internal(l, r) =>
      l.length >= 0.0 && r.length >= 0.0 && NonNegative(l.node) && NonNegative(r.node)
  }

  predicate AllNonNegative(ns: seq<Tree>) {
    forall k :: 0 <= k < |ns| ==> NonNegative(ns[k])
  }

  predicate RootNonNegative(t: Root) {
    forall k :: 0 <= k < |t.children| ==>
      t.children[k].length >= 0.0 && NonNegative(t.children[k].node)
  }

  /** The initial active list: one leaf per taxon name, in the given order. */
  function LeafNodes(names: seq<string>): (ns: seq<Tree>)
    ensures |ns| == |names|
    ensures forall k :: 0 <= k < |names| ==> ns[k] == Leaf(names[k])
  {
    seq(|names|, k requires 0 <= k < |names| => Leaf(names[k]))
  }

  /** The initial leaves carry each taxon name exactly as often as it is given. */
  lemma {:induction false} LeafNodesLeaves(names: seq<string>)
    ensures LeafSum(LeafNodes(names)) == multiset(names)
    ensures AllNonNegative(LeafNodes(names))
  {
    if names != [] {
      LeafNodesLeaves(names[1..]);
      assert LeafNodes(names)[1..] == LeafNodes(names[1..]);
      assert names == [names[0]] + names[1..];
    }
  }

  /** The head and tail of a prefix of a list. */
  lemma PrefixTail<T>(ns: seq<T>, k: nat)
    requires 0 < k < |ns|
    ensures ns[..k][0] == ns[0] && ns[..k][1..] == ns[1..][..k - 1]
    ensures ns[1..][k - 1] == ns[k] && ns[1..][k..] == ns[k + 1..]
  {
  }

  lemma Regroup<T>(h: multiset<T>, a: multiset<T>, b: multiset<T>, c: multiset<T>)
    ensures h + (a + b + c) == h + a + b + c
  {
  }

  /** Splitting the list at position k. */
  lemma {:induction false} LeafSumSplit(ns: seq<Tree>, k: nat)
    requires k < |ns|
    ensures LeafSum(ns) == LeafSum(ns[..k]) + Leaves(ns[k]) + LeafSum(ns[k + 1..])
  {
    if k > 0 {
      LeafSumSplit(ns[1..], k - 1);
      PrefixTail(ns, k);
      var h, a := Leaves(ns[0]), LeafSum(ns[1..][..k - 1]);
      var b, c := Leaves(ns[k]), LeafSum(ns[k + 1..]);
      assert LeafSum(ns) == h + (a + b + c);
      assert LeafSum(ns[..k]) == h + a;
      Regroup(h, a, b, c);
    } else {
      assert ns[..0] == [];
    }
  }

  /** Overwriting position k exchanges the leaves of ns[k] for those of x. */
  lemma LeafSumUpdate(ns: seq<Tree>, k: nat, x: Tree)
    requires k < |ns|
    ensures LeafSum(ns[k := x]) + Leaves(ns[k]) == LeafSum(ns) + Leaves(x)
  {
    LeafSumSplit(ns, k);
    LeafSumSplit(ns[k := x], k);
    assert ns[k := x][..k] == ns[..k];
    assert ns[k := x][k + 1..] == ns[k + 1..];
  }

  /** Dropping the last node removes exactly its leaves. */
  lemma LeafSumDropLast(ns: seq<Tree>, n: nat)
    requires n + 1 == |ns|
    ensures LeafSum(ns[..n]) + Leaves(ns[n]) == LeafSum(ns)
  {
    LeafSumSplit(ns, n);
    assert ns[n + 1..] == [];
  }

  /** The head and tail of a concatenation with a non-empty front. */
  lemma AppendTail<T>(bs: seq<T>, cs: seq<T>)
    requires bs != []
    ensures (bs + cs)[0] == bs[0] && (bs + cs)[1..] == bs[1..] + cs
  {
  }

  lemma BranchLeavesCons(bs: seq<Branch>, cs: seq<Branch>)
    requires bs != []
    ensures BranchLeaves(bs + cs) == Leaves(bs[0].node) + BranchLeaves(bs[1..] + cs)
  {
    AppendTail(bs, cs);
  }

  lemma {:induction false} BranchLeavesAppend(bs: seq<Branch>, cs: seq<Branch>)
    ensures BranchLeaves(bs + cs) == BranchLeaves(bs) + BranchLeaves(cs)
  {
    if bs != [] {
      BranchLeavesAppend(bs[1..], cs);
      BranchLeavesCons(bs, cs);
    } else {
      assert bs + cs == cs;
    }
  }

  /** A single child carries exactly the leaves of its node. */
  lemma BranchLeavesSingle(b: Branch)
    ensures BranchLeaves([b]) == Leaves(b.node)
  {
    assert [b][1..] == [];
  }

  /** The children of a node carry exactly its leaves, unless it is a leaf itself. */
  lemma ChildrenLeaves(t: Tree)
    requires t.Internal?
    ensures BranchLeaves(Children(t)) == Leaves(t)
  {
    var cs := Children(t);
    assert cs[1..] == [t.right] && cs[1..][1..] == [];
    assert BranchLeaves(cs[1..]) == Leaves(t.right.node) + BranchLeaves([]);
  }
}
