/**
 The relaxed search for a pair of active nodes that are each other's nearest
 neighbour under the transformed distance

   T(i, k) = coef * d[i][k] - r[k] - r[i],   coef = m / (m - 2).

 Candidates are tried in a given scan order; the first reciprocal one wins.
 */
module Search {
  import opened Matrices

  function Abs(x: real): (y: real)
    ensures y >= 0.0 && (y == x || y == -x)
  {
    if x < 0.0 then -x else x
  }

  /** The coefficient m / (m - 2) of the transformed distance. */
  function Coef(m: nat): (c: real)
    requires m >= 3
    ensures c * (m as real - 2.0) == m as real && c > 1.0
  {
    assert (1.0 / (m as real - 2.0)) * (m as real - 2.0) == 1.0;
    m as real * (1.0 / (m as real - 2.0))
  }

  /** Row i of the transformed distances, before the self entry is replaced. */
  function TransformedRow(M: Matrix, r: seq<real>, i: nat): (t: seq<real>)
    requires IsSquare(M, |M|) && |M| >= 3 && |r| == |M| && i < |M|
    ensures |t| == |M|
    ensures forall k :: 0 <= k < |M| ==> t[k] + r[k] + r[i] == Coef(|M|) * M[i][k]
  {
    seq(|M|, k requires 0 <= k < |M| => Coef(|M|) * M[i][k] - r[k] - r[i])
  }

  /** The stand-in for the self distance: twice |t[0]| plus twice |t[m-1]|. */
  function Sentinel(t: seq<real>): (s: real)
    requires |t| > 0
    ensures s >= 0.0 && s >= t[0] && s >= t[|t| - 1]
  {
    2.0 * Abs(t[0]) + 2.0 * Abs(t[|t| - 1])
  }

  /** Row i as it is searched: the self entry overwritten by the sentinel. */
  function ProbeRow(M: Matrix, r: seq<real>, i: nat): (t: seq<real>)
    requires IsSquare(M, |M|) && |M| >= 3 && |r| == |M| && i < |M|
    ensures |t| == |M|
    ensures forall k :: 0 <= k < |M| && k != i ==> t[k] == TransformedRow(M, r, i)[k]
    ensures t[i] == Sentinel(TransformedRow(M, r, i))
  {
    var row := TransformedRow(M, r, i);
    row[i := Sentinel(row)]
  }

  /** Index of the minimum of s[..n], the lowest one among equal minima. */
  function ArgMinPrefix(s: seq<real>, n: nat): (k: nat)
    requires 0 < n <= |s|
    ensures k < n
    ensures forall t :: 0 <= t < n ==> s[k] <= s[t]
    ensures forall t :: 0 <= t < k ==> s[t] > s[k]
  {
    if n == 1 then 0
    else
      var k := ArgMinPrefix(s, n - 1);
      if s[n - 1] < s[k] then n - 1 else k
  }

  /** numpy's argmin: the first index holding the smallest value. */
  function ArgMin(s: seq<real>): (k: nat)
    requires |s| > 0
    ensures k < |s|
    ensures forall t :: 0 <= t < |s| ==> s[k] <= s[t]
    ensures forall t :: 0 <= t < k ==> s[t] > s[k]
  {
    ArgMinPrefix(s, |s|)
  }

  /** The index the search pairs with i. */
  function Nearest(M: Matrix, r: seq<real>, i: nat): (j: nat)
    requires IsSquare(M, |M|) && |M| >= 3 && |r| == |M| && i < |M|
    ensures j < |M|
    ensures forall k :: 0 <= k < |M| ==> ProbeRow(M, r, i)[j] <= ProbeRow(M, r, i)[k]
    ensures forall k :: 0 <= k < j ==> ProbeRow(M, r, i)[k] > ProbeRow(M, r, i)[j]
  {
    ArgMin(ProbeRow(M, r, i))
  }

  predicate InRange(order: seq<nat>, m: nat) {
    forall t :: 0 <= t < |order| ==> order[t] < m
  }

  /**
   The nearest node of every active node. The search computes an entry only
   when it needs it; as the entries are pure, the whole vector describes it.
   */
  function NearestAll(M: Matrix, r: seq<real>): (near: seq<nat>)
    requires IsSquare(M, |M|) && |M| >= 3 && |r| == |M|
    ensures |near| == |M| && InRange(near, |M|)
    ensures forall i :: 0 <= i < |M| ==> near[i] == Nearest(M, r, i)
  {
    seq(|M|, i requires 0 <= i < |M| => Nearest(M, r, i))
  }

  /** Candidate i is accepted: its nearest node has i as its own nearest node. */
  predicate Reciprocal(near: seq<nat>, i: nat)
    requires InRange(near, |near|) && i < |near|
  {
    near[near[i]] == i
  }

  /**
   A scan order: m entries covering every index below m (by counting, each
   index then occurs exactly once).
   */
  predicate IsPermutation(order: seq<nat>, m: nat) {
    |order| == m && InRange(order, m) && forall k :: 0 <= k < m ==> k in order
  }

  /** The indices 0 .. m-1 in increasing order, the scan when not randomised. */
  function Range(m: nat): (order: seq<nat>)
    ensures IsPermutation(order, m)
  {
    var order := seq(m, k requires 0 <= k < m => k as nat);
    forall k | 0 <= k < m
      ensures k in order
    {
      assert order[k] == k;
    }
    order
  }

  datatype Outcome = Found(i: nat, j: nat) | NoPair

  /** The search, as a function of the nearest nodes and the scan order. */
  function Scan(near: seq<nat>, order: seq<nat>): (o: Outcome)
    requires InRange(near, |near|) && InRange(order, |near|)
    ensures o.Found? ==> o.i < |near| && o.j < |near|
    decreases |order|
  {
    if order == [] then NoPair
    else if Reciprocal(near, order[0]) then Found(order[0], near[order[0]])
    else Scan(near, order[1..])
  }

  /** Computes the probe row of candidate i from the buffer. */
  method ProbeRowOf(d: array2<real>, m: nat, r: seq<real>, i: nat) returns (t: seq<real>)
    requires 3 <= m <= d.Length0 && m <= d.Length1 && |r| == m && i < m
    ensures t == ProbeRow(Mat(d, m), r, i)
  {
    ghost var M := Mat(d, m);
    var coef := Coef(m);
    t := [];
    var k := 0;
    while k < m
      invariant 0 <= k <= m
      invariant |t| == k
      invariant forall u :: 0 <= u < k ==> t[u] == TransformedRow(M, r, i)[u]
    {
      t := t + [coef * d[i, k] - r[k] - r[i]];
      k := k + 1;
    }
    assert t == TransformedRow(M, r, i);
    t := t[i := Sentinel(t)];
  }

  /**
   Tries the candidates in scan order; for candidate i it finds j, the nearest
   node of i, and accepts the pair when the nearest node of j is i.
   */
  method FindPair(d: array2<real>, m: nat, r: seq<real>, order: seq<nat>) returns (o: Outcome)
    requires 3 <= m <= d.Length0 && m <= d.Length1 && |r| == m && InRange(order, m)
    ensures o == Scan(NearestAll(Mat(d, m), r), order)
  {
    ghost var near := NearestAll(Mat(d, m), r);
    var chosePair := false;
    var i, j := 0, 0;
    var t := 0;
    while t < |order|
      invariant 0 <= t <= |order|
      invariant Scan(near, order[t..]) == Scan(near, order)
    {
      assert order[t..][0] == order[t] && order[t..][1..] == order[t + 1..];
      i := order[t];
      var row := ProbeRowOf(d, m, r, i);
      j := ArgMin(row);
      var back := ProbeRowOf(d, m, r, j);
      if ArgMin(back) == i {
        chosePair := true;
        break;
      }
      t := t + 1;
    }
    if chosePair {
      o := Found(i, j);
    } else {
      o := NoPair;
    }
  }

  /** The search reports NoPair exactly when no candidate in the order is reciprocal. */
  lemma {:induction false} ScanFailsIffNoneReciprocal(near: seq<nat>, order: seq<nat>)
    requires InRange(near, |near|) && InRange(order, |near|)
    ensures Scan(near, order) == NoPair <==>
            forall t :: 0 <= t < |order| ==> !Reciprocal(near, order[t])
    decreases |order|
  {
    if order != [] && !Reciprocal(near, order[0]) {
      var rest := order[1..];
      ScanFailsIffNoneReciprocal(near, rest);
      forall t | 0 <= t < |order| && t > 0
        ensures order[t] == rest[t - 1]
      {
      }
    }
  }

  /**
   A pair found by the search is the first reciprocal candidate i in scan
   order (returned as its position t), paired with its nearest node j, whose
   nearest node is i again.
   */
  lemma {:induction false} ScanFindsFirstReciprocal(near: seq<nat>, order: seq<nat>) returns (t: nat)
    requires InRange(near, |near|) && InRange(order, |near|)
    requires Scan(near, order).Found?
    ensures t < |order| && order[t] == Scan(near, order).i
    ensures forall u :: 0 <= u < t ==> !Reciprocal(near, order[u])
    ensures Scan(near, order).j == near[order[t]]
    ensures near[Scan(near, order).j] == order[t]
    decreases |order|
  {
    if Reciprocal(near, order[0]) {
      t := 0;
    } else {
      var rest := order[1..];
      var t' := ScanFindsFirstReciprocal(near, rest);
      t := t' + 1;
      forall u | 0 < u < t
        ensures order[u] == rest[u - 1]
      {
      }
    }
  }

  /**
   The sentinel can only be picked in row 0: for every other row, entry 0 is
   at most the sentinel and comes first, so argmin never returns i itself.
   */
  lemma NearestAvoidsSelf(M: Matrix, r: seq<real>, i: nat)
    requires IsSquare(M, |M|) && |M| >= 3 && |r| == |M| && 0 < i < |M|
    ensures Nearest(M, r, i) != i
  {
  }

  /** In a symmetric matrix the transformed distance is symmetric too. */
  lemma TransformedSymmetric(M: Matrix, r: seq<real>, a: nat, b: nat)
    requires IsSquare(M, |M|) && |M| >= 3 && |r| == |M| && Symmetric(M)
    requires a < |M| && b < |M| && a != b
    ensures ProbeRow(M, r, a)[b] == ProbeRow(M, r, b)[a]
  {
    var c := Coef(|M|);
    assert M[a][b] == M[b][a];
    assert c * M[a][b] == c * M[b][a];
    assert ProbeRow(M, r, a)[b] == TransformedRow(M, r, a)[b] == c * M[a][b] - r[b] - r[a];
    assert ProbeRow(M, r, b)[a] == TransformedRow(M, r, b)[a] == c * M[b][a] - r[a] - r[b];
  }

  /** The smallest value of each probe row. */
  function RowMinima(M: Matrix, r: seq<real>): (v: seq<real>)
    requires IsSquare(M, |M|) && |M| >= 3 && |r| == |M|
    ensures |v| == |M|
    ensures forall i :: 0 <= i < |M| ==> v[i] == ProbeRow(M, r, i)[Nearest(M, r, i)]
  {
    seq(|M|, i requires 0 <= i < |M| => ProbeRow(M, r, i)[Nearest(M, r, i)])
  }

  /**
   A symmetric matrix always has a reciprocal index: the first row whose
   minimum is smallest overall. Whatever r is.
   */
  lemma SymmetricHasReciprocal(M: Matrix, r: seq<real>) returns (a: nat)
    requires IsSquare(M, |M|) && |M| >= 3 && |r| == |M| && Symmetric(M)
    ensures a < |M| && Reciprocal(NearestAll(M, r), a)
  {
    var v := RowMinima(M, r);
    a := ArgMin(v);
    var b := Nearest(M, r, a);
    if b != a {
      var c := Nearest(M, r, b);
      TransformedSymmetric(M, r, a, b);
      // Row b holds v[a] at column a, and v[a] is the smallest row minimum.
      assert v[b] <= ProbeRow(M, r, b)[a] == v[a] <= v[b];
      // A column c < a holding that value in row b would give row c (or, when
      // c == b, row b itself) a minimum of v[a] at a lower index than a.
      if c != b {
        TransformedSymmetric(M, r, b, c);
      }
      assert c == a;
    }
  }

  /** On a symmetric matrix a full scan always finds a pair. */
  lemma ScanSucceedsOnSymmetric(M: Matrix, r: seq<real>, order: seq<nat>)
    requires IsSquare(M, |M|) && |M| >= 3 && |r| == |M| && Symmetric(M)
    requires IsPermutation(order, |M|)
    ensures Scan(NearestAll(M, r), order).Found?
  {
    var a := SymmetricHasReciprocal(M, r);
    assert a in order;
    ScanFailsIffNoneReciprocal(NearestAll(M, r), order);
  }

  /**
   An accepted pair with i == j (which the source's assertion rejects) can
   only come from candidate 0.
   */
  lemma SelfPairOnlyAtZero(M: Matrix, r: seq<real>, order: seq<nat>)
    requires IsSquare(M, |M|) && |M| >= 3 && |r| == |M| && InRange(order, |M|)
    requires Scan(NearestAll(M, r), order).Found?
    requires Scan(NearestAll(M, r), order).i == Scan(NearestAll(M, r), order).j
    ensures Scan(NearestAll(M, r), order).i == 0
  {
    var t := ScanFindsFirstReciprocal(NearestAll(M, r), order);
    if order[t] != 0 {
      NearestAvoidsSelf(M, r, order[t]);
    }
  }
}
