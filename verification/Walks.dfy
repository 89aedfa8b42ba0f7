/**
 Adjacency matrices with any kind of entries, and walks as the sequences of their nodes.
 A walk has at least one edge.
 */
module Matrices {

  type Matrix<T> = seq<seq<T>>

  ghost predicate Square<T>(m: Matrix<T>) {
    forall i :: 0 <= i < |m| ==> |m[i]| == |m|
  }

  /** w leads from i to j through nodes numbered from lo to below n. */
  ghost predicate IsWalk(lo: nat, n: nat, w: seq<nat>, i: nat, j: nat) {
    |w| >= 2 && w[0] == i && w[|w| - 1] == j && forall k :: 0 <= k < |w| ==> lo <= w[k] < n
  }

  ghost predicate InRange<T>(m: Matrix<T>, w: seq<nat>) {
    Square(m) && forall k :: 0 <= k < |w| ==> w[k] < |m|
  }
}

/**
 The weights of walks, for entries that are plain integers.
 */
module Walks {
  import opened Matrices

  ghost function Weight(m: Matrix<int>, w: seq<nat>): int
    requires InRange(m, w)
  {
    if |w| < 2 then 0 else Weight(m, w[..|w| - 1]) + m[w[|w| - 2]][w[|w| - 1]]
  }

  /** Every edge of the walk is an edge of the graph: its entry is below the mark for "no edge". */
  ghost predicate RealWalk(m: Matrix<int>, top: int, w: seq<nat>, i: nat, j: nat)
    requires Square(m)
  {
    IsWalk(0, |m|, w, i, j) && forall k :: 0 <= k < |w| - 1 ==> m[w[k]][w[k + 1]] < top
  }

  ghost predicate NonNegative(m: Matrix<int>) {
    Square(m) && forall i, j :: 0 <= i < |m| && 0 <= j < |m| ==> m[i][j] >= 0
  }

  ghost predicate Bounded(m: Matrix<int>, top: int) {
    NonNegative(m) && forall i, j :: 0 <= i < |m| && 0 <= j < |m| ==> m[i][j] <= top
  }

  lemma {:induction false} WeightNonNegative(m: Matrix<int>, w: seq<nat>)
    requires NonNegative(m) && InRange(m, w)
    ensures Weight(m, w) >= 0
  {
    if |w| >= 2 {
      WeightNonNegative(m, w[..|w| - 1]);
    }
  }

  /** The weight of a walk is the sum of the weights of its two parts. */
  lemma {:induction false} WeightSplits(m: Matrix<int>, w: seq<nat>, p: nat)
    requires InRange(m, w) && p < |w|
    ensures InRange(m, w[..p + 1]) && InRange(m, w[p..])
    ensures Weight(m, w) == Weight(m, w[..p + 1]) + Weight(m, w[p..])
  {
    if p == |w| - 1 {
      assert w[..p + 1] == w;
    } else {
      var v := w[..|w| - 1];
      WeightSplits(m, v, p);
      assert v[..p + 1] == w[..p + 1];
      assert w[p..][..|w[p..]| - 1] == v[p..];
    }
  }

  /** Two walks that meet make one walk, and their weights add up. */
  lemma WalksJoin(m: Matrix<int>, top: int, a: seq<nat>, b: seq<nat>, i: nat, k: nat, j: nat)
    requires Square(m) && RealWalk(m, top, a, i, k) && RealWalk(m, top, b, k, j)
    ensures RealWalk(m, top, a + b[1..], i, j)
    ensures InRange(m, a) && InRange(m, b) && InRange(m, a + b[1..])
    ensures Weight(m, a + b[1..]) == Weight(m, a) + Weight(m, b)
  {
    var w := a + b[1..];
    assert w[..|a|] == a;
    assert w[|a| - 1..] == b;
    forall x | 0 <= x < |w| - 1 ensures m[w[x]][w[x + 1]] < top {
      if x >= |a| - 1 {
        assert m[b[x - |a| + 1]][b[x - |a| + 2]] < top;
      }
    }
    assert IsWalk(0, |m|, w, i, j);
    WeightSplits(m, w, |a| - 1);
  }
}

/**
 Floyd's algorithm of graph.cpp on the matrix of weights, changed in place.
 */
module FloydMatrix {
  import opened Ints
  import opened Matrices
  import opened Walks

  /** The mark for "no edge". */
  const INFINITY: int := INT_MAX / 2

  /** The nodes between the ends, if there are any, are below k. */
  ghost predicate InnerBelow(w: seq<nat>, k: nat) {
    |w| == 2 || (k > 0 && forall p :: 0 < p < |w| - 1 ==> w[p] < k)
  }

  /** Every walk whose inner nodes are below k weighs at least as much as its entry in d. */
  ghost predicate Below(m: Matrix<int>, d: Matrix<int>, k: nat) {
    && Square(m) && Square(d) && |m| == |d|
    && forall w: seq<nat>, i: nat, j: nat :: IsWalk(0, |m|, w, i, j) && InnerBelow(w, k) ==>
         d[i][j] <= Weight(m, w)
  }

  /** An entry below INFINITY is the weight of some walk in the graph. */
  ghost predicate Realized(m: Matrix<int>, d: Matrix<int>) {
    && Square(m) && Square(d) && |m| == |d|
    && forall i, j :: 0 <= i < |m| && 0 <= j < |m| && d[i][j] < INFINITY ==>
         exists w :: RealWalk(m, INFINITY, w, i, j) && Weight(m, w) == d[i][j]
  }

  /** One phase of the algorithm, for the intermediate node k. */
  ghost predicate Phase(d: Matrix<int>, d': Matrix<int>, k: nat) {
    && Square(d) && Square(d') && |d| == |d'| && k < |d|
    && forall i, j :: 0 <= i < |d| && 0 <= j < |d| ==>
         d'[i][j] == if d[i][j] > d[i][k] + d[k][j] then d[i][k] + d[k][j] else d[i][j]
  }

  lemma DirectEdgesBelow(m: Matrix<int>)
    requires Square(m)
    ensures Below(m, m, 0)
  {
    forall w: seq<nat>, i: nat, j: nat | IsWalk(0, |m|, w, i, j) && InnerBelow(w, 0)
      ensures m[i][j] <= Weight(m, w)
    {
      assert Weight(m, w[..1]) == 0;
    }
  }

  lemma DirectEdgesRealized(m: Matrix<int>)
    requires Square(m)
    ensures Realized(m, m)
  {
    forall i, j | 0 <= i < |m| && 0 <= j < |m| && m[i][j] < INFINITY
      ensures exists w :: RealWalk(m, INFINITY, w, i, j) && Weight(m, w) == m[i][j]
    {
      var w: seq<nat> := [i, j];
      assert Weight(m, w[..1]) == 0;
      assert RealWalk(m, INFINITY, w, i, j) && Weight(m, w) == m[i][j];
    }
  }

  /** A walk to k through nodes up to k is as heavy as the entry before the phase. */
  lemma {:induction false} WalkToK(m: Matrix<int>, d: Matrix<int>, k: nat, w: seq<nat>, i: nat)
    requires Below(m, d, k) && NonNegative(m) && IsWalk(0, |m|, w, i, k) && InnerBelow(w, k + 1)
    ensures d[i][k] <= Weight(m, w)
    decreases |w|
  {
    if p :| 0 < p < |w| - 1 && w[p] == k {
      WeightSplits(m, w, p);
      WeightNonNegative(m, w[p..]);
      WalkToK(m, d, k, w[..p + 1], i);
    }
  }

  lemma {:induction false} WalkFromK(m: Matrix<int>, d: Matrix<int>, k: nat, w: seq<nat>, j: nat)
    requires Below(m, d, k) && NonNegative(m) && IsWalk(0, |m|, w, k, j) && InnerBelow(w, k + 1)
    ensures d[k][j] <= Weight(m, w)
    decreases |w|
  {
    if p :| 0 < p < |w| - 1 && w[p] == k {
      WeightSplits(m, w, p);
      WeightNonNegative(m, w[..p + 1]);
      WalkFromK(m, d, k, w[p..], j);
    }
  }

  lemma PhaseBelow(m: Matrix<int>, d: Matrix<int>, d': Matrix<int>, k: nat)
    requires NonNegative(m) && Below(m, d, k) && Phase(d, d', k)
    ensures Below(m, d', k + 1)
  {
    forall w: seq<nat>, i: nat, j: nat | IsWalk(0, |m|, w, i, j) && InnerBelow(w, k + 1)
      ensures d'[i][j] <= Weight(m, w)
    {
      if p :| 0 < p < |w| - 1 && w[p] == k {
        WeightSplits(m, w, p);
        WalkToK(m, d, k, w[..p + 1], i);
        WalkFromK(m, d, k, w[p..], j);
        assert d'[i][j] <= d[i][k] + d[k][j];
      } else {
        assert |w| > 2 ==> w[1] < k;
        assert w[0] < |m| && w[|w| - 1] < |m|;
        assert d'[i][j] == if d[i][j] > d[i][k] + d[k][j] then d[i][k] + d[k][j] else d[i][j];
      }
    }
  }

  lemma PhaseRealized(m: Matrix<int>, d: Matrix<int>, d': Matrix<int>, k: nat)
    requires NonNegative(d) && Realized(m, d) && Phase(d, d', k)
    ensures Realized(m, d')
  {
    forall i, j | 0 <= i < |m| && 0 <= j < |m| && d'[i][j] < INFINITY
      ensures exists w :: RealWalk(m, INFINITY, w, i, j) && Weight(m, w) == d'[i][j]
    {
      if d[i][j] > d[i][k] + d[k][j] {
        var a :| RealWalk(m, INFINITY, a, i, k) && Weight(m, a) == d[i][k];
        var b :| RealWalk(m, INFINITY, b, k, j) && Weight(m, b) == d[k][j];
        WalksJoin(m, INFINITY, a, b, i, k, j);
      }
    }
  }

  ghost function Rows(a: array2<int>): (m: Matrix<int>)
    requires a.Length0 == a.Length1
    reads a
    ensures Square(m) && |m| == a.Length0
  {
    seq(a.Length0, i requires 0 <= i < a.Length0 reads a =>
      seq(a.Length1, j requires 0 <= j < a.Length1 reads a => a[i, j]))
  }

  /** The minimum of INFINITY and the least weight of a walk, for every pair of nodes. */
  ghost predicate ShortestDistances(m: Matrix<int>, d: Matrix<int>) {
    && Square(m) && Square(d) && |d| == |m|
    && (forall i, j :: 0 <= i < |m| && 0 <= j < |m| ==> 0 <= d[i][j] <= INFINITY)
    && (forall w: seq<nat>, i: nat, j: nat :: RealWalk(m, INFINITY, w, i, j) ==> d[i][j] <= Weight(m, w))
    && Realized(m, d)
  }

  /** One phase in place.  Row k and column k are read while they are being written; they do not change,
      because the entry [k, k] is not negative.  No sum leaves the range of int. */
  method PhaseInPlace(a: array2<int>, k: nat)
    requires a.Length0 == a.Length1 && k < a.Length0 && Bounded(Rows(a), INFINITY)
    modifies a
    ensures Bounded(Rows(a), INFINITY) && Phase(old(Rows(a)), Rows(a), k)
  {
    var n := a.Length0;
    ghost var d := Rows(a);
    for i := 0 to n
      invariant forall x, y :: 0 <= x < n && 0 <= y < n ==>
        a[x, y] == if x < i && d[x][y] > d[x][k] + d[k][y] then d[x][k] + d[k][y] else d[x][y]
    {
      for j := 0 to n
        invariant forall x, y :: 0 <= x < n && 0 <= y < n ==>
          a[x, y] == if (x < i || (x == i && y < j)) && d[x][y] > d[x][k] + d[k][y]
                     then d[x][k] + d[k][y] else d[x][y]
      {
        assert a[i, k] == d[i][k] && a[k, j] == d[k][j] && a[i, k] + a[k, j] <= INT_MAX;
        if a[i, j] > a[i, k] + a[k, j] {
          a[i, j] := a[i, k] + a[k, j];
        }
      }
    }
  }

  lemma AfterAllPhases(m: Matrix<int>, d: Matrix<int>)
    requires Bounded(d, INFINITY) && Below(m, d, |m|) && Realized(m, d)
    ensures ShortestDistances(m, d)
  {
    forall w: seq<nat>, i: nat, j: nat | RealWalk(m, INFINITY, w, i, j) ensures d[i][j] <= Weight(m, w) {
      assert IsWalk(0, |m|, w, i, j);
      assert |w| > 2 ==> w[1] < |m|;
      assert InnerBelow(w, |m|);
    }
  }

  method CopyMatrix(M: array2<int>) returns (D: array2<int>)
    requires M.Length0 == M.Length1
    ensures fresh(D) && D.Length0 == D.Length1 == M.Length0 && Rows(D) == Rows(M)
  {
    var n := M.Length0;
    D := new int[n, n];
    for i := 0 to n
      invariant forall x, y :: 0 <= x < i && 0 <= y < n ==> D[x, y] == M[x, y]
    {
      for j := 0 to n
        invariant forall x, y :: 0 <= x < n && 0 <= y < n && (x < i || (x == i && y < j)) ==> D[x, y] == M[x, y]
      {
        D[i, j] := M[i, j];
      }
    }
    assert forall x :: 0 <= x < n ==> Rows(D)[x] == Rows(M)[x];
  }

  /** Floyd, for weights between 0 and INFINITY. */
  method Floyd(M: array2<int>) returns (D: array2<int>)
    requires M.Length0 == M.Length1 && Bounded(Rows(M), INFINITY)
    ensures fresh(D) && D.Length0 == D.Length1 == M.Length0
    ensures ShortestDistances(Rows(M), Rows(D))
  {
    D := CopyMatrix(M);
    ghost var m := Rows(M);
    DirectEdgesBelow(m);
    DirectEdgesRealized(m);
    for k := 0 to M.Length0
      invariant Rows(M) == m && Bounded(Rows(D), INFINITY) && Below(m, Rows(D), k) && Realized(m, Rows(D))
    {
      ghost var d := Rows(D);
      PhaseInPlace(D, k);
      PhaseBelow(m, d, Rows(D), k);
      PhaseRealized(m, d, Rows(D), k);
    }
    AfterAllPhases(m, Rows(D));
  }
}
