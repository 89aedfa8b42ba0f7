/**
 Floyd of graph.cpp on a graph that addEdge has built: the distances in terms of the edges.  Of parallel edges
 only the last one added counts.
 */
module GraphFloyd {
  import opened Digraph
  import opened FloydMatrix
  import opened GraphCode
  import opened Matrices
  import opened Walks

  ghost predicate SameEnds(e: Edge, f: Edge) {
    e.start == f.start && e.end == f.end
  }

  /** Edge number k is the last one between its ends. */
  ghost predicate LastAt(es: seq<Edge>, k: int) {
    0 <= k < |es| && forall l :: k < l < |es| ==> !SameEnds(es[l], es[k])
  }

  ghost predicate LastBetween(es: seq<Edge>, k: int, i: nat, j: nat) {
    LastAt(es, k) && es[k].start == i && es[k].end == j
  }

  ghost predicate Current(es: seq<Edge>, e: Edge) {
    exists k :: LastAt(es, k) && es[k] == e
  }

  /** The edges lead from i to j, each from where the one before ends. */
  ghost predicate EdgePath(es: seq<Edge>, p: seq<Edge>, i: nat, j: nat) {
    if p == [] then i == j
    else
      var e := p[|p| - 1];
      Current(es, e) && e.end == j && EdgePath(es, p[..|p| - 1], i, e.start)
  }

  ghost function Total(p: seq<Edge>): int {
    if p == [] then 0 else Total(p[..|p| - 1]) + p[|p| - 1].weight
  }

  ghost predicate WeightsFit(es: seq<Edge>) {
    forall e :: e in es ==> 0 <= e.weight <= INFINITY
  }

  ghost predicate HasDistance(es: seq<Edge>, i: nat, j: nat, distance: int) {
    exists p :: EdgePath(es, p, i, j) && Total(p) == distance && (p == [] ==> !HasEdge(es, i, i))
  }

  /** The distances between the nodes: the least total weight of a path of one edge or more, cut off at INFINITY;
      but 0 from a node to itself if it has no loop. */
  ghost predicate GraphDistances(es: seq<Edge>, d: Matrix<int>) {
    && Square(d) && (forall i, j :: 0 <= i < |d| && 0 <= j < |d| ==> 0 <= d[i][j] <= INFINITY)
    && (forall p, i: nat, j: nat :: i < |d| && j < |d| && p != [] && EdgePath(es, p, i, j) ==> d[i][j] <= Total(p))
    && (forall i: nat :: i < |d| && !HasEdge(es, i, i) ==> d[i][i] == 0)
    && (forall i: nat, j: nat :: i < |d| && j < |d| && d[i][j] < INFINITY ==> HasDistance(es, i, j, d[i][j]))
  }

  // ----- edges and entries -----

  lemma {:induction false} EntryOfLast(es: seq<Edge>, k: nat)
    requires LastAt(es, k)
    ensures Entry(es, es[k].start, es[k].end) == es[k].weight
  {
    if k < |es| - 1 {
      assert !SameEnds(es[|es| - 1], es[k]);
      EntryOfLast(es[..|es| - 1], k);
    }
  }

  /** An entry is the weight of the last edge between its nodes, or what it was in the empty graph. */
  lemma {:induction false} EntryIs(es: seq<Edge>, i: nat, j: nat)
    ensures if HasEdge(es, i, j) then
              exists k :: LastBetween(es, k, i, j) && es[k].weight == Entry(es, i, j)
            else Entry(es, i, j) == if i == j then 0 else INFINITY
  {
    if es != [] {
      var init, e := es[..|es| - 1], es[|es| - 1];
      assert es == init + [e];
      if e.start == i && e.end == j {
        assert e in es && LastBetween(es, |es| - 1, i, j);
      } else {
        EntryIs(init, i, j);
        assert HasEdge(es, i, j) <==> HasEdge(init, i, j);
        if HasEdge(init, i, j) {
          var k :| LastBetween(init, k, i, j) && init[k].weight == Entry(init, i, j);
          assert LastBetween(es, k, i, j) && es[k] == init[k];
        }
      }
    }
  }

  /** The matrix of a graph with these edges. */
  ghost predicate MatrixOf(es: seq<Edge>, m: Matrix<int>) {
    Square(m) && Within(es, |m|) && forall i, j :: 0 <= i < |m| && 0 <= j < |m| ==> m[i][j] == Entry(es, i, j)
  }

  lemma EntriesBounded(es: seq<Edge>, m: Matrix<int>)
    requires MatrixOf(es, m) && WeightsFit(es)
    ensures Bounded(m, INFINITY)
  {
    forall i: nat, j: nat | i < |m| && j < |m| ensures 0 <= m[i][j] <= INFINITY {
      EntryIs(es, i, j);
    }
  }

  // ----- paths and walks -----

  lemma CurrentIs(es: seq<Edge>, e: Edge)
    requires Current(es, e)
    ensures e in es && Entry(es, e.start, e.end) == e.weight
  {
    var k :| LastAt(es, k) && es[k] == e;
    EntryOfLast(es, k);
  }

  lemma {:induction false} TotalNonNegative(es: seq<Edge>, p: seq<Edge>, i: nat, j: nat)
    requires WeightsFit(es) && EdgePath(es, p, i, j)
    ensures Total(p) >= 0
  {
    if p != [] {
      var e := p[|p| - 1];
      CurrentIs(es, e);
      TotalNonNegative(es, p[..|p| - 1], i, e.start);
    }
  }

  lemma WalkOn(m: Matrix<int>, v: seq<nat>, i: nat, x: nat, j: nat) returns (w: seq<nat>)
    requires Square(m) && RealWalk(m, INFINITY, v, i, x) && j < |m| && m[x][j] < INFINITY
    ensures RealWalk(m, INFINITY, w, i, j) && Weight(m, w) == Weight(m, v) + m[x][j]
  {
    w := v + [j];
    assert w[..|w| - 1] == v;
    forall k | 0 <= k < |w| - 1 ensures m[w[k]][w[k + 1]] < INFINITY {
      if k < |v| - 1 {
        assert m[v[k]][v[k + 1]] < INFINITY;
      }
    }
  }

  lemma EdgeIsWalk(m: Matrix<int>, i: nat, j: nat) returns (w: seq<nat>)
    requires Square(m) && i < |m| && j < |m| && m[i][j] < INFINITY
    ensures RealWalk(m, INFINITY, w, i, j) && Weight(m, w) == m[i][j]
  {
    w := [i, j];
    var v := w[..1];
    assert |w| == 2 && v == [i] && Weight(m, v) == 0;
    assert Weight(m, w) == Weight(m, v) + m[i][j];
    forall k | 0 <= k < |w| - 1 ensures m[w[k]][w[k + 1]] < INFINITY {
      assert k == 0;
    }
  }

  /** The last edge of a path that is lighter than INFINITY, and what is before it. */
  lemma LastEdge(es: seq<Edge>, m: Matrix<int>, p: seq<Edge>, i: nat, j: nat)
    requires MatrixOf(es, m) && WeightsFit(es) && EdgePath(es, p, i, j) && p != [] && Total(p) < INFINITY
    ensures var init, e := p[..|p| - 1], p[|p| - 1];
            e.end == j && EdgePath(es, init, i, e.start) && Total(p) == Total(init) + e.weight &&
            Total(init) < INFINITY && e.start < |m| && j < |m| && m[e.start][j] == e.weight < INFINITY
  {
    var init, e := p[..|p| - 1], p[|p| - 1];
    CurrentIs(es, e);
    TotalNonNegative(es, init, i, e.start);
  }

  /** A path of edges is a walk of its weight in the matrix, if it is lighter than INFINITY. */
  lemma {:induction false} PathIsWalk(es: seq<Edge>, m: Matrix<int>, p: seq<Edge>, i: nat, j: nat) returns (w: seq<nat>)
    requires MatrixOf(es, m) && WeightsFit(es) && EdgePath(es, p, i, j) && p != [] && Total(p) < INFINITY
    ensures RealWalk(m, INFINITY, w, i, j) && Weight(m, w) == Total(p)
  {
    var init, x := p[..|p| - 1], p[|p| - 1].start;
    LastEdge(es, m, p, i, j);
    if init == [] {
      w := EdgeIsWalk(m, i, j);
    } else {
      var v := PathIsWalk(es, m, init, i, x);
      w := WalkOn(m, v, i, x, j);
    }
  }

  lemma PathOn(es: seq<Edge>, q: seq<Edge>, e: Edge, i: nat)
    requires Current(es, e) && EdgePath(es, q, i, e.start)
    ensures EdgePath(es, q + [e], i, e.end) && Total(q + [e]) == Total(q) + e.weight
  {
    assert (q + [e])[..|q|] == q;
  }

  lemma PrefixIsReal(m: Matrix<int>, w: seq<nat>, i: nat, j: nat)
    requires Square(m) && RealWalk(m, INFINITY, w, i, j) && |w| > 2
    ensures RealWalk(m, INFINITY, w[..|w| - 1], i, w[|w| - 2])
  {
    var v := w[..|w| - 1];
    forall k | 0 <= k < |v| - 1 ensures m[v[k]][v[k + 1]] < INFINITY {
      assert m[w[k]][w[k + 1]] < INFINITY;
    }
  }

  /** A step of a walk behind a path q to x: an edge, unless it stays where there is no loop. */
  lemma StepIsEdge(es: seq<Edge>, m: Matrix<int>, q: seq<Edge>, i: nat, x: nat, j: nat) returns (p: seq<Edge>)
    requires MatrixOf(es, m) && x < |m| && j < |m| && m[x][j] < INFINITY
    requires EdgePath(es, q, i, x)
    ensures EdgePath(es, p, i, j) && Total(p) == Total(q) + m[x][j]
    ensures p == [] ==> !HasEdge(es, i, i)
  {
    EntryIs(es, x, j);
    if HasEdge(es, x, j) {
      var k :| LastBetween(es, k, x, j) && es[k].weight == Entry(es, x, j);
      PathOn(es, q, es[k], i);
      p := q + [es[k]];
    } else {
      p := q;
    }
  }

  /** A walk in the matrix is a path of edges, when its steps from a node without a loop to itself are left out. */
  lemma {:induction false} WalkIsPath(es: seq<Edge>, m: Matrix<int>, w: seq<nat>, i: nat, j: nat) returns (p: seq<Edge>)
    requires MatrixOf(es, m) && RealWalk(m, INFINITY, w, i, j)
    ensures EdgePath(es, p, i, j) && Total(p) == Weight(m, w) && (p == [] ==> !HasEdge(es, i, i))
  {
    var v, x := w[..|w| - 1], w[|w| - 2];
    var q: seq<Edge> := [];
    if |w| == 2 {
      assert Weight(m, v) == 0;
    } else {
      PrefixIsReal(m, w, i, j);
      q := WalkIsPath(es, m, v, i, x);
    }
    p := StepIsEdge(es, m, q, i, x, j);
  }

  lemma DistancesOfGraph(es: seq<Edge>, m: Matrix<int>, d: Matrix<int>)
    requires MatrixOf(es, m) && WeightsFit(es) && ShortestDistances(m, d)
    ensures GraphDistances(es, d)
  {
    forall p, i: nat, j: nat | i < |d| && j < |d| && p != [] && EdgePath(es, p, i, j) ensures d[i][j] <= Total(p) {
      if Total(p) < INFINITY {
        var w := PathIsWalk(es, m, p, i, j);
      }
    }
    forall i: nat | i < |d| && !HasEdge(es, i, i) ensures d[i][i] == 0 {
      EntryIs(es, i, i);
      var w := EdgeIsWalk(m, i, i);
    }
    forall i: nat, j: nat | i < |d| && j < |d| && d[i][j] < INFINITY ensures HasDistance(es, i, j, d[i][j]) {
      var w :| RealWalk(m, INFINITY, w, i, j) && Weight(m, w) == d[i][j];
      var p := WalkIsPath(es, m, w, i, j);
    }
  }

  /** Floyd on a graph, for weights between 0 and INFINITY. */
  method FloydOf(g: Graph) returns (D: array2<int>)
    requires g.Valid() && WeightsFit(g.edges)
    ensures fresh(D) && D.Length0 == D.Length1 == g.nNodes
    ensures GraphDistances(g.edges, Rows(D))
  {
    EntriesBounded(g.edges, Rows(g.adjMatrix));
    D := Floyd(g.adjMatrix);
    DistancesOfGraph(g.edges, Rows(g.adjMatrix), Rows(D));
  }
}
