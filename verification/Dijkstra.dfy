/**
 Dijkstra's algorithm, once for the two programs that use it: the costs are pairs compared
 lexicographically, as test1.cpp has them; plain distances are pairs with cost zero.
 */
module DijkstraCore {
  import opened Matrices

  datatype GraphElem = GraphElem(distance: int, cost: int) {
    /** operator+ */
    function Plus(rhs: GraphElem): GraphElem {
      GraphElem(distance + rhs.distance, cost + rhs.cost)
    }

    /** operator< */
    predicate Less(rhs: GraphElem) {
      var diff := distance - rhs.distance;
      if diff != 0 then diff < 0 else cost < rhs.cost
    }

    predicate AtMost(rhs: GraphElem) {
      !rhs.Less(this)
    }

    predicate NonNegative() {
      distance >= 0 && cost >= 0
    }
  }

  const ZERO := GraphElem(0, 0)

  type Costs = Matrix<GraphElem>

  /** Entries are not negative and at most top, the mark for "no edge". */
  ghost predicate Bounded(m: Costs, top: GraphElem) {
    Square(m) && forall i, j :: 0 <= i < |m| && 0 <= j < |m| ==> m[i][j].NonNegative() && m[i][j].AtMost(top)
  }

  ghost function Weight(m: Costs, w: seq<nat>): GraphElem
    requires InRange(m, w)
  {
    if |w| < 2 then ZERO else Weight(m, w[..|w| - 1]).Plus(m[w[|w| - 2]][w[|w| - 1]])
  }

  ghost predicate Optimal(m: Costs, lo: nat, s: nat, j: nat, c: GraphElem)
    requires Square(m)
  {
    forall w :: IsWalk(lo, |m|, w, s, j) ==> c.AtMost(Weight(m, w))
  }

  /** The tentative costs, for a set of finished nodes. */
  ghost predicate Settled(m: Costs, lo: nat, s: nat, fin: seq<bool>, dist: seq<GraphElem>) {
    && Square(m) && |fin| == |dist| == |m| && lo <= s < |m| && fin[s]
    && (forall i :: lo <= i < |m| && !fin[i] ==> dist[i].AtMost(m[s][i]))
    && (forall x, i :: lo <= x < |m| && x != s && fin[x] && lo <= i < |m| && !fin[i] ==>
          dist[i].AtMost(dist[x].Plus(m[x][i])))
    && (forall x: nat :: lo <= x < |m| && x != s && fin[x] ==> Optimal(m, lo, s, x, dist[x]))
  }

  ghost predicate Unfinished(m: Costs, lo: nat, fin: seq<bool>, w: seq<nat>)
    requires InRange(m, w) && |fin| == |m|
  {
    exists k :: 0 <= k < |w| && !fin[w[k]]
  }

  lemma {:induction false} WeightNonNegative(m: Costs, top: GraphElem, w: seq<nat>)
    requires Bounded(m, top) && InRange(m, w)
    ensures Weight(m, w).NonNegative()
  {
    if |w| >= 2 {
      WeightNonNegative(m, top, w[..|w| - 1]);
      assert m[w[|w| - 2]][w[|w| - 1]].NonNegative();
    }
  }

  /** A walk from s that leaves the finished nodes costs at least as much as some unfinished node. */
  lemma {:induction false} LeavingCosts(m: Costs, top: GraphElem, lo: nat, s: nat, fin: seq<bool>,
                                        dist: seq<GraphElem>, w: seq<nat>, j: nat) returns (u: nat)
    requires Bounded(m, top) && Settled(m, lo, s, fin, dist) && IsWalk(lo, |m|, w, s, j)
    requires Unfinished(m, lo, fin, w)
    ensures lo <= u < |m| && !fin[u] && dist[u].AtMost(Weight(m, w))
    decreases |w|
  {
    var v, x := w[..|w| - 1], w[|w| - 2];
    assert m[x][j].NonNegative();
    if |w| == 2 {
      assert Weight(m, v) == ZERO;
      u := j;
    } else if Unfinished(m, lo, fin, v) {
      u := LeavingCosts(m, top, lo, s, fin, dist, v, x);
    } else {
      u := j;
      assert fin[v[|v| - 1]] && !fin[j];
      if x == s {
        WeightNonNegative(m, top, v);
      } else {
        assert Optimal(m, lo, s, x, dist[x]) && IsWalk(lo, |m|, v, s, x);
        assert dist[x].AtMost(Weight(m, v));
      }
    }
  }

  ghost predicate Least(lo: nat, fin: seq<bool>, dist: seq<GraphElem>, k: nat)
    requires |fin| == |dist|
  {
    lo <= k < |fin| && !fin[k] && forall i :: lo <= i < |fin| && !fin[i] ==> dist[k].AtMost(dist[i])
  }

  /** The least tentative cost is final. */
  lemma LeastIsOptimal(m: Costs, top: GraphElem, lo: nat, s: nat, fin: seq<bool>, dist: seq<GraphElem>, k: nat)
    requires Bounded(m, top) && Settled(m, lo, s, fin, dist) && Least(lo, fin, dist, k)
    ensures Optimal(m, lo, s, k, dist[k])
  {
    forall w | IsWalk(lo, |m|, w, s, k) ensures dist[k].AtMost(Weight(m, w)) {
      assert !fin[w[|w| - 1]];
      var u := LeavingCosts(m, top, lo, s, fin, dist, w, k);
    }
  }

  /** The costs after node k has been used to improve them. */
  ghost predicate Relaxed(m: Costs, lo: nat, fin: seq<bool>, dist: seq<GraphElem>, k: nat, dist': seq<GraphElem>)
    requires Square(m) && |fin| == |dist| == |dist'| == |m| && k < |m|
  {
    forall i :: 0 <= i < |m| ==>
      dist'[i] == if lo <= i && !fin[i] && i != k && dist[k].Plus(m[k][i]).Less(dist[i])
                  then dist[k].Plus(m[k][i]) else dist[i]
  }

  lemma RelaxKeeps(m: Costs, top: GraphElem, lo: nat, s: nat, fin: seq<bool>, dist: seq<GraphElem>, k: nat,
                   dist': seq<GraphElem>)
    requires Bounded(m, top) && Settled(m, lo, s, fin, dist) && Least(lo, fin, dist, k)
    requires |dist'| == |m| && Relaxed(m, lo, fin, dist, k, dist')
    ensures Settled(m, lo, s, fin[k := true], dist')
  {
    LeastIsOptimal(m, top, lo, s, fin, dist, k);
    var fin' := fin[k := true];
    forall i | lo <= i < |m| && !fin'[i]
      ensures dist'[i].AtMost(dist[i]) && dist'[i].AtMost(dist[k].Plus(m[k][i])) && dist'[i].AtMost(m[s][i])
    {
    }
    forall x, i | lo <= x < |m| && x != s && fin'[x] && lo <= i < |m| && !fin'[i]
      ensures dist'[i].AtMost(dist'[x].Plus(m[x][i]))
    {
      if x != k {
        assert dist[i].AtMost(dist[x].Plus(m[x][i]));
      }
    }
  }

  /** When no unfinished node is below top, every cost is that of a cheapest walk, cut off at top. */
  lemma AllOptimal(m: Costs, top: GraphElem, lo: nat, s: nat, fin: seq<bool>, dist: seq<GraphElem>)
    requires Bounded(m, top) && Settled(m, lo, s, fin, dist)
    requires forall i :: lo <= i < |m| && !fin[i] ==> top.AtMost(dist[i])
    ensures forall j: nat :: lo <= j < |m| && j != s ==> Optimal(m, lo, s, j, dist[j])
    ensures forall j :: lo <= j < |m| && !fin[j] ==> dist[j] == top
  {
    forall j: nat | lo <= j < |m| && !fin[j] ensures Optimal(m, lo, s, j, dist[j]) && dist[j] == top {
      assert dist[j].AtMost(m[s][j]) && m[s][j].AtMost(top);
      forall w | IsWalk(lo, |m|, w, s, j) ensures dist[j].AtMost(Weight(m, w)) {
        assert !fin[w[|w| - 1]];
        var u := LeavingCosts(m, top, lo, s, fin, dist, w, j);
      }
    }
  }

  /** The nodes that are not finished. */
  ghost function Open(fin: seq<bool>): set<nat> {
    set i: nat | i < |fin| && !fin[i]
  }

  lemma OpenShrinks(fin: seq<bool>, k: nat)
    requires k < |fin| && !fin[k]
    ensures |Open(fin[k := true])| < |Open(fin)|
  {
    assert Open(fin[k := true]) == Open(fin) - {k};
  }
}
