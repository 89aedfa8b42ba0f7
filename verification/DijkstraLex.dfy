/**
 ShortestPath of test1.cpp: among the walks from s to t, the least distance, and the least cost among those.
 The nodes are numbered from 1; row and column 0 of the matrix are not used.
 */
module DijkstraLex {
  import opened DijkstraCore
  import opened Ints
  import opened Matrices
  import opened Sequences
  import W = Walks

  /** The mark for "no edge" and for "not reached". */
  const MAX: int := INT_MAX / 2

  /** A default-constructed GraphElem: no edge, not reached. */
  const TOP := GraphElem(MAX, MAX)

  datatype Record = Record(edge: GraphElem, finish: bool)

  ghost function Finished(rs: seq<Record>): (f: seq<bool>)
    ensures |f| == |rs|
  {
    seq(|rs|, i requires 0 <= i < |rs| => rs[i].finish)
  }

  ghost function Edges(rs: seq<Record>): (d: seq<GraphElem>)
    ensures |d| == |rs|
  {
    seq(|rs|, i requires 0 <= i < |rs| => rs[i].edge)
  }

  // ----- walks along edges of the graph -----

  ghost predicate RealWalk(m: Costs, w: seq<nat>, i: nat, j: nat) {
    Square(m) && IsWalk(1, |m|, w, i, j) && forall k, l :: 0 <= k && l == k + 1 && l < |w| ==> m[w[k]][w[l]] != TOP
  }

  /** A walk without a repeated node. */
  ghost predicate SimpleWalk(m: Costs, w: seq<nat>, i: nat, j: nat) {
    RealWalk(m, w, i, j) && Distinct(w)
  }

  // ----- totals -----

  ghost function DistancesOf(m: Costs): (d: Matrix<int>)
    ensures |d| == |m| && forall i :: 0 <= i < |m| ==> |d[i]| == |m[i]|
    ensures forall i, j :: 0 <= i < |m| && 0 <= j < |m[i]| ==> d[i][j] == m[i][j].distance
  {
    seq(|m|, i requires 0 <= i < |m| => seq(|m[i]|, j requires 0 <= j < |m[i]| => m[i][j].distance))
  }

  ghost function CostsOf(m: Costs): (c: Matrix<int>)
    ensures |c| == |m| && forall i :: 0 <= i < |m| ==> |c[i]| == |m[i]|
    ensures forall i, j :: 0 <= i < |m| && 0 <= j < |m[i]| ==> c[i][j] == m[i][j].cost
  {
    seq(|m|, i requires 0 <= i < |m| => seq(|m[i]|, j requires 0 <= j < |m[i]| => m[i][j].cost))
  }

  /** The sum of the distances of the edges of a walk. */
  ghost function TotalDistance(m: Costs, w: seq<nat>): int
    requires InRange(m, w)
  {
    W.Weight(DistancesOf(m), w)
  }

  /** The sum of their costs. */
  ghost function TotalCost(m: Costs, w: seq<nat>): int
    requires InRange(m, w)
  {
    W.Weight(CostsOf(m), w)
  }

  /** Adding up the pairs adds up their parts. */
  lemma {:induction false} WeightIsTotals(m: Costs, w: seq<nat>)
    requires InRange(m, w)
    ensures Weight(m, w) == GraphElem(TotalDistance(m, w), TotalCost(m, w))
  {
    if |w| >= 2 {
      WeightIsTotals(m, w[..|w| - 1]);
    }
  }

  /** The totals along every simple walk from s stay within MAX. */
  ghost predicate TotalsFit(m: Costs, s: nat) {
    && Bounded(m, TOP)
    && (forall i, j :: 0 <= i < |m| && 0 <= j < |m| ==> m[i][j].cost <= MAX)
    && (forall w, j: nat :: SimpleWalk(m, w, s, j) ==> TotalDistance(m, w) < MAX && TotalCost(m, w) <= MAX)
  }

  ghost predicate EdgesAtMost(m: Costs, d: int, c: int) {
    Square(m) && forall x, y :: 0 <= x < |m| && 0 <= y < |m| && m[x][y] != TOP ==>
      m[x][y].distance <= d && m[x][y].cost <= c
  }

  lemma OneMore(n: int, x: int)
    ensures (n + 1) * x == n * x + x
  {
  }

  lemma PrefixReal(m: Costs, w: seq<nat>, i: nat, j: nat)
    requires RealWalk(m, w, i, j) && |w| >= 3
    ensures RealWalk(m, w[..|w| - 1], i, w[|w| - 2])
  {
    var v := w[..|w| - 1];
    assert forall k, l :: 0 <= k && l == k + 1 && l < |v| ==> m[v[k]][v[l]] == m[w[k]][w[l]];
  }

  lemma {:induction false} WeightAtMost(m: Costs, w: seq<nat>, i: nat, j: nat, d: int, c: int)
    requires RealWalk(m, w, i, j) && EdgesAtMost(m, d, c)
    ensures Weight(m, w).distance <= (|w| - 1) * d && Weight(m, w).cost <= (|w| - 1) * c
  {
    var v, x := w[..|w| - 1], w[|w| - 2];
    assert m[w[|w| - 2]][w[|w| - 1]] != TOP;
    OneMore(|w| - 2, d);
    OneMore(|w| - 2, c);
    if |w| == 2 {
      assert Weight(m, v) == ZERO;
    } else {
      PrefixReal(m, w, i, j);
      WeightAtMost(m, v, i, x, d, c);
    }
  }

  ghost function UpTo(n: nat): (r: set<nat>)
    ensures forall x :: x in r <==> 1 <= x < n
    ensures n >= 1 ==> |r| == n - 1
  {
    if n <= 1 then {} else UpTo(n - 1) + {n - 1}
  }

  lemma DistinctLength(w: seq<nat>, n: nat)
    requires n >= 1 && Distinct(w) && forall k :: 0 <= k < |w| ==> 1 <= w[k] < n
    ensures |w| <= n - 1
  {
    DistinctWithin(w, UpTo(n));
  }

  lemma MulMonotone(a: int, b: int, x: int)
    requires a <= b && x >= 0
    ensures a * x <= b * x
  {
  }

  /** A bound on the single edges that a caller can check: with at most n - 2 edges in a
      simple walk through n - 1 nodes, the totals fit. */
  lemma TotalsFitIf(m: Costs, s: nat, d: int, c: int)
    requires Bounded(m, TOP) && d >= 0 && c >= 0 && |m| * d < MAX && |m| * c <= MAX
    requires EdgesAtMost(m, d, c)
    ensures TotalsFit(m, s)
  {
    forall w, j: nat | SimpleWalk(m, w, s, j)
      ensures TotalDistance(m, w) < MAX && TotalCost(m, w) <= MAX
    {
      WeightIsTotals(m, w);
      DistinctLength(w, |m|);
      WeightAtMost(m, w, s, j, d, c);
      MulMonotone(|w| - 1, |m|, d);
      MulMonotone(|w| - 1, |m|, c);
    }
    forall i, j | 0 <= i < |m| && 0 <= j < |m| ensures m[i][j].cost <= MAX {
      if m[i][j] != TOP {
        MulMonotone(1, |m|, c);
      }
    }
  }

  // ----- what the records say -----

  /** A cost other than TOP is that of a simple walk whose nodes before the last are finished. */
  ghost predicate Witness(m: Costs, s: nat, fin: seq<bool>, j: nat, e: GraphElem, w: seq<nat>)
    requires |fin| == |m|
  {
    SimpleWalk(m, w, s, j) && Weight(m, w) == e && forall k :: 0 <= k < |w| - 1 ==> fin[w[k]]
  }

  ghost predicate HasWitness(m: Costs, s: nat, fin: seq<bool>, j: nat, e: GraphElem)
    requires |fin| == |m|
  {
    exists w :: Witness(m, s, fin, j, e, w)
  }

  ghost predicate Witnessed(m: Costs, s: nat, fin: seq<bool>, dist: seq<GraphElem>)
    requires |fin| == |dist| == |m|
  {
    && (forall j: nat :: 1 <= j < |m| ==> dist[j].NonNegative() && dist[j].AtMost(TOP))
    && (forall j: nat :: 1 <= j < |m| && j != s && fin[j] ==> dist[j] != TOP)
    && (forall j: nat :: 1 <= j < |m| && j != s && dist[j] != TOP ==> HasWitness(m, s, fin, j, dist[j]))
  }

  ghost predicate Good(m: Costs, s: nat, fin: seq<bool>, dist: seq<GraphElem>) {
    Settled(m, 1, s, fin, dist) && Witnessed(m, s, fin, dist)
  }

  lemma InitiallyGood(m: Costs, s: nat, fin: seq<bool>, dist: seq<GraphElem>)
    requires Bounded(m, TOP) && 1 <= s < |m| == |fin| && dist == m[s]
    requires forall i :: 0 <= i < |fin| ==> fin[i] == (i == s)
    ensures Good(m, s, fin, dist)
  {
    forall j: nat | 1 <= j < |m| && j != s && dist[j] != TOP ensures HasWitness(m, s, fin, j, dist[j]) {
      var w: seq<nat> := [s, j];
      assert Weight(m, w[..1]) == ZERO;
      assert Witness(m, s, fin, j, dist[j], w);
    }
  }

  /** A witness for k and an edge on make a witness for a node that is not finished. */
  lemma ExtendWitness(m: Costs, s: nat, fin: seq<bool>, k: nat, e: GraphElem, w: seq<nat>, j: nat)
    requires Bounded(m, TOP) && |fin| == |m| && k < |m| && Witness(m, s, fin, k, e, w)
    requires fin[k] && 1 <= j < |m| && !fin[j] && m[k][j] != TOP
    ensures Witness(m, s, fin, j, e.Plus(m[k][j]), w + [j])
  {
    var v := w + [j];
    assert v[..|v| - 1] == w;
    assert v[|v| - 2] == k;
    forall x | 0 <= x < |w| ensures fin[w[x]] {
    }
  }

  lemma WitnessMonotone(m: Costs, s: nat, fin: seq<bool>, k: nat, j: nat, e: GraphElem)
    requires |fin| == |m| && k < |m| && HasWitness(m, s, fin, j, e)
    ensures HasWitness(m, s, fin[k := true], j, e)
  {
    var w :| Witness(m, s, fin, j, e, w);
    assert Witness(m, s, fin[k := true], j, e, w);
  }

  /** Going on over a missing edge never improves a cost. */
  lemma NoEdgeNoGain(e: GraphElem, x: GraphElem, before: GraphElem)
    requires e.NonNegative() && e.Plus(x).Less(before) && before.AtMost(TOP)
    ensures x != TOP
  {
  }

  lemma RelaxKeepsWitness(m: Costs, s: nat, fin: seq<bool>, dist: seq<GraphElem>, k: nat, dist': seq<GraphElem>,
                          w: seq<nat>, j: nat)
    requires Bounded(m, TOP) && |fin| == |dist| == |m| && 1 <= k < |m| && 1 <= j < |m| && dist[k].NonNegative()
    requires Witness(m, s, fin[k := true], k, dist[k], w) && dist[j].NonNegative() && dist[j].AtMost(TOP)
    requires j != s && dist[j] != TOP ==> HasWitness(m, s, fin, j, dist[j])
    requires |dist'| == |m| && Relaxed(m, 1, fin, dist, k, dist')
    ensures dist'[j].NonNegative() && dist'[j].AtMost(TOP)
    ensures j != s && dist'[j] != TOP ==> HasWitness(m, s, fin[k := true], j, dist'[j])
  {
    assert m[k][j].NonNegative();
    if dist'[j] != dist[j] {
      NoEdgeNoGain(dist[k], m[k][j], dist[j]);
      ExtendWitness(m, s, fin[k := true], k, dist[k], w, j);
    } else if j != s && dist[j] != TOP {
      WitnessMonotone(m, s, fin, k, j, dist[j]);
    }
  }

  lemma RelaxKeepsWitnesses(m: Costs, s: nat, fin: seq<bool>, dist: seq<GraphElem>, k: nat, dist': seq<GraphElem>)
    requires Bounded(m, TOP) && |fin| == |dist| == |dist'| == |m| && Witnessed(m, s, fin, dist)
    requires 1 <= k < |m| && k != s && dist[k].Less(TOP) && Relaxed(m, 1, fin, dist, k, dist')
    ensures Witnessed(m, s, fin[k := true], dist')
  {
    WitnessMonotone(m, s, fin, k, k, dist[k]);
    var w :| Witness(m, s, fin[k := true], k, dist[k], w);
    forall j: nat | 1 <= j < |m|
      ensures dist'[j].NonNegative() && dist'[j].AtMost(TOP)
      ensures j != s && dist'[j] != TOP ==> HasWitness(m, s, fin[k := true], j, dist'[j])
    {
      RelaxKeepsWitness(m, s, fin, dist, k, dist', w, j);
    }
  }

  lemma RelaxKeepsGood(m: Costs, s: nat, fin: seq<bool>, dist: seq<GraphElem>, k: nat, dist': seq<GraphElem>)
    requires Bounded(m, TOP) && Good(m, s, fin, dist) && Least(1, fin, dist, k) && dist[k].Less(TOP)
    requires |dist'| == |m| && Relaxed(m, 1, fin, dist, k, dist')
    ensures Good(m, s, fin[k := true], dist')
  {
    RelaxKeeps(m, TOP, 1, s, fin, dist, k, dist');
    RelaxKeepsWitnesses(m, s, fin, dist, k, dist');
  }

  /** The sums of one round stay within the range of int. */
  lemma SumsFit(m: Costs, s: nat, fin: seq<bool>, dist: seq<GraphElem>, k: nat)
    requires TotalsFit(m, s) && Good(m, s, fin, dist) && 1 <= k < |m| && k != s && dist[k].Less(TOP)
    ensures forall j :: 0 <= j < |m| ==>
              0 <= dist[k].Plus(m[k][j]).distance <= INT_MAX && 0 <= dist[k].Plus(m[k][j]).cost <= INT_MAX
  {
    var w :| Witness(m, s, fin, k, dist[k], w);
    WeightIsTotals(m, w);
    assert TotalCost(m, w) <= MAX;
    forall j | 0 <= j < |m| ensures m[k][j].NonNegative() && m[k][j].distance <= MAX && m[k][j].cost <= MAX {
      assert m[k][j].AtMost(TOP);
    }
  }

  // ----- the result -----

  ghost predicate HasWalk(m: Costs, s: nat, t: nat) {
    exists w :: RealWalk(m, w, s, t)
  }

  /** The least distance of a walk from s to t, and the least cost among the walks of that distance; or there is
      no walk, and both are MAX. */
  ghost predicate CheapestWalk(m: Costs, s: nat, t: nat, distance: int, cost: int) {
    && (forall w :: RealWalk(m, w, s, t) ==>
          distance < TotalDistance(m, w) || (distance == TotalDistance(m, w) && cost <= TotalCost(m, w)))
    && if HasWalk(m, s, t) then
         exists w :: RealWalk(m, w, s, t) && TotalDistance(m, w) == distance && TotalCost(m, w) == cost
       else distance == MAX && cost == MAX
  }

  /** The pair of totals of a simple walk is below TOP. */
  lemma TotalsBelowTop(m: Costs, s: nat, w: seq<nat>, j: nat)
    requires TotalsFit(m, s) && SimpleWalk(m, w, s, j)
    ensures Weight(m, w).Less(TOP)
  {
    WeightIsTotals(m, w);
  }

  /** A node that an edge leads to from a finished node has been reached. */
  lemma NextIsReached(m: Costs, s: nat, fin: seq<bool>, dist: seq<GraphElem>, x: nat, u: nat)
    requires TotalsFit(m, s) && Good(m, s, fin, dist) && 1 <= x < |m| && 1 <= u < |m|
    requires fin[x] && m[x][u] != TOP && !fin[u]
    ensures dist[u].Less(TOP)
  {
    if x == s {
      var v: seq<nat> := [s, u];
      assert Weight(m, v[..1]) == ZERO;
      TotalsBelowTop(m, s, v, u);
      assert m[s][u].NonNegative() && dist[u].AtMost(m[s][u]);
    } else {
      var v :| Witness(m, s, fin, x, dist[x], v);
      ExtendWitness(m, s, fin, x, dist[x], v, u);
      TotalsBelowTop(m, s, v + [u], u);
      assert dist[u].AtMost(dist[x].Plus(m[x][u]));
    }
  }

  /** Where the rounds end, everything that can be reached is finished. */
  lemma {:induction false} ReachedIsFinished(m: Costs, s: nat, fin: seq<bool>, dist: seq<GraphElem>,
                                             w: seq<nat>, j: nat, k: nat)
    requires TotalsFit(m, s) && Good(m, s, fin, dist) && RealWalk(m, w, s, j) && k < |w|
    requires forall i: nat :: 1 <= i < |m| && !fin[i] ==> TOP.AtMost(dist[i])
    ensures fin[w[k]]
  {
    if k > 0 {
      ReachedIsFinished(m, s, fin, dist, w, j, k - 1);
      assert m[w[k - 1]][w[k]] != TOP;
      if !fin[w[k]] {
        NextIsReached(m, s, fin, dist, w[k - 1], w[k]);
      }
    }
  }

  lemma GoodEnds(m: Costs, s: nat, fin: seq<bool>, dist: seq<GraphElem>, t: nat)
    requires TotalsFit(m, s) && Good(m, s, fin, dist) && 1 <= t < |m| && t != s
    requires forall i: nat :: 1 <= i < |m| && !fin[i] ==> TOP.AtMost(dist[i])
    ensures CheapestWalk(m, s, t, dist[t].distance, dist[t].cost)
  {
    AllOptimal(m, TOP, 1, s, fin, dist);
    forall w | RealWalk(m, w, s, t)
      ensures dist[t].AtMost(GraphElem(TotalDistance(m, w), TotalCost(m, w))) && dist[t] != TOP
    {
      assert Optimal(m, 1, s, t, dist[t]);
      WeightIsTotals(m, w);
      ReachedIsFinished(m, s, fin, dist, w, t, |w| - 1);
    }
    if dist[t] != TOP {
      var w :| Witness(m, s, fin, t, dist[t], w);
      WeightIsTotals(m, w);
    }
  }

  // ----- the loops -----

  ghost predicate Nearest(rs: seq<Record>, k: int) {
    if k == -1 then forall i :: 1 <= i < |rs| && !rs[i].finish ==> TOP.AtMost(rs[i].edge)
    else k >= 1 && Least(1, Finished(rs), Edges(rs), k) && rs[k].edge.Less(TOP)
  }

  method ChooseNearest(record: array<Record>) returns (k: int)
    requires record.Length >= 1
    ensures k == -1 || 1 <= k < record.Length
    ensures Nearest(record[..], k)
  {
    var min := TOP;
    k := -1;
    for i := 1 to record.Length
      invariant k == -1 ==> min == TOP
      invariant k != -1 ==> 1 <= k < i && !record[k].finish && record[k].edge == min && min.Less(TOP)
      invariant forall x :: 1 <= x < i && !record[x].finish ==> min.AtMost(record[x].edge)
    {
      if !record[i].finish {
        if record[i].edge.Less(min) {
          min := record[i].edge;
          k := i;
        }
      }
    }
  }

  method RelaxFrom(g: Costs, record: array<Record>, k: nat)
    requires Square(g) && record.Length == |g| && 1 <= k < |g| && !record[k].finish
    requires forall j :: 0 <= j < |g| ==>
               0 <= record[k].edge.Plus(g[k][j]).distance <= INT_MAX && 0 <= record[k].edge.Plus(g[k][j]).cost <= INT_MAX
    modifies record
    ensures Finished(record[..]) == Finished(old(record[..]))[k := true]
    ensures Relaxed(g, 1, Finished(old(record[..])), Edges(old(record[..])), k, Edges(record[..]))
  {
    ghost var rs := record[..];
    record[k] := record[k].(finish := true);
    for j := 1 to record.Length
      invariant forall x :: 0 <= x < record.Length ==> record[x].finish == (rs[x].finish || x == k)
      invariant forall x :: 0 <= x < record.Length ==>
        record[x].edge == if 1 <= x < j && !rs[x].finish && x != k && rs[k].edge.Plus(g[k][x]).Less(rs[x].edge)
                          then rs[k].edge.Plus(g[k][x]) else rs[x].edge
    {
      var newElem := record[k].edge.Plus(g[k][j]);
      if !record[j].finish && newElem.Less(record[j].edge) {
        record[j] := record[j].(edge := newElem);
      }
    }
  }

  /** ShortestPath: the pair of least distance and then least cost, or (MAX, MAX) when t cannot be reached. */
  method ShortestPath(g: Costs, s: nat, t: nat) returns (distance: int, cost: int)
    requires TotalsFit(g, s) && 1 <= s < |g| && 1 <= t < |g|
    ensures s == t ==> distance == 0 && cost == 0
    ensures s != t ==> CheapestWalk(g, s, t, distance, cost)
  {
    if s == t {
      return 0, 0;
    }
    var record := new Record[|g|](i requires 0 <= i < |g| => Record(g[s][i], false));
    record[s] := record[s].(finish := true);
    InitiallyGood(g, s, Finished(record[..]), Edges(record[..]));
    while true
      invariant Good(g, s, Finished(record[..]), Edges(record[..]))
      decreases |Open(Finished(record[..]))|
    {
      var k := ChooseNearest(record);
      if k == -1 {
        break;
      }
      ghost var rs := record[..];
      SumsFit(g, s, Finished(rs), Edges(rs), k);
      RelaxFrom(g, record, k);
      RelaxKeepsGood(g, s, Finished(rs), Edges(rs), k, Edges(record[..]));
      OpenShrinks(Finished(rs), k);
    }
    GoodEnds(g, s, Finished(record[..]), Edges(record[..]), t);
    distance, cost := record[t].edge.distance, record[t].edge.cost;
  }
}
