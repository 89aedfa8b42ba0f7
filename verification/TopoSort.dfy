/**
 Directed graphs as the list of their edges, parallel edges and self-loops included, and what it means
 to sort their nodes.
 */
module Digraph {
  import opened Sequences

  datatype Edge = Edge(start: nat, end: nat, weight: int)

  /** A node is present once some edge has named it. */
  predicate Present(es: seq<Edge>, v: nat) {
    exists e :: e in es && (e.start == v || e.end == v)
  }

  ghost predicate HasEdge(es: seq<Edge>, u: nat, v: nat) {
    exists e :: e in es && e.start == u && e.end == v
  }

  /** The number of edges into v that start outside of from. */
  function EdgesInto(es: seq<Edge>, v: nat, from: set<nat>): nat {
    if es == [] then 0
    else EdgesInto(es[..|es| - 1], v, from) +
         if es[|es| - 1].end == v && es[|es| - 1].start !in from then 1 else 0
  }

  /** The edges that leave u, in order. */
  function EdgesFrom(es: seq<Edge>, u: nat): seq<Edge> {
    if es == [] then []
    else EdgesFrom(es[..|es| - 1], u) + if es[|es| - 1].start == u then [es[|es| - 1]] else []
  }

  function CountEnd(es: seq<Edge>, v: nat): nat {
    EdgesInto(es, v, {})
  }

  /** Each node of w has an edge to the next. */
  ghost predicate Chain(es: seq<Edge>, w: seq<nat>) {
    forall k, l :: 0 <= k && l == k + 1 && l < |w| ==> HasEdge(es, w[k], w[l])
  }

  /** A closed walk. */
  ghost predicate IsCycle(es: seq<Edge>, w: seq<nat>) {
    |w| >= 2 && w[0] == w[|w| - 1] && Chain(es, w)
  }

  ghost predicate Acyclic(es: seq<Edge>) {
    forall w :: !IsCycle(es, w)
  }

  /** The edges into members of r come from earlier members. */
  ghost predicate Forward(es: seq<Edge>, r: seq<nat>) {
    forall e, j :: e in es && 0 <= j < |r| && r[j] == e.end ==> e.start in r[..j]
  }

  ghost predicate TopoOrder(es: seq<Edge>, r: seq<nat>) {
    Distinct(r) && Forward(es, r) && forall v :: v in r <==> Present(es, v)
  }

  // ----- counting edges -----

  lemma {:induction false} NoEdgesInto(es: seq<Edge>, v: nat, from: set<nat>)
    ensures EdgesInto(es, v, from) == 0 <==> forall e :: e in es && e.end == v ==> e.start in from
  {
    if es != [] {
      NoEdgesInto(es[..|es| - 1], v, from);
      assert es == es[..|es| - 1] + [es[|es| - 1]];
    }
  }

  /** Letting the edges from u through lowers the count by those that end in v. */
  lemma {:induction false} EdgesIntoAfter(es: seq<Edge>, v: nat, from: set<nat>, u: nat)
    requires u !in from
    ensures EdgesInto(es, v, from + {u}) == EdgesInto(es, v, from) - CountEnd(EdgesFrom(es, u), v)
  {
    if es != [] {
      var init, e := es[..|es| - 1], es[|es| - 1];
      EdgesIntoAfter(init, v, from, u);
      if e.start == u {
        assert EdgesFrom(es, u)[..|EdgesFrom(es, u)| - 1] == EdgesFrom(init, u);
      } else {
        assert EdgesFrom(es, u) == EdgesFrom(init, u);
      }
    }
  }

  // ----- cycles -----

  lemma {:induction false} WalkGoesForward(es: seq<Edge>, r: seq<nat>, w: seq<nat>, k: nat, i: nat)
    requires TopoOrder(es, r) && 0 < k < |w| && i < |r| && r[i] == w[0]
    requires Chain(es, w)
    ensures exists j :: i < j < |r| && r[j] == w[k]
  {
    assert HasEdge(es, w[k - 1], w[k]);
    var e :| e in es && e.start == w[k - 1] && e.end == w[k];
    assert Present(es, w[k]);
    var j :| 0 <= j < |r| && r[j] == w[k];
    assert w[k - 1] in r[..j];
    var h :| 0 <= h < j && r[h] == w[k - 1];
    if k > 1 {
      WalkGoesForward(es, r, w, k - 1, i);
    }
  }

  /** A forward order of all the nodes leaves no room for a cycle. */
  lemma TopoOrderAcyclic(es: seq<Edge>, r: seq<nat>)
    requires TopoOrder(es, r)
    ensures Acyclic(es)
  {
    forall w | IsCycle(es, w) ensures false {
      assert HasEdge(es, w[0], w[1]);
      assert Present(es, w[0]);
      var i :| 0 <= i < |r| && r[i] == w[0];
      WalkGoesForward(es, r, w, |w| - 1, i);
    }
  }

  ghost predicate HasPredecessorIn(es: seq<Edge>, s: set<nat>, u: nat) {
    exists p :: p in s && HasEdge(es, p, u)
  }

  ghost predicate AllHavePredecessors(es: seq<Edge>, s: set<nat>) {
    forall u {:trigger HasPredecessorIn(es, s, u)} :: u in s ==> HasPredecessorIn(es, s, u)
  }

  lemma {:induction false} BackwardWalk(es: seq<Edge>, s: set<nat>, v: nat, n: nat) returns (w: seq<nat>)
    requires n >= 1 && v in s && AllHavePredecessors(es, s)
    ensures |w| == n && Chain(es, w) && forall k :: 0 <= k < n ==> w[k] in s
  {
    if n == 1 {
      w := [v];
    } else {
      var rest := BackwardWalk(es, s, v, n - 1);
      assert HasPredecessorIn(es, s, rest[0]);
      var p :| p in s && HasEdge(es, p, rest[0]);
      w := [p] + rest;
      forall k, l | 0 <= k && l == k + 1 && l < n ensures HasEdge(es, w[k], w[l]) {
        if k > 0 {
          assert HasEdge(es, rest[k - 1], rest[l - 1]);
        }
      }
    }
  }

  lemma CutCycle(es: seq<Edge>, w: seq<nat>, i: nat, j: nat)
    requires Chain(es, w) && i < j < |w| && w[i] == w[j]
    ensures IsCycle(es, w[i..j + 1])
  {
    var c := w[i..j + 1];
    forall k, l | 0 <= k && l == k + 1 && l < |c| ensures HasEdge(es, c[k], c[l]) {
      assert HasEdge(es, w[i + k], w[i + l]);
    }
  }

  /** If every node of a set has a predecessor in the set, there is a cycle. */
  lemma PredecessorsMakeCycle(es: seq<Edge>, s: set<nat>, v: nat)
    requires v in s && AllHavePredecessors(es, s)
    ensures exists w :: IsCycle(es, w)
  {
    var w := BackwardWalk(es, s, v, |s| + 1);
    if Distinct(w) {
      DistinctWithin(w, s);
    }
    var i, j :| 0 <= i < j < |w| && w[i] == w[j];
    CutCycle(es, w, i, j);
  }

  // ----- the result of the algorithm -----

  ghost function PresentSet(es: seq<Edge>, n: nat): set<nat> {
    set v | 0 <= v < n && Present(es, v)
  }

  ghost predicate Within(es: seq<Edge>, n: nat) {
    forall e :: e in es ==> e.start < n && e.end < n
  }

  /** r is a result on which the algorithm can stop: nothing that could be appended is missing. */
  ghost predicate Exhausted(es: seq<Edge>, r: seq<nat>) {
    && Distinct(r) && Forward(es, r)
    && (forall v :: v in r ==> Present(es, v))
    && (forall v :: Present(es, v) && v !in r ==> EdgesInto(es, v, Members(r)) > 0)
  }

  lemma SomeMissing(es: seq<Edge>, n: nat, r: seq<nat>) returns (v: nat)
    requires Within(es, n) && Exhausted(es, r) && |r| != |PresentSet(es, n)|
    ensures v in PresentSet(es, n) - Members(r)
  {
    var all := PresentSet(es, n);
    DistinctCount(r);
    assert all == Members(r) + (all - Members(r));
    v :| v in all - Members(r);
  }

  lemma MissingHasPredecessor(es: seq<Edge>, n: nat, r: seq<nat>, u: nat)
    requires Within(es, n) && Exhausted(es, r) && u in PresentSet(es, n) - Members(r)
    ensures HasPredecessorIn(es, PresentSet(es, n) - Members(r), u)
  {
    NoEdgesInto(es, u, Members(r));
    var e :| e in es && e.end == u && e.start !in Members(r);
    assert Present(es, e.start) && HasEdge(es, e.start, u);
  }

  lemma MissingMakesCycle(es: seq<Edge>, n: nat, r: seq<nat>)
    requires Within(es, n) && Exhausted(es, r) && |r| != |PresentSet(es, n)|
    ensures !Acyclic(es)
  {
    var v := SomeMissing(es, n, r);
    forall u | u in PresentSet(es, n) - Members(r) ensures HasPredecessorIn(es, PresentSet(es, n) - Members(r), u) {
      MissingHasPredecessor(es, n, r, u);
    }
    PredecessorsMakeCycle(es, PresentSet(es, n) - Members(r), v);
  }

  /** Where it stops, the result has all the nodes exactly if there is no cycle. */
  lemma ExhaustedIsAll(es: seq<Edge>, n: nat, r: seq<nat>)
    requires Within(es, n) && Exhausted(es, r)
    ensures |r| == |PresentSet(es, n)| <==> Acyclic(es)
    ensures |r| == |PresentSet(es, n)| <==> TopoOrder(es, r)
  {
    var all := PresentSet(es, n);
    assert forall v :: Present(es, v) <==> v in all;
    DistinctWithin(r, all);
    if TopoOrder(es, r) {
      DistinctCount(r);
      assert Members(r) == all;
    }
    if |r| == |all| {
      assert forall v :: v in r <==> v in Members(r);
      TopoOrderAcyclic(es, r);
    } else {
      MissingMakesCycle(es, n, r);
    }
  }

  // ----- sorting by counting in-degrees down -----

  /** r up to v, or all of it. */
  ghost function Prior(r: seq<nat>, v: nat): seq<nat> {
    if r == [] || r[0] == v then [] else [r[0]] + Prior(r[1..], v)
  }

  lemma {:induction false} PriorIs(r: seq<nat>, v: nat, j: nat)
    requires j <= |r| && v !in r[..j] && (j < |r| ==> r[j] == v)
    ensures Prior(r, v) == r[..j]
  {
    if j > 0 {
      assert r[..j][0] == r[0];
      assert r[..j] == [r[0]] + r[1..][..j - 1];
      PriorIs(r[1..], v, j - 1);
    }
  }

  lemma PriorOfMember(r: seq<nat>, v: nat) returns (j: nat)
    requires Distinct(r) && v in r
    ensures j < |r| && r[j] == v && Prior(r, v) == r[..j]
  {
    j :| j < |r| && r[j] == v;
    PriorIs(r, v, j);
  }

  lemma PriorOfOther(r: seq<nat>, v: nat)
    requires v !in r
    ensures Prior(r, v) == r
  {
    PriorIs(r, v, |r|);
    assert r[..|r|] == r;
  }

  lemma {:induction false} PriorAppend(r: seq<nat>, p: nat, v: nat)
    ensures Prior(r + [p], v) == if v in r || p == v then Prior(r, v) else r + [p]
  {
    if r == [] {
      assert (r + [p])[1..] == [];
    } else if r[0] != v {
      assert (r + [p])[1..] == r[1..] + [p];
      assert r == [r[0]] + r[1..];
      PriorAppend(r[1..], p, v);
    }
  }

  lemma {:induction false} EdgesIntoFewer(es: seq<Edge>, v: nat, from: set<nat>)
    ensures EdgesInto(es, v, from) <= CountEnd(es, v)
  {
    if es != [] {
      EdgesIntoFewer(es[..|es| - 1], v, from);
    }
  }

  /** What is left of the in-degree of v when the nodes of r have been taken off, one after the other: an
      edge is counted down if its end was not taken off before.  The excess x is how much the in-degrees
      exceeded the number of edges before. */
  ghost function Left(es: seq<Edge>, x: seq<int>, r: seq<nat>, v: nat): int
    requires v < |x|
  {
    x[v] + EdgesInto(es, v, Members(Prior(r, v)))
  }

  /** Node v starts without in-degree, or was counted down to zero. */
  ghost predicate Reached(es: seq<Edge>, x: seq<int>, v: nat, left: int)
    requires v < |x|
  {
    var degree := x[v] + CountEnd(es, v);
    degree == 0 || (degree > 0 && left <= 0)
  }

  /** The nodes below n without in-degree, in ascending order. */
  ghost function Sources(es: seq<Edge>, x: seq<int>, n: nat): seq<nat>
    requires n <= |x|
  {
    if n == 0 then []
    else Sources(es, x, n - 1) + if Present(es, n - 1) && x[n - 1] + CountEnd(es, n - 1) == 0 then [n - 1] else []
  }

  /** What sorting gives from in-degrees with excess x: the sources first, and exactly the nodes that are
      counted down to zero. */
  ghost predicate SortResult(es: seq<Edge>, x: seq<int>, r: seq<nat>) {
    && Within(es, |x|) && Distinct(r)
    && (forall v :: v in r ==> v < |x| && Present(es, v))
    && Sources(es, x, |x|) <= r
    && (forall v: nat :: v < |x| && Present(es, v) ==> (v in r <==> Reached(es, x, v, Left(es, x, r, v))))
  }

  /** Sorting says yes: there was something to start with, and nothing is missing. */
  ghost predicate Succeeds(es: seq<Edge>, x: seq<int>, r: seq<nat>) {
    Sources(es, x, |x|) != [] && forall v :: Present(es, v) ==> v in r
  }

  ghost predicate NoExcess(x: seq<int>) {
    forall v :: 0 <= v < |x| ==> x[v] == 0
  }

  /** In-degrees that are the numbers of edges. */
  function Zeros(n: nat): (x: seq<int>)
    ensures |x| == n && forall v :: 0 <= v < n ==> x[v] == 0
  {
    seq(n, _ => 0)
  }

  lemma {:induction false} SourcesMembers(es: seq<Edge>, x: seq<int>, n: nat)
    requires n <= |x|
    ensures Distinct(Sources(es, x, n))
    ensures forall v: nat :: v in Sources(es, x, n) <==> v < n && Present(es, v) && x[v] + CountEnd(es, v) == 0
  {
    if n > 0 {
      SourcesMembers(es, x, n - 1);
    }
  }

  lemma WithinPresent(es: seq<Edge>, n: nat, v: nat)
    requires Within(es, n) && Present(es, v)
    ensures v < n
  {
  }

  lemma FreshEdge(es: seq<Edge>, x: seq<int>, r: seq<nat>, e: Edge, j: nat)
    requires SortResult(es, x, r) && NoExcess(x) && e in es && j < |r| && r[j] == e.end
    ensures e.start in r[..j]
  {
    var v := e.end;
    assert v in r && Present(es, v);
    var i := PriorOfMember(r, v);
    assert i == j;
    EdgesIntoFewer(es, v, Members(r[..j]));
    assert EdgesInto(es, v, Members(r[..j])) == 0;
    NoEdgesInto(es, v, Members(r[..j]));
  }

  /** With the true in-degrees, the result is one on which the algorithm can stop. */
  lemma FreshIsExhausted(es: seq<Edge>, x: seq<int>, r: seq<nat>)
    requires SortResult(es, x, r) && NoExcess(x)
    ensures Exhausted(es, r)
  {
    forall e, j | e in es && 0 <= j < |r| && r[j] == e.end ensures e.start in r[..j] {
      FreshEdge(es, x, r, e, j);
    }
    forall v | Present(es, v) && v !in r ensures EdgesInto(es, v, Members(r)) > 0 {
      WithinPresent(es, |x|, v);
      PriorOfOther(r, v);
    }
  }

  /** The result has every node exactly if it has as many. */
  lemma AllOrCount(es: seq<Edge>, n: nat, r: seq<nat>)
    requires Within(es, n) && Distinct(r) && forall v :: v in r ==> Present(es, v)
    ensures |r| == |PresentSet(es, n)| <==> forall v :: Present(es, v) ==> v in r
  {
    assert forall v :: Present(es, v) <==> v in PresentSet(es, n);
    DistinctWithin(r, PresentSet(es, n));
    DistinctCount(r);
    assert forall v :: v in r <==> v in Members(r);
    if forall v :: Present(es, v) ==> v in r {
      assert Members(r) == PresentSet(es, n);
    }
  }

  lemma FirstIsSource(es: seq<Edge>, x: seq<int>, r: seq<nat>)
    requires SortResult(es, x, r) && NoExcess(x) && r != []
    ensures Sources(es, x, |x|) != []
  {
    assert r[0] in r;
    SourcesMembers(es, x, |x|);
    assert Prior(r, r[0]) == [] && Members(Prior(r, r[0])) == {};
    assert r[0] in Sources(es, x, |x|);
  }

  /** Sorting with the true in-degrees says yes exactly on a graph with a node and without a cycle, and
      then the result is a topological order. */
  lemma FreshSort(es: seq<Edge>, x: seq<int>, r: seq<nat>)
    requires SortResult(es, x, r) && NoExcess(x)
    ensures Succeeds(es, x, r) <==> es != [] && Acyclic(es)
    ensures Succeeds(es, x, r) ==> TopoOrder(es, r)
  {
    FreshIsExhausted(es, x, r);
    ExhaustedIsAll(es, |x|, r);
    AllOrCount(es, |x|, r);
    SourcesMembers(es, x, |x|);
    if es != [] {
      assert es[0] in es;
      assert Present(es, es[0].start);
      if es[0].start in r {
        FirstIsSource(es, x, r);
      }
    }
    if Sources(es, x, |x|) != [] {
      assert Sources(es, x, |x|)[0] in Sources(es, x, |x|);
    }
  }

  // ----- what in-degrees of any kind can answer -----

  /** Node v cannot be taken off before some node of s: it does not start without in-degree, and it is
      negative from the start or keeps a count above zero when all nodes outside of s have been taken off. */
  ghost predicate Blocks(es: seq<Edge>, x: seq<int>, s: set<nat>, v: nat) {
    v < |x| && Present(es, v) &&
    var degree := x[v] + CountEnd(es, v);
    degree != 0 && (degree < 0 || x[v] + EdgesInto(es, v, PresentSet(es, |x|) - s) > 0)
  }

  /** No node of s can be the first of them to be taken off. */
  ghost predicate Blocked(es: seq<Edge>, x: seq<int>, s: set<nat>) {
    forall v :: v in s ==> Blocks(es, x, s, v)
  }

  lemma {:induction false} MoreLetThrough(es: seq<Edge>, v: nat, from: set<nat>, more: set<nat>)
    requires from <= more
    ensures EdgesInto(es, v, more) <= EdgesInto(es, v, from)
  {
    if es != [] {
      MoreLetThrough(es[..|es| - 1], v, from, more);
    }
  }

  /** The nodes that were not taken off are blocked. */
  lemma MissingBlock(es: seq<Edge>, x: seq<int>, r: seq<nat>)
    requires SortResult(es, x, r)
    ensures Blocked(es, x, PresentSet(es, |x|) - Members(r))
  {
    var all := PresentSet(es, |x|);
    forall v | v in all - Members(r) ensures Blocks(es, x, all - Members(r), v) {
      PriorOfOther(r, v);
      assert all - (all - Members(r)) == Members(r);
    }
  }

  /** The first node of r in a set has no earlier one there. */
  lemma {:induction false} FirstOf(r: seq<nat>, s: set<nat>, j: nat) returns (k: nat)
    requires j < |r| && r[j] in s
    ensures k <= j && r[k] in s && forall i :: 0 <= i < k ==> r[i] !in s
  {
    if i :| 0 <= i < j && r[i] in s {
      k := FirstOf(r, s, i);
    } else {
      k := j;
    }
  }

  lemma FirstIsFree(es: seq<Edge>, x: seq<int>, r: seq<nat>, s: set<nat>, k: nat)
    requires SortResult(es, x, r) && k < |r| && forall i :: 0 <= i < k ==> r[i] !in s
    ensures !Blocks(es, x, s, r[k])
  {
    var u := r[k];
    assert u in r;
    var j := PriorOfMember(r, u);
    forall v | v in Members(r[..k]) ensures v in PresentSet(es, |x|) - s {
      var i :| 0 <= i < k && r[i] == v;
      assert v in r;
    }
    MoreLetThrough(es, u, Members(r[..k]), PresentSet(es, |x|) - s);
  }

  /** No node of a blocked set is taken off. */
  lemma BlockedStay(es: seq<Edge>, x: seq<int>, r: seq<nat>, s: set<nat>, v: nat)
    requires SortResult(es, x, r) && Blocked(es, x, s) && v in s
    ensures v !in r
  {
    if v in r {
      var j :| 0 <= j < |r| && r[j] == v;
      var k := FirstOf(r, s, j);
      FirstIsFree(es, x, r, s, k);
    }
  }

  /** Which nodes sorting takes off: exactly those that are in no blocked set. */
  lemma TakenOffIff(es: seq<Edge>, x: seq<int>, r: seq<nat>, v: nat)
    requires SortResult(es, x, r) && Present(es, v)
    ensures v in r <==> forall s :: Blocked(es, x, s) ==> v !in s
  {
    WithinPresent(es, |x|, v);
    if v in r {
      forall s | Blocked(es, x, s) ensures v !in s {
        if v in s {
          BlockedStay(es, x, r, s, v);
        }
      }
    } else {
      MissingBlock(es, x, r);
      assert v in PresentSet(es, |x|) - Members(r);
    }
  }

  lemma FreshBlocks(es: seq<Edge>, x: seq<int>, s: set<nat>, v: nat)
    requires Within(es, |x|) && NoExcess(x)
    ensures Blocks(es, x, s, v) <==> HasPredecessorIn(es, s, v)
  {
    var others := PresentSet(es, |x|) - s;
    NoEdgesInto(es, v, others);
    EdgesIntoFewer(es, v, others);
    if e :| e in es && e.end == v && e.start !in others {
      assert Present(es, e.start) && HasEdge(es, e.start, v);
    }
  }

  lemma FreshBlocked(es: seq<Edge>, x: seq<int>, s: set<nat>)
    requires Within(es, |x|) && NoExcess(x)
    ensures Blocked(es, x, s) <==> AllHavePredecessors(es, s)
  {
    forall v | v in s ensures Blocks(es, x, s, v) <==> HasPredecessorIn(es, s, v) {
      FreshBlocks(es, x, s, v);
    }
  }

  /** With the true in-degrees, those are the nodes that no cycle leads to: a node is left exactly if it is in
      a set each of whose nodes has a predecessor in the set. */
  lemma FreshTakesOff(es: seq<Edge>, x: seq<int>, r: seq<nat>, v: nat)
    requires SortResult(es, x, r) && NoExcess(x) && Present(es, v)
    ensures v in r <==> forall s :: AllHavePredecessors(es, s) ==> v !in s
  {
    TakenOffIff(es, x, r, v);
    forall s ensures Blocked(es, x, s) <==> AllHavePredecessors(es, s) {
      FreshBlocked(es, x, s);
    }
  }

  /** In-degrees from which sorting says yes: some node has none, and no set of nodes is blocked. */
  ghost predicate Sortable(es: seq<Edge>, x: seq<int>) {
    Sources(es, x, |x|) != [] && forall s :: Blocked(es, x, s) ==> s == {}
  }

  lemma SucceedsIff(es: seq<Edge>, x: seq<int>, r: seq<nat>)
    requires SortResult(es, x, r)
    ensures Succeeds(es, x, r) <==> Sortable(es, x)
  {
    if Succeeds(es, x, r) {
      forall s | Blocked(es, x, s) ensures s == {} {
        if v :| v in s {
          assert Blocks(es, x, s, v);
          BlockedStay(es, x, r, s, v);
        }
      }
    }
    if Sortable(es, x) {
      var missing := PresentSet(es, |x|) - Members(r);
      MissingBlock(es, x, r);
      forall v | Present(es, v) ensures v in r {
        WithinPresent(es, |x|, v);
        assert v !in missing;
      }
    }
  }

  /** What a call of topoSort answers: it says yes exactly if the in-degrees from which it starts, with
      excess x, can be sorted, and then every node is in the result.  Without excess that is whether there is
      a node and no cycle, and the result is then a topological order. */
  ghost predicate Answer(es: seq<Edge>, x: seq<int>, r: seq<nat>, ok: bool) {
    && SortResult(es, x, r) && (ok <==> Sortable(es, x)) && (ok <==> Succeeds(es, x, r))
    && (NoExcess(x) ==> (ok <==> es != [] && Acyclic(es)) && (ok ==> TopoOrder(es, r)))
  }

  lemma CountedAnswer(es: seq<Edge>, x: seq<int>, r: seq<nat>)
    requires SortResult(es, x, r)
    ensures Answer(es, x, r, Sources(es, x, |x|) != [] && |r| == |PresentSet(es, |x|)|)
  {
    AllOrCount(es, |x|, r);
    SucceedsIff(es, x, r);
    if NoExcess(x) {
      FreshSort(es, x, r);
    }
  }

  /** After sorting with the true in-degrees has succeeded, nothing is left of them. */
  lemma NothingIsLeft(es: seq<Edge>, x: seq<int>, r: seq<nat>, v: nat)
    requires SortResult(es, x, r) && NoExcess(x) && Succeeds(es, x, r) && v < |x| && Present(es, v)
    ensures Left(es, x, r, v) == 0
  {
    FreshSort(es, x, r);
    var j := PriorOfMember(r, v);
    NoEdgesInto(es, v, Members(r[..j]));
  }

  ghost predicate Ascending(r: seq<nat>) {
    forall i, j :: 0 <= i < j < |r| ==> r[i] < r[j]
  }

  lemma {:induction false} SourcesAscend(es: seq<Edge>, x: seq<int>, n: nat)
    requires n <= |x|
    ensures Ascending(Sources(es, x, n)) && forall v :: v in Sources(es, x, n) ==> v < n
  {
    if n > 0 {
      SourcesAscend(es, x, n - 1);
      var s := Sources(es, x, n - 1);
      assert forall i :: 0 <= i < |s| ==> s[i] in s;
    }
  }

  lemma PrefixIsAll(s: seq<nat>, r: seq<nat>)
    requires s <= r && Distinct(r) && forall v :: v in r ==> v in s
    ensures r == s
  {
    assert forall i :: 0 <= i < |s| ==> s[i] == r[i];
    assert Members(s) == Members(r);
    DistinctCount(s);
    DistinctCount(r);
  }

  lemma UpwardEdges(es: seq<Edge>, r: seq<nat>)
    requires Ascending(r) && forall v :: v in r <==> Present(es, v)
    ensures TopoOrder(es, r) <==> forall e :: e in es ==> e.start < e.end
  {
    forall e | e in es
      ensures exists i, j :: 0 <= i < |r| && 0 <= j < |r| && r[i] == e.start && r[j] == e.end
      ensures forall j :: 0 <= j < |r| && r[j] == e.end ==> (e.start in r[..j] <==> e.start < e.end)
    {
      assert Present(es, e.start) && Present(es, e.end);
      var i :| 0 <= i < |r| && r[i] == e.start;
      forall j | 0 <= j < |r| && r[j] == e.end ensures e.start in r[..j] <==> e.start < e.end {
        assert i < j ==> r[..j][i] == e.start;
      }
    }
  }

  /** Sorting a second time after a success: every node is a source now, and the answer is yes, with the
      nodes in the order of their numbers.  That order is right exactly if every edge goes upwards. */
  lemma SortAgain(es: seq<Edge>, x: seq<int>, r: seq<nat>)
    requires SortResult(es, x, r) && forall v: nat :: v < |x| && Present(es, v) ==> x[v] + CountEnd(es, v) == 0
    ensures r == Sources(es, x, |x|) && Ascending(r) && forall v :: v in r <==> Present(es, v)
    ensures Succeeds(es, x, r) <==> es != []
    ensures TopoOrder(es, r) <==> forall e :: e in es ==> e.start < e.end
  {
    SourcesMembers(es, x, |x|);
    SourcesAscend(es, x, |x|);
    PrefixIsAll(Sources(es, x, |x|), r);
    UpwardEdges(es, r);
    if es != [] {
      assert es[0] in es;
      assert Present(es, es[0].start);
    }
    SomeMember(r);
  }

  /** Taking p off counts its edges down, except those into nodes that are off already, or into p. */
  lemma LeftAfter(es: seq<Edge>, x: seq<int>, r: seq<nat>, p: nat, v: nat)
    requires v < |x| && p !in r
    ensures Left(es, x, r + [p], v) ==
            Left(es, x, r, v) - if v in r || v == p then 0 else CountEnd(EdgesFrom(es, p), v)
  {
    PriorAppend(r, p, v);
    if v !in r && v != p {
      PriorOfOther(r, v);
      assert Members(r + [p]) == Members(r) + {p};
      EdgesIntoAfter(es, v, Members(r), p);
    }
  }

  // ----- first come, first served -----

  /** What is left of the in-degree of v when the nodes of r have been taken off, and then the first e edges out
      of p have been counted. */
  ghost function LeftDuring(es: seq<Edge>, x: seq<int>, r: seq<nat>, p: nat, e: nat, v: nat): int
    requires v < |x| && e <= |EdgesFrom(es, p)|
  {
    Left(es, x, r, v) - if v in r || v == p then 0 else CountEnd(EdgesFrom(es, p)[..e], v)
  }

  /** Up to the e-th edge out of its k-th node, the sorting has counted down to zero just the first n nodes of
      the order. */
  ghost predicate ZeroFirst(es: seq<Edge>, x: seq<int>, order: seq<nat>, k: nat, e: nat, n: nat)
    requires k < |order| && e <= |EdgesFrom(es, order[k])|
  {
    n <= |order| && forall v: nat :: v < |x| && Present(es, v) ==>
      (v in order[..n] <==> Reached(es, x, v, LeftDuring(es, x, order[..k], order[k], e, v)))
  }

  ghost predicate Moment(es: seq<Edge>, x: seq<int>, order: seq<nat>, k: nat, e: nat)
    requires k < |order| && e <= |EdgesFrom(es, order[k])|
  {
    exists n :: ZeroFirst(es, x, order, k, e, n)
  }

  /** The nodes stand in the order in which they are counted down to zero, while the first m are taken off. */
  ghost predicate FirstCome(es: seq<Edge>, x: seq<int>, order: seq<nat>, m: nat) {
    m <= |order| && forall k: nat, e: nat :: k < m && e <= |EdgesFrom(es, order[k])| ==> Moment(es, x, order, k, e)
  }

  lemma MomentGrows(es: seq<Edge>, x: seq<int>, order: seq<nat>, order': seq<nat>, k: nat, e: nat)
    requires k < |order| && e <= |EdgesFrom(es, order[k])| && order <= order' && Moment(es, x, order, k, e)
    ensures order'[k] == order[k] && Moment(es, x, order', k, e)
  {
    var n: nat :| ZeroFirst(es, x, order, k, e, n);
    assert order'[..n] == order[..n] && order'[..k] == order[..k];
    assert ZeroFirst(es, x, order', k, e, n);
  }

  lemma FirstComeGrows(es: seq<Edge>, x: seq<int>, order: seq<nat>, order': seq<nat>, m: nat)
    requires FirstCome(es, x, order, m) && order <= order'
    ensures FirstCome(es, x, order', m)
  {
    forall k: nat, e: nat | k < m && e <= |EdgesFrom(es, order'[k])| ensures Moment(es, x, order', k, e) {
      MomentGrows(es, x, order, order', k, e);
    }
  }

  /** Whenever a node is counted down to zero, so are those before it in the order. */
  lemma EarlierIsZero(es: seq<Edge>, x: seq<int>, r: seq<nat>, i: nat, j: nat, k: nat, e: nat)
    requires SortResult(es, x, r) && FirstCome(es, x, r, |r|)
    requires i < j < |r| && k < |r| && e <= |EdgesFrom(es, r[k])|
    ensures r[i] < |x| && r[j] < |x|
    ensures Reached(es, x, r[j], LeftDuring(es, x, r[..k], r[k], e, r[j])) ==>
            Reached(es, x, r[i], LeftDuring(es, x, r[..k], r[k], e, r[i]))
  {
    assert r[i] in r && r[j] in r;
    assert Moment(es, x, r, k, e);
    var n: nat :| ZeroFirst(es, x, r, k, e, n);
    if r[j] in r[..n] {
      var h :| 0 <= h < n && r[h] == r[j];
      assert h == j;
      assert r[..n][i] == r[i];
    }
  }

  /** The moment behind all the edges out of the k-th node is that before the next one. */
  lemma MomentsMeet(es: seq<Edge>, x: seq<int>, r: seq<nat>, k: nat, v: nat)
    requires Distinct(r) && k < |r| && v < |x|
    ensures LeftDuring(es, x, r[..k], r[k], |EdgesFrom(es, r[k])|, v) == Left(es, x, r[..k + 1], v)
  {
    var out := EdgesFrom(es, r[k]);
    assert out[..|out|] == out;
    assert r[..k + 1] == r[..k] + [r[k]];
    LeftAfter(es, x, r[..k], r[k], v);
  }

  ghost predicate ZeroAt(es: seq<Edge>, x: seq<int>, r: seq<nat>, k: nat, e: nat, v: nat)
    requires k < |r| && e <= |EdgesFrom(es, r[k])| && v < |x|
  {
    Reached(es, x, v, LeftDuring(es, x, r[..k], r[k], e, v))
  }

  lemma ZeroBefore(es: seq<Edge>, x: seq<int>, r: seq<nat>, k: nat, v: nat)
    requires Distinct(r) && 0 < k < |r| && v < |x|
    ensures ZeroAt(es, x, r, k, 0, v) <==> ZeroAt(es, x, r, k - 1, |EdgesFrom(es, r[k - 1])|, v)
  {
    MomentsMeet(es, x, r, k - 1, v);
    assert EdgesFrom(es, r[k])[..0] == [];
  }

  /** An edge counts down only the node where it ends. */
  lemma OnlyEnd(es: seq<Edge>, x: seq<int>, r: seq<nat>, k: nat, e: nat, v: nat)
    requires k < |r| && e < |EdgesFrom(es, r[k])| && v < |x| && EdgesFrom(es, r[k])[e].end != v
    ensures ZeroAt(es, x, r, k, e + 1, v) <==> ZeroAt(es, x, r, k, e, v)
  {
    var out := EdgesFrom(es, r[k]);
    assert out[..e + 1][..e] == out[..e];
  }

  lemma {:induction false} ZeroDuring(es: seq<Edge>, x: seq<int>, r: seq<nat>, k: nat, e: nat, v: nat) returns (f: nat)
    requires k < |r| && e <= |EdgesFrom(es, r[k])| && v < |x|
    requires !ZeroAt(es, x, r, k, 0, v) && ZeroAt(es, x, r, k, e, v)
    ensures f < e && !ZeroAt(es, x, r, k, f, v) && ZeroAt(es, x, r, k, f + 1, v)
  {
    if ZeroAt(es, x, r, k, e - 1, v) {
      f := ZeroDuring(es, x, r, k, e - 1, v);
    } else {
      f := e - 1;
    }
  }

  /** The edge that counts v down to zero. */
  lemma {:induction false} ZeroSince(es: seq<Edge>, x: seq<int>, r: seq<nat>, k: nat, v: nat) returns (j: nat, e: nat)
    requires Distinct(r) && k < |r| && v < |x| && !ZeroAt(es, x, r, 0, 0, v)
    requires ZeroAt(es, x, r, k, |EdgesFrom(es, r[k])|, v)
    ensures j <= k && e < |EdgesFrom(es, r[j])| && !ZeroAt(es, x, r, j, e, v) && ZeroAt(es, x, r, j, e + 1, v)
  {
    if ZeroAt(es, x, r, k, 0, v) {
      ZeroBefore(es, x, r, k, v);
      j, e := ZeroSince(es, x, r, k - 1, v);
    } else {
      j := k;
      e := ZeroDuring(es, x, r, k, |EdgesFrom(es, r[k])|, v);
    }
  }

  /** What sorting gives, in the order in which it gives it. */
  ghost predicate Sorted(es: seq<Edge>, x: seq<int>, r: seq<nat>) {
    SortResult(es, x, r) && FirstCome(es, x, r, |r|)
  }

  lemma NotASource(es: seq<Edge>, x: seq<int>, r: seq<nat>, k: nat)
    requires SortResult(es, x, r) && |Sources(es, x, |x|)| <= k < |r|
    ensures r[k] < |x| && x[r[k]] + CountEnd(es, r[k]) != 0
  {
    var s := Sources(es, x, |x|);
    assert r[k] in r;
    SourcesMembers(es, x, |x|);
    assert forall h :: 0 <= h < |s| ==> s[h] == r[h];
  }

  /** A node of the result that is no source has been counted down to zero before it was taken off. */
  lemma ZeroWhenTaken(es: seq<Edge>, x: seq<int>, r: seq<nat>, k: nat)
    requires SortResult(es, x, r) && |Sources(es, x, |x|)| <= k < |r|
    ensures r[k] < |x| && k > 0 && !ZeroAt(es, x, r, 0, 0, r[k])
    ensures ZeroAt(es, x, r, k - 1, |EdgesFrom(es, r[k - 1])|, r[k])
  {
    var u, s := r[k], Sources(es, x, |x|);
    assert u in r && Present(es, u);
    NotASource(es, x, r, k);
    var j := PriorOfMember(r, u);
    assert j == k;
    PriorOfOther(r[..k], u);
    assert Left(es, x, r, u) == Left(es, x, r[..k], u);
    if k > 0 {
      MomentsMeet(es, x, r, k - 1, u);
    }
    assert EdgesFrom(es, r[0])[..0] == [] && r[..0] == [] && Members(Prior([], u)) == {};
  }

  /** The moment at which the k-th node is counted down to zero: nothing that comes later has been then. */
  lemma NextOnly(es: seq<Edge>, x: seq<int>, r: seq<nat>, k: nat) returns (j: nat, e: nat)
    requires Sorted(es, x, r) && |Sources(es, x, |x|)| <= k < |r|
    ensures j < k && e < |EdgesFrom(es, r[j])| && r[k] < |x| && ZeroAt(es, x, r, j, e + 1, r[k])
    ensures forall v :: v in r && v !in r[..k + 1] ==> v < |x| && !ZeroAt(es, x, r, j, e + 1, v)
  {
    var u := r[k];
    ZeroWhenTaken(es, x, r, k);
    j, e := ZeroSince(es, x, r, k - 1, u);
    assert Moment(es, x, r, j, e);
    var end := EdgesFrom(es, r[j])[e].end;
    if end != u {
      OnlyEnd(es, x, r, j, e, u);
    }
    assert forall h :: 0 <= h < k + 1 ==> r[..k + 1][h] == r[h];
    forall v | v in r && v !in r[..k + 1] ensures v < |x| && !ZeroAt(es, x, r, j, e + 1, v) {
      var h :| k < h < |r| && r[h] == v;
      EarlierIsZero(es, x, r, k, h, j, e);
      OnlyEnd(es, x, r, j, e, v);
    }
  }

  /** Whatever is counted down to zero at some moment is in the result. */
  lemma ZeroIsTaken(es: seq<Edge>, x: seq<int>, r: seq<nat>, k: nat, e: nat, v: nat)
    requires Sorted(es, x, r) && k < |r| && e <= |EdgesFrom(es, r[k])| && v < |x| && Present(es, v)
    requires ZeroAt(es, x, r, k, e, v)
    ensures v in r
  {
    assert Moment(es, x, r, k, e);
    var n: nat :| ZeroFirst(es, x, r, k, e, n);
    assert v in r[..n];
  }

  lemma NotBefore(r: seq<nat>, r': seq<nat>, k: nat, w: nat)
    requires Distinct(r) && Distinct(r') && k < |r| && k < |r'| && r[..k] == r'[..k] && w == r'[k] != r[k]
    ensures w !in r[..k + 1]
  {
    assert forall h :: 0 <= h < k ==> r[h] == r[..k][h] == r'[..k][h] == r'[h];
  }

  /** The next node of r is in r' too, and nothing else stands before it there. */
  lemma NextIsNext(es: seq<Edge>, x: seq<int>, r: seq<nat>, r': seq<nat>, k: nat, j: nat, e: nat)
    requires Sorted(es, x, r) && Sorted(es, x, r') && k < |r| && k <= |r'| && r[..k] == r'[..k]
    requires j < k && r'[..j] == r[..j] && r'[j] == r[j] && e <= |EdgesFrom(es, r[j])|
    requires r[k] < |x| && ZeroAt(es, x, r, j, e, r[k])
    requires forall v :: v in r && v !in r[..k + 1] ==> v < |x| && !ZeroAt(es, x, r, j, e, v)
    ensures k < |r'| && r'[k] == r[k]
  {
    var u := r[k];
    assert u in r;
    ZeroIsTaken(es, x, r', j, e, u);
    assert forall h :: 0 <= h < k ==> r[h] == r[..k][h] == r'[..k][h] == r'[h];
    var h :| k <= h < |r'| && r'[h] == u;
    if h > k {
      var w := r'[k];
      EarlierIsZero(es, x, r', k, h, j, e);
      assert w in r';
      ZeroIsTaken(es, x, r, j, e, w);
      NotBefore(r, r', k, w);
    }
  }

  /** Two results agree in the next node if they agree before. */
  lemma SameNext(es: seq<Edge>, x: seq<int>, r: seq<nat>, r': seq<nat>, k: nat)
    requires Sorted(es, x, r) && Sorted(es, x, r') && k < |r| && k <= |r'| && r[..k] == r'[..k]
    ensures k < |r'| && r'[k] == r[k]
  {
    var s := Sources(es, x, |x|);
    if k < |s| {
      assert r[k] == s[k] == r'[k];
    } else {
      var j, e := NextOnly(es, x, r, k);
      assert r'[..j] == r[..k][..j] == r[..j] && r'[j] == r[..k][j] == r[j];
      NextIsNext(es, x, r, r', k, j, e + 1);
    }
  }

  lemma {:induction false} SamePrefix(es: seq<Edge>, x: seq<int>, r: seq<nat>, r': seq<nat>, k: nat)
    requires Sorted(es, x, r) && Sorted(es, x, r') && k <= |r|
    ensures k <= |r'| && r[..k] == r'[..k]
  {
    if k > 0 {
      SamePrefix(es, x, r, r', k - 1);
      SameNext(es, x, r, r', k - 1);
      assert r[..k] == r[..k - 1] + [r[k - 1]] && r'[..k] == r'[..k - 1] + [r'[k - 1]];
    }
  }

  /** The result is determined: from the same in-degrees no other list has its nodes and its order. */
  lemma SortIsUnique(es: seq<Edge>, x: seq<int>, r: seq<nat>, r': seq<nat>)
    requires Sorted(es, x, r) && Sorted(es, x, r')
    ensures r == r'
  {
    SamePrefix(es, x, r, r', |r|);
    SamePrefix(es, x, r', r, |r'|);
    assert r[..|r|] == r && r'[..|r'|] == r';
  }

  // ----- any second call -----

  /** The edges into v that start in s. */
  ghost function EdgesWithin(es: seq<Edge>, v: nat, s: set<nat>): int {
    CountEnd(es, v) - EdgesInto(es, v, s)
  }

  /** Each node of s has more edges from s than from the nodes in r. */
  ghost predicate Outnumbers(es: seq<Edge>, r: seq<nat>, s: set<nat>) {
    forall v :: v in s ==> EdgesWithin(es, v, s) > EdgesWithin(es, v, Members(r))
  }

  /** The first call took something off, and no set of the other nodes outnumbers it. */
  ghost predicate SortsNext(es: seq<Edge>, r: seq<nat>) {
    r != [] && forall s :: (forall v :: v in s ==> Present(es, v) && v !in r) && Outnumbers(es, r, s) ==> s == {}
  }

  lemma {:induction false} EdgesSplit(es: seq<Edge>, v: nat, all: set<nat>, s: set<nat>)
    requires s <= all && forall e :: e in es ==> e.start in all
    ensures EdgesInto(es, v, all - s) + EdgesInto(es, v, s) == CountEnd(es, v)
  {
    if es != [] {
      assert es[|es| - 1] in es;
      EdgesSplit(es[..|es| - 1], v, all, s);
    }
  }

  /** What the first call, with the true in-degrees, leaves of them. */
  lemma LeftOver(es: seq<Edge>, x: seq<int>, r: seq<nat>, v: nat)
    requires SortResult(es, x, r) && NoExcess(x) && v < |x| && Present(es, v)
    ensures Left(es, x, r, v) == if v in r then 0 else EdgesInto(es, v, Members(r))
    ensures v !in r ==> Left(es, x, r, v) > 0
  {
    FreshIsExhausted(es, x, r);
    if v in r {
      var j := PriorOfMember(r, v);
      NoEdgesInto(es, v, Members(r[..j]));
    } else {
      PriorOfOther(r, v);
    }
  }

  /** The in-degrees with excess y are what a first call with the true in-degrees and result r left. */
  ghost predicate LeftBy(es: seq<Edge>, x: seq<int>, r: seq<nat>, y: seq<int>) {
    && SortResult(es, x, r) && NoExcess(x) && |y| == |x|
    && forall v: nat :: v < |y| && Present(es, v) ==> y[v] + CountEnd(es, v) == Left(es, x, r, v)
  }

  lemma BlocksNext(es: seq<Edge>, x: seq<int>, r: seq<nat>, y: seq<int>, s: set<nat>, v: nat)
    requires LeftBy(es, x, r, y) && s <= PresentSet(es, |y|) && v in s
    ensures Blocks(es, y, s, v) <==> v !in r && EdgesWithin(es, v, s) > EdgesWithin(es, v, Members(r))
  {
    LeftOver(es, x, r, v);
    forall e | e in es ensures e.start in PresentSet(es, |y|) {
      assert Present(es, e.start);
    }
    EdgesSplit(es, v, PresentSet(es, |y|), s);
  }

  lemma BlockedNext(es: seq<Edge>, x: seq<int>, r: seq<nat>, y: seq<int>, s: set<nat>)
    requires LeftBy(es, x, r, y)
    ensures Blocked(es, y, s) <==> (forall v :: v in s ==> Present(es, v) && v !in r) && Outnumbers(es, r, s)
  {
    if forall v :: v in s ==> Present(es, v) {
      forall v | v in s ensures v in PresentSet(es, |y|) {
        WithinPresent(es, |y|, v);
      }
      forall v | v in s
        ensures Blocks(es, y, s, v) <==> v !in r && EdgesWithin(es, v, s) > EdgesWithin(es, v, Members(r))
      {
        BlocksNext(es, x, r, y, s, v);
      }
    } else {
      var v :| v in s && !Present(es, v);
      assert !Blocks(es, y, s, v);
    }
  }

  /** What a second call says: yes exactly if the first one took something off and no set of the nodes that
      it left outnumbers those that it took off.  After a failure a yes is wrong, as the graph has a cycle. */
  lemma SortsNextIff(es: seq<Edge>, x: seq<int>, r: seq<nat>, y: seq<int>)
    requires LeftBy(es, x, r, y)
    ensures Sortable(es, y) <==> SortsNext(es, r)
  {
    SourcesMembers(es, y, |y|);
    if r != [] {
      assert r[0] in r;
      LeftOver(es, x, r, r[0]);
      assert r[0] in Sources(es, y, |y|);
    } else if Sources(es, y, |y|) != [] {
      var v := Sources(es, y, |y|)[0];
      assert v in Sources(es, y, |y|);
      LeftOver(es, x, r, v);
    }
    forall s {
      BlockedNext(es, x, r, y, s);
    }
  }

  // ----- a second call after a failure -----

  /** A graph with a loop at its second node. */
  function LoopGraph(): seq<Edge> {
    [Edge(0, 1, 1), Edge(1, 1, 1)]
  }

  lemma LoopGraphIsCyclic()
    ensures !Acyclic(LoopGraph())
  {
    var es := LoopGraph();
    assert es[1] in es;
    assert HasEdge(es, 1, 1);
    assert IsCycle(es, [1, 1]);
  }

  lemma LoopGraphCounts()
    ensures forall from: set<nat> :: EdgesInto(LoopGraph(), 0, from) == 0
    ensures forall from: set<nat> ::
              EdgesInto(LoopGraph(), 1, from) == (if 0 in from then 0 else 1) + if 1 in from then 0 else 1
    ensures forall v :: Present(LoopGraph(), v) <==> v == 0 || v == 1
  {
    var es := LoopGraph();
    var first := [Edge(0, 1, 1)];
    assert es[..1] == first && first[..0] == [];
    forall v: nat, from: set<nat>
      ensures EdgesInto(es, v, from) ==
              (if v == 1 && 0 !in from then 1 else 0) + if v == 1 && 1 !in from then 1 else 0
    {
      assert EdgesInto(es, v, from) == EdgesInto(first, v, from) + if v == 1 && 1 !in from then 1 else 0;
    }
    assert es[0] in es && es[1] in es;
  }

  lemma {:induction false} PriorAvoids(r: seq<nat>, v: nat)
    ensures v !in Prior(r, v)
  {
    if r != [] && r[0] != v {
      PriorAvoids(r[1..], v);
    }
  }

  /** Sorting the loop graph takes off its first node only and leaves one at the second, if it starts with
      the true in-degrees; and both nodes, with the answer yes, if it starts with what that leaves. */
  lemma LoopGraphSorts(x: seq<int>, r: seq<nat>)
    requires |x| == 2 && x[0] == 0 && (x[1] == 0 || x[1] == -1) && SortResult(LoopGraph(), x, r)
    ensures Left(LoopGraph(), x, r, 0) == 0 && Left(LoopGraph(), x, r, 1) == x[1] + 1
    ensures Succeeds(LoopGraph(), x, r) <==> x[1] == -1
  {
    var es := LoopGraph();
    LoopGraphCounts();
    SourcesMembers(es, x, 2);
    var s := Sources(es, x, 2);
    assert 0 in s && 1 !in s;
    assert s[0] in s;
    assert s[0] == 0 && r[0] == 0;
    assert Prior(r, 1) == [0] + Prior(r[1..], 1);
    PriorAvoids(r, 1);
    assert 0 in Prior(r, 1);
  }
}
