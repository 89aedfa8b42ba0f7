/**
 The class Graph of graph.cpp: nodes with adjacency lists and in-degrees, and an adjacency matrix.
 topoSort counts the in-degrees down in place.
 */
module GraphCode {
  import opened Digraph
  import opened FloydMatrix
  import opened Sequences

  datatype AdjElem = AdjElem(adjNode: GraphNode, weight: int)

  class GraphNode {
    const NO: nat
    var inDegree: int
    var adjList: seq<AdjElem>

    constructor (no: nat)
      ensures NO == no && inDegree == 0 && adjList == []
    {
      NO := no;
      inDegree := 0;
      adjList := [];
    }
  }

  /** The matrix entry that a list of edges leaves: the last edge from i to j counts. */
  function Entry(es: seq<Edge>, i: nat, j: nat): int {
    if es == [] then (if i == j then 0 else INFINITY)
    else if es[|es| - 1].start == i && es[|es| - 1].end == j then es[|es| - 1].weight
    else Entry(es[..|es| - 1], i, j)
  }

  lemma AppendPresent(es: seq<Edge>, e: Edge)
    ensures forall v :: Present(es + [e], v) <==> Present(es, v) || v == e.start || v == e.end
  {
    assert e in es + [e];
  }

  lemma AppendFrom(es: seq<Edge>, e: Edge)
    ensures forall i :: EdgesFrom(es + [e], i) == EdgesFrom(es, i) + if e.start == i then [e] else []
  {
    assert (es + [e])[..|es|] == es;
  }

  lemma AppendCounts(es: seq<Edge>, e: Edge)
    ensures forall v: nat :: EdgesInto(es + [e], v, {}) == EdgesInto(es, v, {}) + if e.end == v then 1 else 0
    ensures forall i, j :: Entry(es + [e], i, j) == if e.start == i && e.end == j then e.weight else Entry(es, i, j)
  {
    assert (es + [e])[..|es|] == es;
  }

  lemma CountPresent(es: seq<Edge>, n: nat)
    ensures |PresentSet(es, n + 1)| == |PresentSet(es, n)| + if Present(es, n) then 1 else 0
  {
    assert PresentSet(es, n + 1) == PresentSet(es, n) + if Present(es, n) then {n} else {};
  }

  lemma {:induction false} AbsentNode(es: seq<Edge>, v: nat)
    requires !Present(es, v)
    ensures EdgesFrom(es, v) == [] && EdgesInto(es, v, {}) == 0
  {
    if es != [] {
      assert es[|es| - 1] in es;
      assert forall e :: e in es[..|es| - 1] ==> e in es;
      AbsentNode(es[..|es| - 1], v);
    }
  }

  lemma CountAppend(part: seq<Edge>, e: Edge)
    ensures forall v: nat :: CountEnd(part + [e], v) == CountEnd(part, v) + if v == e.end then 1 else 0
  {
    assert (part + [e])[..|part|] == part;
  }

  lemma Associates(a: seq<nat>, b: seq<nat>, c: seq<nat>)
    ensures a + (b + c) == a + b + c
  {
  }

  lemma PrefixGrows(s: seq<nat>, r: seq<nat>, q: seq<nat>, q': seq<nat>)
    requires s <= r + q && q <= q'
    ensures s <= r + q'
  {
  }

  ghost function Nos(ns: seq<GraphNode>): (r: seq<nat>)
    ensures |r| == |ns|
  {
    seq(|ns|, i requires 0 <= i < |ns| => ns[i].NO)
  }

  lemma NosAppend(ns: seq<GraphNode>, node: GraphNode)
    ensures Nos(ns + [node]) == Nos(ns) + [node.NO]
  {
  }

  lemma NosHead(a: seq<GraphNode>, b: seq<GraphNode>)
    requires b != []
    ensures Nos(a) + Nos(b) == Nos(a) + [b[0].NO] + Nos(b[1..])
  {
  }

  lemma HeadOfQueue(r: seq<nat>, q: seq<nat>)
    requires Distinct(r + q) && q != []
    ensures q[0] !in r && q[0] in r + q
  {
    assert (r + q)[|r|] == q[0];
    assert forall i :: 0 <= i < |r| ==> (r + q)[i] == r[i];
  }

  class Graph {
    const nNodes: nat
    const adjTable: array<GraphNode?>
    const adjMatrix: array2<int>
    ghost var nodes: set<GraphNode>
    ghost var edges: seq<Edge>

    /** The list l is that of the edges es. */
    ghost predicate Lists(l: seq<AdjElem>, es: seq<Edge>)
      reads adjTable
    {
      |l| == |es| && forall k {:trigger l[k]} :: 0 <= k < |l| ==>
        es[k].end < adjTable.Length && l[k].adjNode == adjTable[es[k].end] && l[k].weight == es[k].weight
    }

    /** The table has a node for each number that the edges name, and for the numbers in more;
        each node lists the edges that leave it. */
    ghost predicate TableOf(es: seq<Edge>, more: set<nat>)
      reads adjTable, nodes`adjList, `nodes
    {
      && adjTable.Length == nNodes
      && Within(es, nNodes)
      && (forall i: nat :: i < nNodes ==> (adjTable[i] != null <==> Present(es, i) || i in more))
      && (forall i: nat :: i < nNodes && adjTable[i] != null ==>
            adjTable[i] in nodes && adjTable[i].NO == i && Lists(adjTable[i].adjList, EdgesFrom(es, i)))
    }

    /** The in-degrees exceed the number of edges into each node by x. */
    ghost predicate ExcessIs(es: seq<Edge>, x: seq<int>)
      reads adjTable, nodes`inDegree, `nodes
    {
      && |x| == nNodes == adjTable.Length
      && forall v: nat :: v < nNodes ==>
           if adjTable[v] in nodes then adjTable[v].inDegree == x[v] + CountEnd(es, v) else x[v] == 0
    }

    /** Whatever the in-degrees are, they have an excess. */
    lemma {:induction false} SomeExcess(n: nat) returns (x: seq<int>)
      requires TableOf(edges, {}) && n <= nNodes
      ensures |x| == n && forall v: nat :: v < n ==>
                if adjTable[v] in nodes then adjTable[v].inDegree == x[v] + CountEnd(edges, v) else x[v] == 0
    {
      if n == 0 {
        x := [];
      } else {
        x := SomeExcess(n - 1);
        x := x + [if adjTable[n - 1] in nodes then adjTable[n - 1].inDegree - CountEnd(edges, n - 1) else 0];
      }
    }

    /** The in-degrees when the nodes of r have been taken off. */
    ghost predicate DegreesOf(es: seq<Edge>, x: seq<int>, r: seq<nat>)
      reads adjTable, nodes`inDegree, `nodes
    {
      && |x| == nNodes == adjTable.Length
      && forall v: nat :: v < nNodes && adjTable[v] in nodes ==> adjTable[v].inDegree == Left(es, x, r, v)
    }

    /** The in-degrees while p is taken off, after those of r: its edges in part are counted. */
    ghost predicate DegreesDuring(es: seq<Edge>, x: seq<int>, r: seq<nat>, p: nat, part: seq<Edge>)
      reads adjTable, nodes`inDegree, `nodes
    {
      && |x| == nNodes == adjTable.Length
      && forall v: nat :: v < nNodes && adjTable[v] in nodes ==>
           adjTable[v].inDegree == Left(es, x, r, v) - if v in r || v == p then 0 else CountEnd(part, v)
    }

    /** The numbers in rq, all different, are those of the nodes that start or were counted down to zero. */
    ghost predicate Waiting(x: seq<int>, rq: seq<nat>)
      reads adjTable, nodes`inDegree, `nodes, `edges
    {
      && |x| == nNodes == adjTable.Length && Distinct(rq)
      && (forall v :: v in rq ==> v < nNodes && adjTable[v] in nodes)
      && (forall v: nat :: v < nNodes && adjTable[v] in nodes ==>
            (v in rq <==> Reached(edges, x, v, adjTable[v].inDegree)))
    }

    ghost predicate MatrixOk()
      reads this, adjMatrix
    {
      && adjMatrix.Length0 == nNodes && adjMatrix.Length1 == nNodes
      && forall i, j :: 0 <= i < nNodes && 0 <= j < nNodes ==> adjMatrix[i, j] == Entry(edges, i, j)
    }

    ghost predicate Valid()
      reads this, adjTable, nodes, adjMatrix
    {
      TableOf(edges, {}) && MatrixOk()
    }

    constructor (n: nat)
      ensures nNodes == n && edges == [] && Valid() && ExcessIs(edges, Zeros(n))
      ensures fresh(adjTable) && fresh(adjMatrix) && nodes == {}
      ensures forall i, j :: 0 <= i < n && 0 <= j < n ==> adjMatrix[i, j] == if i == j then 0 else INFINITY
    {
      nNodes := n;
      adjTable := new GraphNode?[n](_ => null);
      adjMatrix := new int[n, n]((i, j) => if i == j then 0 else INFINITY);
      nodes := {};
      edges := [];
    }

    method AddNode(node: GraphNode, ghost more: set<nat>, ghost x: seq<int>)
      requires TableOf(edges, more) && ExcessIs(edges, x) && node.NO < nNodes && adjTable[node.NO] == null
      requires node !in nodes && node.inDegree == 0 && node.adjList == []
      modifies adjTable, `nodes
      ensures TableOf(edges, more + {node.NO}) && ExcessIs(edges, x)
      ensures adjTable[node.NO] == node && nodes == old(nodes) + {node}
      ensures forall i :: 0 <= i < adjTable.Length && i != node.NO ==> adjTable[i] == old(adjTable[i])
    {
      AbsentNode(edges, node.NO);
      adjTable[node.NO] := node;
      nodes := nodes + {node};
      forall i: nat | i < nNodes && adjTable[i] != null
        ensures adjTable[i] in nodes && adjTable[i].NO == i && Lists(adjTable[i].adjList, EdgesFrom(edges, i))
      {
        if i == node.NO {
          assert node.adjList == [] && EdgesFrom(edges, i) == [];
        } else {
          var l, out := adjTable[i].adjList, EdgesFrom(edges, i);
          assert old(Lists(l, out));
          forall k | 0 <= k < |l|
            ensures out[k].end < adjTable.Length && l[k].adjNode == adjTable[out[k].end] && l[k].weight == out[k].weight
          {
            assert l[k].adjNode == old(adjTable[out[k].end]);
          }
        }
      }
      assert ExcessIs(edges, x);
    }

    /** The node with number v, made if there is none. */
    method NodeFor(v: nat, ghost more: set<nat>, ghost x: seq<int>) returns (node: GraphNode)
      requires TableOf(edges, more) && ExcessIs(edges, x) && v < nNodes
      modifies adjTable, `nodes
      ensures TableOf(edges, more + {v}) && ExcessIs(edges, x)
      ensures node == adjTable[v] && node in nodes && node.NO == v
      ensures forall i :: 0 <= i < adjTable.Length && old(adjTable[i]) != null ==> adjTable[i] == old(adjTable[i])
      ensures forall g :: g in nodes ==> g in old(nodes) || fresh(g)
    {
      if adjTable[v] == null {
        node := new GraphNode(v);
        AddNode(node, more, x);
      }
      node := adjTable[v];
    }

    lemma ListsAppend(l: seq<AdjElem>, es: seq<Edge>, el: AdjElem, e: Edge)
      requires Lists(l, es) && e.end < adjTable.Length && el.adjNode == adjTable[e.end] && el.weight == e.weight
      ensures Lists(l + [el], es + [e])
    {
      forall k | 0 <= k < |l|
        ensures es[k].end < adjTable.Length && l[k].adjNode == adjTable[es[k].end] && l[k].weight == es[k].weight
        ensures (l + [el])[k] == l[k] && (es + [e])[k] == es[k]
      {
        assert l[k].weight == es[k].weight;
      }
    }

    method AppendAdj(a: GraphNode, b: GraphNode, weight: int)
      requires a.NO < nNodes && b.NO < nNodes && TableOf(edges, {a.NO, b.NO})
      requires adjTable[a.NO] == a && adjTable[b.NO] == b
      modifies a`adjList
      ensures TableOf(edges + [Edge(a.NO, b.NO, weight)], {})
    {
      ghost var es, e := edges, Edge(a.NO, b.NO, weight);
      AppendPresent(es, e);
      AppendFrom(es, e);
      ListsAppend(a.adjList, EdgesFrom(es, a.NO), AdjElem(b, weight), e);
      a.adjList := a.adjList + [AdjElem(b, weight)];
      forall i: nat | i < nNodes && adjTable[i] != null
        ensures Lists(adjTable[i].adjList, EdgesFrom(es + [e], i))
      {
        if i != a.NO {
          assert adjTable[i] != a && EdgesFrom(es + [e], i) == EdgesFrom(es, i);
          assert old(Lists(adjTable[i].adjList, EdgesFrom(es, i)));
          assert adjTable[i].adjList == old(adjTable[i].adjList);
        }
      }
    }

    method AddInDegree(a: GraphNode, b: GraphNode, weight: int, ghost x: seq<int>)
      requires b.NO < nNodes && ExcessIs(edges, x) && adjTable[b.NO] == b && b in nodes
      requires forall i: nat :: i < nNodes && adjTable[i] != null ==> adjTable[i].NO == i
      modifies b`inDegree
      ensures ExcessIs(edges + [Edge(a.NO, b.NO, weight)], x)
    {
      AppendCounts(edges, Edge(a.NO, b.NO, weight));
      b.inDegree := b.inDegree + 1;
    }

    /** The nodes of an edge, made if there are none. */
    method EndsFor(start: nat, end: nat, ghost x: seq<int>) returns (a: GraphNode, b: GraphNode)
      requires TableOf(edges, {}) && ExcessIs(edges, x) && start < nNodes && end < nNodes
      modifies adjTable, `nodes
      ensures TableOf(edges, {start, end}) && ExcessIs(edges, x)
      ensures a == adjTable[start] && b == adjTable[end] && a.NO == start && b.NO == end && a in nodes && b in nodes
      ensures forall g :: g in nodes ==> g in old(nodes) || fresh(g)
    {
      a := NodeFor(start, {}, x);
      b := NodeFor(end, {start}, x);
      assert {} + {start} + {end} == {start, end};
    }

    /** The part of addEdge that works on the table. */
    method LinkNodes(start: nat, end: nat, weight: int, ghost x: seq<int>)
      requires TableOf(edges, {}) && ExcessIs(edges, x) && start < nNodes && end < nNodes
      modifies `nodes, adjTable, nodes
      ensures TableOf(edges + [Edge(start, end, weight)], {}) && ExcessIs(edges + [Edge(start, end, weight)], x)
      ensures forall g :: g in nodes ==> g in old(nodes) || fresh(g)
    {
      var a, b := EndsFor(start, end, x);
      AppendAdj(a, b, weight);
      AddInDegree(a, b, weight, x);
    }

    /** An edge is added; nodes are made when first named; the count at its end goes up, whatever it was;
        the matrix keeps the last weight. */
    method AddEdge(start: nat, end: nat, weight: int, ghost x: seq<int>)
      requires Valid() && ExcessIs(edges, x) && start < nNodes && end < nNodes
      modifies this, adjTable, adjMatrix, nodes
      ensures edges == old(edges) + [Edge(start, end, weight)]
      ensures Valid() && ExcessIs(edges, x)
      ensures forall g :: g in nodes ==> g in old(nodes) || fresh(g)
    {
      LinkNodes(start, end, weight, x);
      AppendCounts(edges, Edge(start, end, weight));
      edges := edges + [Edge(start, end, weight)];
      adjMatrix[start, end] := weight;
    }

    // ----- topological sorting -----

    ghost predicate Listed(ns: seq<GraphNode>)
      reads adjTable
    {
      forall k :: 0 <= k < |ns| ==> ns[k].NO < adjTable.Length && adjTable[ns[k].NO] == ns[k]
    }

    /** What the first loop of topoSort has found below number n. */
    ghost predicate Collected(x: seq<int>, workq: seq<GraphNode>, count: int, n: nat)
      requires n <= |x|
      reads adjTable, `edges
    {
      Listed(workq) && Nos(workq) == Sources(edges, x, n) && count == |PresentSet(edges, n)|
    }

    lemma CollectSkip(x: seq<int>, workq: seq<GraphNode>, count: int, i: nat)
      requires TableOf(edges, {}) && ExcessIs(edges, x) && i < nNodes && Collected(x, workq, count, i)
      requires adjTable[i] != null ==> adjTable[i].inDegree != 0
      ensures Collected(x, workq, if adjTable[i] != null then count + 1 else count, i + 1)
    {
      CountPresent(edges, i);
      assert Sources(edges, x, i + 1) == Sources(edges, x, i);
    }

    lemma CollectNext(x: seq<int>, workq: seq<GraphNode>, count: int, i: nat)
      requires TableOf(edges, {}) && ExcessIs(edges, x) && i < nNodes && Collected(x, workq, count, i)
      requires adjTable[i] != null && adjTable[i].inDegree == 0
      ensures Collected(x, workq + [adjTable[i]], count + 1, i + 1)
    {
      CountPresent(edges, i);
      NosAppend(workq, adjTable[i]);
      assert Sources(edges, x, i + 1) == Sources(edges, x, i) + [i];
    }

    /** The count of the nodes, and those with in-degree zero, in the order of the table. */
    method CollectSources(ghost x: seq<int>) returns (workq: seq<GraphNode>, nValidNodes: nat)
      requires TableOf(edges, {}) && ExcessIs(edges, x)
      ensures Listed(workq) && Nos(workq) == Sources(edges, x, nNodes) && nValidNodes == |PresentSet(edges, nNodes)|
    {
      workq, nValidNodes := [], 0;
      assert PresentSet(edges, 0) == {};
      for i := 0 to nNodes
        invariant Collected(x, workq, nValidNodes, i)
      {
        if adjTable[i] != null && adjTable[i].inDegree == 0 {
          CollectNext(x, workq, nValidNodes, i);
        } else {
          CollectSkip(x, workq, nValidNodes, i);
        }
        var node := adjTable[i];
        if node != null {
          nValidNodes := nValidNodes + 1;
          if node.inDegree == 0 {
            var source: GraphNode := node;
            workq := workq + [source];
          }
        }
      }
    }

    lemma SourcesWait(x: seq<int>)
      requires TableOf(edges, {}) && ExcessIs(edges, x)
      ensures Waiting(x, Sources(edges, x, nNodes)) && DegreesOf(edges, x, [])
    {
      SourcesMembers(edges, x, nNodes);
      assert Members<nat>([]) == {};
    }

    /** Exactly the numbers in the result so far are marked as visited. */
    ghost predicate Marked(visited: array<bool>, r: seq<nat>)
      reads visited
    {
      visited.Length == nNodes && forall v: nat :: v < nNodes ==> (visited[v] <==> v in r)
    }

    lemma DegreeBound(node: GraphNode, x: seq<int>, r: seq<nat>, p: nat, part: seq<Edge>)
      requires TableOf(edges, {}) && DegreesDuring(edges, x, r, p, part)
      requires node.NO < nNodes && adjTable[node.NO] == node
      ensures node.inDegree <= x[node.NO] + CountEnd(edges, node.NO)
    {
      EdgesIntoFewer(edges, node.NO, Members(Prior(r, node.NO)));
    }

    /** The in-degree of v before that of node went down by one. */
    ghost function DegreeBefore(v: nat, node: GraphNode): int
      requires v < adjTable.Length && adjTable[v] != null
      reads adjTable, adjTable[v]
    {
      adjTable[v].inDegree + if v == node.NO then 1 else 0
    }

    lemma DegreesNext(node: GraphNode, x: seq<int>, r: seq<nat>, p: nat, part: seq<Edge>, e: Edge)
      requires |x| == nNodes == adjTable.Length && e.end == node.NO && node.NO !in r && node.NO != p
      requires forall v: nat :: v < nNodes && adjTable[v] in nodes ==>
                 DegreeBefore(v, node) == Left(edges, x, r, v) - if v in r || v == p then 0 else CountEnd(part, v)
      ensures DegreesDuring(edges, x, r, p, part + [e])
    {
      CountAppend(part, e);
    }

    lemma WaitingNext(node: GraphNode, x: seq<int>, rq: seq<nat>)
      requires |x| == nNodes == adjTable.Length && Distinct(rq)
      requires node.NO < nNodes && adjTable[node.NO] == node && node in nodes
      requires node.inDegree < x[node.NO] + CountEnd(edges, node.NO)
      requires forall v :: v in rq ==> v < nNodes && adjTable[v] in nodes
      requires forall v: nat :: v < nNodes && adjTable[v] in nodes ==>
                 (v in rq <==> Reached(edges, x, v, DegreeBefore(v, node)))
      ensures Waiting(x, rq + if node.inDegree == 0 then [node.NO] else [])
    {
      var rq' := rq + if node.inDegree == 0 then [node.NO] else [];
      assert forall v :: v in rq' <==> v in rq || (node.inDegree == 0 && v == node.NO);
    }

    /** An edge e into a node that is not taken off is counted down; the node is new among those that wait
        if its count gets to zero. */
    method DecInDegree(node: GraphNode, ghost x: seq<int>, ghost r: seq<nat>, ghost p: nat, ghost part: seq<Edge>,
                       ghost e: Edge, ghost rq: seq<nat>)
      returns (d: int)
      requires TableOf(edges, {}) && DegreesDuring(edges, x, r, p, part) && Waiting(x, rq)
      requires e.end == node.NO < nNodes && adjTable[node.NO] == node && node.NO !in r && node.NO != p
      modifies node`inDegree
      ensures DegreesDuring(edges, x, r, p, part + [e]) && d == node.inDegree
      ensures Waiting(x, rq + if d == 0 then [node.NO] else [])
    {
      DegreeBound(node, x, r, p, part);
      assert forall v: nat :: v < nNodes && adjTable[v] == node ==> v == node.NO;
      node.inDegree := node.inDegree - 1;
      d := node.inDegree;
      assert forall v: nat :: v < nNodes && adjTable[v] in nodes ==>
               DegreeBefore(v, node) == old(adjTable[v].inDegree);
      DegreesNext(node, x, r, p, part, e);
      WaitingNext(node, x, rq);
    }

    /** The count at the end of an edge goes down, and the node is queued if it gets to zero. */
    method CountDown(node: GraphNode, ghost x: seq<int>, ghost r: seq<nat>, ghost p: nat, ghost part: seq<Edge>,
                     ghost e: Edge, workq0: seq<GraphNode>)
      returns (workq: seq<GraphNode>)
      requires TableOf(edges, {}) && DegreesDuring(edges, x, r, p, part)
      requires Listed(workq0) && Waiting(x, r + [p] + Nos(workq0))
      requires e.end == node.NO < nNodes && adjTable[node.NO] == node && node.NO !in r && node.NO != p
      modifies node`inDegree
      ensures DegreesDuring(edges, x, r, p, part + [e])
      ensures Listed(workq) && Waiting(x, r + [p] + Nos(workq)) && Nos(workq0) <= Nos(workq)
    {
      var d := DecInDegree(node, x, r, p, part, e, r + [p] + Nos(workq0));
      workq := if d == 0 then workq0 + [node] else workq0;
      ghost var more := if d == 0 then [node.NO] else [];
      NosAppend(workq0, node);
      assert Nos(workq) == Nos(workq0) + more;
      Associates(r + [p], Nos(workq0), more);
    }

    lemma EdgeTarget(p: GraphNode, k: nat)
      requires TableOf(edges, {}) && p.NO < nNodes && adjTable[p.NO] == p && k < |EdgesFrom(edges, p.NO)|
      ensures k < |p.adjList| && p.adjList[k].adjNode.NO == EdgesFrom(edges, p.NO)[k].end < nNodes
      ensures adjTable[p.adjList[k].adjNode.NO] == p.adjList[k].adjNode && p.adjList[k].adjNode in nodes
    {
      assert Lists(p.adjList, EdgesFrom(edges, p.NO));
    }

    /** The k-th edge out of p, the last node of the result so far. */
    method VisitEdge(p: GraphNode, k: nat, visited: array<bool>, ghost x: seq<int>, ghost r: seq<nat>, workq0: seq<GraphNode>)
      returns (workq: seq<GraphNode>)
      requires TableOf(edges, {}) && p.NO < nNodes && adjTable[p.NO] == p && k < |EdgesFrom(edges, p.NO)|
      requires DegreesDuring(edges, x, r, p.NO, EdgesFrom(edges, p.NO)[..k])
      requires Listed(workq0) && Waiting(x, r + [p.NO] + Nos(workq0)) && Marked(visited, r + [p.NO])
      modifies nodes`inDegree
      ensures DegreesDuring(edges, x, r, p.NO, EdgesFrom(edges, p.NO)[..k + 1])
      ensures Listed(workq) && Waiting(x, r + [p.NO] + Nos(workq)) && Nos(workq0) <= Nos(workq)
    {
      ghost var es := EdgesFrom(edges, p.NO);
      EdgeTarget(p, k);
      var node := p.adjList[k].adjNode;
      var vex := node.NO;
      assert es[..k + 1] == es[..k] + [es[k]];
      assert vex in r + [p.NO] <==> vex in r || vex == p.NO;
      workq := workq0;
      if visited[vex] {
        CountAppend(es[..k], es[k]);
      } else {
        workq := CountDown(node, x, r, p.NO, es[..k], es[k], workq);
      }
    }

    /** When all edges out of p are counted, p is taken off. */
    lemma TakenOff(x: seq<int>, r: seq<nat>, p: nat)
      requires DegreesDuring(edges, x, r, p, EdgesFrom(edges, p)) && p !in r
      ensures DegreesOf(edges, x, r + [p])
    {
      forall v: nat | v < nNodes
        ensures Left(edges, x, r + [p], v) ==
                Left(edges, x, r, v) - if v in r || v == p then 0 else CountEnd(EdgesFrom(edges, p), v)
      {
        LeftAfter(edges, x, r, p, v);
      }
    }

    ghost predicate MomentAt(x: seq<int>, r: seq<nat>, p: nat, q: seq<nat>, e: nat)
      requires e <= |EdgesFrom(edges, p)|
      reads `edges
    {
      Moment(edges, x, r + [p] + q, |r|, e)
    }

    /** At each of the moments up to the e-th edge out of p, the nodes counted down to zero come first. */
    ghost predicate MomentsOf(x: seq<int>, r: seq<nat>, p: nat, q: seq<nat>, e: nat)
      reads `edges
    {
      e <= |EdgesFrom(edges, p)| && forall l: nat :: l <= e ==> MomentAt(x, r, p, q, l)
    }

    lemma MomentNow(x: seq<int>, r: seq<nat>, p: nat, e: nat, q: seq<nat>)
      requires TableOf(edges, {}) && e <= |EdgesFrom(edges, p)|
      requires DegreesDuring(edges, x, r, p, EdgesFrom(edges, p)[..e]) && Waiting(x, r + [p] + q)
      ensures MomentAt(x, r, p, q, e)
    {
      var order := r + [p] + q;
      assert order[..|order|] == order && order[..|r|] == r && order[|r|] == p;
      assert ZeroFirst(edges, x, order, |r|, e, |order|);
    }

    lemma MomentsGrow(x: seq<int>, r: seq<nat>, p: nat, q: seq<nat>, q': seq<nat>, e: nat)
      requires MomentsOf(x, r, p, q, e) && q <= q'
      ensures MomentsOf(x, r, p, q', e)
    {
      forall l: nat | l <= e ensures MomentAt(x, r, p, q', l) {
        assert MomentAt(x, r, p, q, l);
        PrefixGrows(r + [p] + q, r + [p], q, q');
        MomentGrows(edges, x, r + [p] + q, r + [p] + q', |r|, l);
      }
    }

    /** What holds when k edges out of p have been visited. */
    ghost predicate Visiting(x: seq<int>, r: seq<nat>, p: nat, k: nat, workq: seq<GraphNode>)
      reads this, adjTable, nodes
    {
      && MomentsOf(x, r, p, Nos(workq), k) && DegreesDuring(edges, x, r, p, EdgesFrom(edges, p)[..k])
      && Listed(workq) && Waiting(x, r + [p] + Nos(workq))
    }

    /** The k-th edge out of p, and the moment behind it. */
    method VisitNext(p: GraphNode, k: nat, visited: array<bool>, ghost x: seq<int>, ghost r: seq<nat>, workq0: seq<GraphNode>)
      returns (workq: seq<GraphNode>)
      requires TableOf(edges, {}) && p.NO < nNodes && adjTable[p.NO] == p && k < |EdgesFrom(edges, p.NO)|
      requires Visiting(x, r, p.NO, k, workq0) && Marked(visited, r + [p.NO])
      modifies nodes`inDegree
      ensures Visiting(x, r, p.NO, k + 1, workq) && Nos(workq0) <= Nos(workq)
    {
      workq := VisitEdge(p, k, visited, x, r, workq0);
      MomentsGrow(x, r, p.NO, Nos(workq0), Nos(workq), k);
      MomentNow(x, r, p.NO, k + 1, Nos(workq));
    }

    /** All the edges out of p. */
    method VisitEdges(p: GraphNode, visited: array<bool>, ghost x: seq<int>, ghost r: seq<nat>, workq0: seq<GraphNode>)
      returns (workq: seq<GraphNode>)
      requires TableOf(edges, {}) && p.NO < nNodes && adjTable[p.NO] == p && p.NO !in r
      requires DegreesOf(edges, x, r) && Listed(workq0)
      requires Waiting(x, r + [p.NO] + Nos(workq0)) && Marked(visited, r + [p.NO])
      modifies nodes`inDegree
      ensures DegreesOf(edges, x, r + [p.NO])
      ensures Listed(workq) && Waiting(x, r + [p.NO] + Nos(workq)) && Nos(workq0) <= Nos(workq)
      ensures MomentsOf(x, r, p.NO, Nos(workq), |EdgesFrom(edges, p.NO)|)
    {
      workq := workq0;
      ghost var es := EdgesFrom(edges, p.NO);
      assert Lists(p.adjList, es);
      MomentNow(x, r, p.NO, 0, Nos(workq));
      for k := 0 to |p.adjList|
        invariant Visiting(x, r, p.NO, k, workq) && Nos(workq0) <= Nos(workq)
      {
        workq := VisitNext(p, k, visited, x, r, workq);
      }
      assert es[..|es|] == es;
      TakenOff(x, r, p.NO);
    }

    /** What holds between two turns of the main loop. */
    ghost predicate Sorting(x: seq<int>, result: seq<GraphNode>, workq: seq<GraphNode>, visited: array<bool>)
      reads this, adjTable, nodes, visited
    {
      && TableOf(edges, {}) && Marked(visited, Nos(result))
      && Listed(result) && Listed(workq) && Waiting(x, Nos(result) + Nos(workq))
      && DegreesOf(edges, x, Nos(result))
      && Sources(edges, x, nNodes) <= Nos(result) + Nos(workq)
      && FirstCome(edges, x, Nos(result) + Nos(workq), |result|)
    }

    lemma AllPresent(x: seq<int>, rq: seq<nat>)
      requires TableOf(edges, {}) && Waiting(x, rq)
      ensures forall k :: 0 <= k < |rq| ==> rq[k] in PresentSet(edges, nNodes)
    {
      forall k | 0 <= k < |rq| ensures rq[k] in PresentSet(edges, nNodes) {
        assert rq[k] in rq;
      }
    }

    /** The first node of the queue is the next of the result. */
    lemma SortingPops(x: seq<int>, result: seq<GraphNode>, workq: seq<GraphNode>, visited: array<bool>)
      requires Sorting(x, result, workq, visited) && workq != []
      ensures var r, p, rest := Nos(result), workq[0], workq[1..];
              p.NO < nNodes && adjTable[p.NO] == p && p.NO !in r && |result| < |PresentSet(edges, nNodes)| &&
              Nos(result + [p]) == r + [p.NO] && Listed(result + [p]) && Listed(rest) &&
              Nos(result) + Nos(workq) == r + [p.NO] + Nos(rest)
    {
      var r, q := Nos(result), Nos(workq);
      NosAppend(result, workq[0]);
      NosHead(result, workq);
      HeadOfQueue(r, q);
      AllPresent(x, r + q);
      DistinctWithin(r + q, PresentSet(edges, nNodes));
    }

    /** The node at the front of the queue moves to the result and is marked. */
    method PopFront(ghost x: seq<int>, result0: seq<GraphNode>, workq0: seq<GraphNode>, visited: array<bool>)
      returns (p: GraphNode, result: seq<GraphNode>, workq: seq<GraphNode>)
      requires Sorting(x, result0, workq0, visited) && workq0 != []
      modifies visited
      ensures p == workq0[0] && result == result0 + [p] && workq == workq0[1..]
      ensures p.NO < nNodes && adjTable[p.NO] == p && p.NO !in Nos(result0) && Nos(result) == Nos(result0) + [p.NO]
      ensures Listed(result) && Listed(workq) && Marked(visited, Nos(result))
      ensures Waiting(x, Nos(result) + Nos(workq)) && Sources(edges, x, nNodes) <= Nos(result) + Nos(workq)
      ensures FirstCome(edges, x, Nos(result) + Nos(workq), |result0|)
      ensures |result| <= |PresentSet(edges, nNodes)|
    {
      SortingPops(x, result0, workq0, visited);
      p := workq0[0];
      workq := workq0[1..];
      result := result0 + [p];
      visited[p.NO] := true;
    }

    /** The moments of one more node. */
    lemma TakenFirst(x: seq<int>, r: seq<nat>, p: nat, q: seq<nat>, q': seq<nat>)
      requires FirstCome(edges, x, r + [p] + q, |r|) && q <= q'
      requires MomentsOf(x, r, p, q', |EdgesFrom(edges, p)|)
      ensures FirstCome(edges, x, r + [p] + q', |r| + 1)
    {
      var order := r + [p] + q';
      PrefixGrows(r + [p] + q, r + [p], q, q');
      FirstComeGrows(edges, x, r + [p] + q, order, |r|);
      forall k: nat, e: nat | k < |r| + 1 && e <= |EdgesFrom(edges, order[k])| ensures Moment(edges, x, order, k, e) {
        if k == |r| {
          assert MomentAt(x, r, p, q', e);
        }
      }
    }

    /** One turn of the main loop. */
    method SortOne(ghost x: seq<int>, result0: seq<GraphNode>, workq0: seq<GraphNode>, visited: array<bool>)
      returns (result: seq<GraphNode>, workq: seq<GraphNode>)
      requires Sorting(x, result0, workq0, visited) && workq0 != []
      modifies nodes`inDegree, visited
      ensures Sorting(x, result, workq, visited)
      ensures |result| == |result0| + 1 <= |PresentSet(edges, nNodes)|
    {
      var p;
      p, result, workq := PopFront(x, result0, workq0, visited);
      ghost var q := Nos(workq);
      workq := VisitEdges(p, visited, x, Nos(result0), workq);
      PrefixGrows(Sources(edges, x, nNodes), Nos(result), q, Nos(workq));
      TakenFirst(x, Nos(result0), p.NO, q, Nos(workq));
    }

    lemma SortingStarts(x: seq<int>, workq: seq<GraphNode>, visited: array<bool>)
      requires TableOf(edges, {}) && ExcessIs(edges, x) && Marked(visited, [])
      requires Listed(workq) && Nos(workq) == Sources(edges, x, nNodes)
      ensures Sorting(x, [], workq, visited)
    {
      SourcesWait(x);
      assert Nos([]) == [] && [] + Nos(workq) == Nos(workq);
    }

    lemma SortingEnds(x: seq<int>, result: seq<GraphNode>, visited: array<bool>)
      requires Sorting(x, result, [], visited)
      ensures DegreesOf(edges, x, Nos(result)) && TableOf(edges, {}) && Listed(result)
      ensures Answer(edges, x, Nos(result), Sources(edges, x, nNodes) != [] && |result| == |PresentSet(edges, nNodes)|)
      ensures FirstCome(edges, x, Nos(result), |result|)
    {
      assert Nos(result) + Nos([]) == Nos(result);
      CountedAnswer(edges, x, Nos(result));
    }

    /** Topological sorting, from in-degrees with any excess.  On a graph as addEdge leaves it, where there
        is no excess, it succeeds exactly if there is a node and no cycle, and then the result has every
        node once, each edge pointing forward.  The in-degrees are used up; the next call starts from that. */
    method TopoSort(ghost x: seq<int>) returns (ok: bool, result: seq<GraphNode>)
      requires TableOf(edges, {}) && ExcessIs(edges, x)
      modifies nodes`inDegree
      ensures TableOf(edges, {}) && Listed(result)
      ensures Answer(edges, x, Nos(result), ok) && DegreesOf(edges, x, Nos(result))
      ensures FirstCome(edges, x, Nos(result), |result|)
    {
      var visited := new bool[nNodes](_ => false);
      result := [];
      var workq, nValidNodes := CollectSources(x);
      SortingStarts(x, workq, visited);
      ghost var sources := Sources(edges, x, nNodes);
      assert |sources| == |workq|;
      if workq == [] {
        SortingEnds(x, result, visited);
        return false, result;
      }
      while workq != []
        invariant Sorting(x, result, workq, visited)
        decreases |PresentSet(edges, nNodes)| - |result|
      {
        result, workq := SortOne(x, result, workq, visited);
      }
      SortingEnds(x, result, visited);
      ok := |result| == nValidNodes;
    }
  }

  /** Two calls of topoSort on a graph as addEdge leaves it.  The second call says yes exactly if the first
      one took something off and no set of the nodes that it left outnumbers those it took off; after a
      failure that is wrong.  After a success it gives the nodes in the order of their numbers: right exactly
      if every edge goes upwards. */
  method SortTwice(g: Graph) returns (ok: bool, result: seq<GraphNode>, ok2: bool, result2: seq<GraphNode>)
    requires g.TableOf(g.edges, {}) && g.ExcessIs(g.edges, Zeros(g.nNodes))
    modifies g.nodes`inDegree
    ensures ok <==> g.edges != [] && Acyclic(g.edges)
    ensures ok ==> TopoOrder(g.edges, Nos(result))
    ensures ok2 <==> SortsNext(g.edges, Nos(result))
    ensures ok2 && !ok ==> !Acyclic(g.edges)
    ensures ok ==> ok2 && Ascending(Nos(result2)) && forall v :: v in Nos(result2) <==> Present(g.edges, v)
    ensures ok ==> (TopoOrder(g.edges, Nos(result2)) <==> forall e :: e in g.edges ==> e.start < e.end)
  {
    ghost var x := Zeros(g.nNodes);
    ok, result := g.TopoSort(x);
    ghost var y := g.SomeExcess(g.nNodes);
    assert LeftBy(g.edges, x, Nos(result), y);
    SortsNextIff(g.edges, x, Nos(result), y);
    if ok {
      forall v: nat | v < |y| && Present(g.edges, v) ensures y[v] + CountEnd(g.edges, v) == 0 {
        NothingIsLeft(g.edges, x, Nos(result), v);
      }
    }
    ok2, result2 := g.TopoSort(y);
    if ok {
      SortAgain(g.edges, y, Nos(result2));
    }
  }

  /** After a failure the second call can say yes on a graph that has a cycle. */
  method SortLoopTwice() returns (g: Graph, ok: bool, ok2: bool)
    ensures fresh(g) && g.edges == LoopGraph() && !Acyclic(g.edges) && !ok && ok2
  {
    g := new Graph(2);
    ghost var x := Zeros(2);
    g.AddEdge(0, 1, 1, x);
    g.AddEdge(1, 1, 1, x);
    assert g.edges == LoopGraph();
    var result, result2;
    ok, result := g.TopoSort(x);
    LoopGraphCounts();
    LoopGraphSorts(x, Nos(result));
    ghost var y := g.SomeExcess(2);
    assert y[0] == 0 && y[1] == -1;
    ok2, result2 := g.TopoSort(y);
    LoopGraphSorts(y, Nos(result2));
    LoopGraphIsCyclic();
  }
}
