/**
 Single-source shortest paths with the paths themselves: DijShortest.
 */
module DijkstraPaths {
  import opened Ints
  import opened Matrices
  import opened Walks
  import C = DijkstraCore

  /** The mark for "no edge" and for "not reached". */
  const MAX: int := INT_MAX / 2

  datatype DijRecord = DijRecord(finish: bool, distance: int, path: seq<nat>)

  // ----- plain distances as costs -----

  function Lift(d: int): C.GraphElem {
    C.GraphElem(d, 0)
  }

  ghost function LiftMatrix(m: Matrix<int>): (c: C.Costs)
    ensures |c| == |m| && forall i :: 0 <= i < |m| ==> |c[i]| == |m[i]|
    ensures forall i, j :: 0 <= i < |m| && 0 <= j < |m[i]| ==> c[i][j] == Lift(m[i][j])
  {
    seq(|m|, i requires 0 <= i < |m| => seq(|m[i]|, j requires 0 <= j < |m[i]| => Lift(m[i][j])))
  }

  ghost function Finished(rs: seq<DijRecord>): (f: seq<bool>)
    ensures |f| == |rs|
  {
    seq(|rs|, i requires 0 <= i < |rs| => rs[i].finish)
  }

  ghost function Distances(rs: seq<DijRecord>): (d: seq<C.GraphElem>)
    ensures |d| == |rs|
  {
    seq(|rs|, i requires 0 <= i < |rs| => Lift(rs[i].distance))
  }

  lemma {:induction false} LiftWeight(m: Matrix<int>, w: seq<nat>)
    requires InRange(m, w)
    ensures InRange(LiftMatrix(m), w) && C.Weight(LiftMatrix(m), w) == Lift(Weight(m, w))
  {
    if |w| >= 2 {
      LiftWeight(m, w[..|w| - 1]);
    }
  }

  // ----- the claims about the records -----

  /** The distance is at most the weight of every walk. */
  ghost predicate Lower(g: Matrix<int>, s: nat, j: nat, d: int)
    requires Square(g)
  {
    forall w :: IsWalk(0, |g|, w, s, j) ==> d <= Weight(g, w)
  }

  /** A distance below MAX is that of a walk through the nodes of the path. */
  ghost predicate HasPath(g: Matrix<int>, s: nat, j: nat, r: DijRecord)
    requires Square(g)
  {
    r.distance < MAX ==>
      RealWalk(g, MAX, [s] + r.path + [j], s, j) && Weight(g, [s] + r.path + [j]) == r.distance
  }

  ghost predicate PathsOk(g: Matrix<int>, s: nat, rs: seq<DijRecord>) {
    && Square(g) && |rs| == |g|
    && forall j: nat :: j < |g| ==> 0 <= rs[j].distance <= MAX && HasPath(g, s, j, rs[j])
  }

  ghost predicate Good(g: Matrix<int>, s: nat, rs: seq<DijRecord>) {
    PathsOk(g, s, rs) && C.Settled(LiftMatrix(g), 0, s, Finished(rs), Distances(rs))
  }

  lemma DirectPath(g: Matrix<int>, s: nat, j: nat)
    requires Square(g) && s < |g| && j < |g|
    ensures HasPath(g, s, j, DijRecord(false, g[s][j], []))
  {
    var w: seq<nat> := [s] + [] + [j];
    assert w == [s, j] && Weight(g, w[..1]) == 0;
  }

  /** The path to i through k is the path to k, then k. */
  lemma PathThrough(g: Matrix<int>, s: nat, k: nat, rk: DijRecord, i: nat, ri: DijRecord)
    requires Bounded(g, MAX) && s < |g| && k < |g| && i < |g|
    requires HasPath(g, s, k, rk) && 0 <= rk.distance < MAX
    requires ri.distance == rk.distance + g[k][i] < MAX && ri.path == rk.path + [k]
    ensures HasPath(g, s, i, ri)
  {
    var a: seq<nat>, b: seq<nat> := [s] + rk.path + [k], [k, i];
    assert Weight(g, b[..1]) == 0;
    WalksJoin(g, MAX, a, b, s, k, i);
    assert a + b[1..] == [s] + ri.path + [i];
  }

  lemma InitiallyGood(g: Matrix<int>, s: nat, rs: seq<DijRecord>)
    requires Bounded(g, MAX) && s < |g| == |rs|
    requires forall i :: 0 <= i < |rs| ==> rs[i] == DijRecord(i == s, g[s][i], [])
    ensures Good(g, s, rs)
  {
    forall j: nat | j < |g| ensures HasPath(g, s, j, rs[j]) {
      DirectPath(g, s, j);
    }
  }

  lemma LiftBounded(g: Matrix<int>)
    requires Bounded(g, MAX)
    ensures C.Bounded(LiftMatrix(g), Lift(MAX))
  {
  }

  // ----- the loops -----

  /** k is the unfinished node with the least distance, below MAX; or -1, and there is none below MAX. */
  ghost predicate Nearest(rs: seq<DijRecord>, k: int) {
    if k == -1 then forall i :: 0 <= i < |rs| && !rs[i].finish ==> rs[i].distance >= MAX
    else
      && 0 <= k < |rs| && !rs[k].finish && rs[k].distance < MAX
      && forall i :: 0 <= i < |rs| && !rs[i].finish ==> rs[k].distance <= rs[i].distance
  }

  method ChooseNearest(record: array<DijRecord>) returns (k: int)
    ensures Nearest(record[..], k)
  {
    var min := MAX;
    k := -1;
    for i := 0 to record.Length
      invariant k == -1 ==> min == MAX
      invariant k != -1 ==> 0 <= k < i && !record[k].finish && record[k].distance == min < MAX
      invariant forall x :: 0 <= x < i && !record[x].finish ==> min <= record[x].distance
    {
      if !record[i].finish && record[i].distance < min {
        min := record[i].distance;
        k := i;
      }
    }
  }

  ghost predicate RelaxedRecords(g: Matrix<int>, rs: seq<DijRecord>, k: nat, rs': seq<DijRecord>, upTo: nat)
    requires Square(g) && |rs| == |rs'| == |g| && k < |g|
  {
    forall i :: 0 <= i < |g| ==>
      rs'[i] == if i < upTo && !rs[i].finish && i != k && rs[k].distance + g[k][i] < rs[i].distance
                then DijRecord(false, rs[k].distance + g[k][i], rs[k].path + [k])
                else if i == k then rs[k].(finish := true) else rs[i]
  }

  /** Node k is finished, and the others are improved by way of it.  No sum leaves the range of int. */
  method RelaxFrom(g: Matrix<int>, record: array<DijRecord>, k: nat)
    requires Bounded(g, MAX) && record.Length == |g| && k < |g|
    requires !record[k].finish && 0 <= record[k].distance < MAX
    modifies record
    ensures RelaxedRecords(g, old(record[..]), k, record[..], |g|)
  {
    ghost var rs := record[..];
    record[k] := record[k].(finish := true);
    for i := 0 to record.Length
      invariant RelaxedRecords(g, rs, k, record[..], i)
    {
      assert record[k].distance + g[k][i] <= INT_MAX;
      var newDist := record[k].distance + g[k][i];
      if !record[i].finish && newDist < record[i].distance {
        record[i] := record[i].(distance := newDist, path := record[k].path);
        record[i] := record[i].(path := record[i].path + [k]);
      }
    }
  }

  lemma RelaxKeepsPaths(g: Matrix<int>, s: nat, rs: seq<DijRecord>, k: nat, rs': seq<DijRecord>)
    requires Bounded(g, MAX) && s < |g| && PathsOk(g, s, rs) && Nearest(rs, k)
    requires k < |g| == |rs'| && RelaxedRecords(g, rs, k, rs', |g|)
    ensures PathsOk(g, s, rs')
  {
    forall j: nat | j < |g| ensures 0 <= rs'[j].distance <= MAX && HasPath(g, s, j, rs'[j]) {
      assert HasPath(g, s, j, rs[j]) && HasPath(g, s, k, rs[k]);
      if rs'[j].distance != rs[j].distance {
        PathThrough(g, s, k, rs[k], j, rs'[j]);
      }
    }
  }

  lemma LiftLeast(rs: seq<DijRecord>, k: nat)
    requires Nearest(rs, k)
    ensures C.Least(0, Finished(rs), Distances(rs), k)
  {
  }

  lemma LiftRelaxed(g: Matrix<int>, rs: seq<DijRecord>, k: nat, rs': seq<DijRecord>)
    requires Square(g) && |rs| == |rs'| == |g| && k < |g| && RelaxedRecords(g, rs, k, rs', |g|)
    ensures Finished(rs') == Finished(rs)[k := true]
    ensures C.Relaxed(LiftMatrix(g), 0, Finished(rs), Distances(rs), k, Distances(rs'))
  {
  }

  lemma RelaxKeepsSettled(g: Matrix<int>, s: nat, rs: seq<DijRecord>, k: nat, rs': seq<DijRecord>)
    requires Bounded(g, MAX) && Good(g, s, rs) && Nearest(rs, k)
    requires k < |g| == |rs'| && RelaxedRecords(g, rs, k, rs', |g|)
    ensures C.Settled(LiftMatrix(g), 0, s, Finished(rs'), Distances(rs'))
  {
    LiftBounded(g);
    LiftLeast(rs, k);
    LiftRelaxed(g, rs, k, rs');
    C.RelaxKeeps(LiftMatrix(g), Lift(MAX), 0, s, Finished(rs), Distances(rs), k, Distances(rs'));
  }

  lemma RelaxKeepsGood(g: Matrix<int>, s: nat, rs: seq<DijRecord>, k: nat, rs': seq<DijRecord>)
    requires Bounded(g, MAX) && Good(g, s, rs) && Nearest(rs, k)
    requires k < |g| == |rs'| && RelaxedRecords(g, rs, k, rs', |g|)
    ensures Good(g, s, rs') && |C.Open(Finished(rs'))| < |C.Open(Finished(rs))|
  {
    RelaxKeepsPaths(g, s, rs, k, rs');
    RelaxKeepsSettled(g, s, rs, k, rs');
    assert Finished(rs') == Finished(rs)[k := true];
    C.OpenShrinks(Finished(rs), k);
  }

  /** Every distance is the least weight of a walk, cut off at MAX, and every
      distance below MAX comes with the nodes of a walk that has it. */
  ghost predicate ShortestFrom(g: Matrix<int>, s: nat, rs: seq<DijRecord>) {
    && Square(g) && |rs| == |g|
    && forall j: nat :: j < |g| && j != s ==>
         0 <= rs[j].distance <= MAX && Lower(g, s, j, rs[j].distance) && HasPath(g, s, j, rs[j])
  }

  lemma GoodEnds(g: Matrix<int>, s: nat, rs: seq<DijRecord>)
    requires Bounded(g, MAX) && Good(g, s, rs) && Nearest(rs, -1)
    ensures ShortestFrom(g, s, rs)
  {
    LiftBounded(g);
    var m := LiftMatrix(g);
    C.AllOptimal(m, Lift(MAX), 0, s, Finished(rs), Distances(rs));
    forall j: nat | j < |g| && j != s ensures Lower(g, s, j, rs[j].distance) {
      forall w | IsWalk(0, |g|, w, s, j) ensures rs[j].distance <= Weight(g, w) {
        LiftWeight(g, w);
        assert IsWalk(0, |m|, w, s, j);
        assert C.Optimal(m, 0, s, j, Distances(rs)[j]);
      }
    }
  }

  method Initial(g: Matrix<int>, s: nat) returns (record: array<DijRecord>)
    requires Bounded(g, MAX) && s < |g|
    ensures fresh(record) && Good(g, s, record[..])
  {
    record := new DijRecord[|g|](_ => DijRecord(false, MAX, []));
    for i := 0 to |g|
      invariant forall x :: 0 <= x < |g| ==> record[x] == DijRecord(false, if x < i then g[s][x] else MAX, [])
    {
      record[i] := record[i].(distance := g[s][i]);
    }
    record[s] := record[s].(finish := true);
    InitiallyGood(g, s, record[..]);
  }

  /** DijShortest, for weights between 0 and MAX. */
  method DijShortest(g: Matrix<int>, s: nat) returns (record: array<DijRecord>)
    requires Bounded(g, MAX) && s < |g|
    ensures fresh(record) && ShortestFrom(g, s, record[..])
  {
    record := Initial(g, s);
    while true
      invariant Good(g, s, record[..])
      decreases |C.Open(Finished(record[..]))|
    {
      var k := ChooseNearest(record);
      if k == -1 {
        break;
      }
      ghost var rs := record[..];
      RelaxFrom(g, record, k);
      RelaxKeepsGood(g, s, rs, k, record[..]);
    }
    GoodEnds(g, s, record[..]);
  }
}
