/**
 The spiral matrix, filled ring by ring with a running counter.
 */
module SpiralOrder {
  import opened Grid

  /** The number of cells on the border of an n by n square. */
  function RingLength(n: nat): nat {
    if n < 2 then n else 4 * (n - 1)
  }

  /** The number of cells of all rings. */
  function Area(n: nat): nat {
    RingLength(n) + if n < 2 then 0 else Area(n - 2)
  }

  lemma {:induction false} AreaIsSquare(n: nat)
    ensures Area(n) == n * n
  {
    if n >= 2 {
      AreaIsSquare(n - 2);
    }
  }

  predicate Inside(n: nat, c: Cell) {
    0 <= c.row < n && 0 <= c.col < n
  }

  predicate OnBorder(n: nat, c: Cell) {
    Inside(n, c) && (c.row == 0 || c.col == 0 || c.row == n - 1 || c.col == n - 1)
  }

  /** How many cells of the border the filling visits before this one: the whole first row, the last
      column without its ends, the last row without its first cell, the first column without its top. */
  function BorderIndex(n: nat, c: Cell): (p: nat)
    requires OnBorder(n, c)
    ensures p < RingLength(n)
  {
    if c.row == 0 then c.col
    else if c.col == n - 1 && c.row < n - 1 then n + (c.row - 1)
    else if c.row == n - 1 && c.col > 0 then 2 * n - 2 + (n - 1 - c.col)
    else 3 * n - 3 + (n - 1 - c.row)
  }

  function BorderCell(n: nat, p: nat): Cell
    requires p < RingLength(n)
  {
    if p < n then Cell(0, p)
    else if p < 2 * n - 2 then Cell(p - n + 1, n - 1)
    else if p < 3 * n - 3 then Cell(n - 1, n - 1 - (p - (2 * n - 2)))
    else Cell(n - 1 - (p - (3 * n - 3)), 0)
  }

  lemma BorderInverse(n: nat, p: nat)
    requires p < RingLength(n)
    ensures OnBorder(n, BorderCell(n, p)) && BorderIndex(n, BorderCell(n, p)) == p
  {
  }

  lemma BorderInverse'(n: nat, c: Cell)
    requires OnBorder(n, c)
    ensures BorderCell(n, BorderIndex(n, c)) == c
  {
  }

  /** How many cells the filling visits before this one. */
  function Before(n: nat, c: Cell): nat
    requires Inside(n, c)
  {
    if OnBorder(n, c) then BorderIndex(n, c) else RingLength(n) + Before(n - 2, Cell(c.row - 1, c.col - 1))
  }

  /** A cell of the inner rings, seen from the corner of the outer one. */
  function Inner(c: Cell): Cell {
    Cell(c.row + 1, c.col + 1)
  }

  /** The cell visited after p others. */
  function Visit(n: nat, p: nat): Cell
    requires p < Area(n)
  {
    if p < RingLength(n) then BorderCell(n, p)
    else
      Inner(Visit(n - 2, p - RingLength(n)))
  }

  lemma {:induction false} VisitInverse(n: nat, p: nat)
    requires p < Area(n)
    ensures Inside(n, Visit(n, p)) && Before(n, Visit(n, p)) == p
  {
    if p < RingLength(n) {
      BorderInverse(n, p);
    } else {
      VisitInverse(n - 2, p - RingLength(n));
    }
  }

  lemma {:induction false} BeforeInverse(n: nat, c: Cell)
    requires Inside(n, c)
    ensures Before(n, c) < Area(n) && Visit(n, Before(n, c)) == c
  {
    if OnBorder(n, c) {
      BorderInverse'(n, c);
    } else {
      BeforeInverse(n - 2, Cell(c.row - 1, c.col - 1));
    }
  }

  /** Cells visited one after the other lie side by side, across the ring boundaries too. */
  lemma {:induction false} StepsToNeighbour(n: nat, p: nat)
    requires p + 1 < Area(n)
    ensures Adjacent(Visit(n, p), Visit(n, p + 1))
  {
    if p >= RingLength(n) {
      StepsToNeighbour(n - 2, p - RingLength(n));
    }
  }

  /** The cell one step further in the direction of the step from a to b. */
  function Ahead(a: Cell, b: Cell): Cell {
    Cell(2 * b.row - a.row, 2 * b.col - a.col)
  }

  /** The cell reached from b by turning right after the step from a. */
  function RightOf(a: Cell, b: Cell): Cell {
    Cell(b.row + (b.col - a.col), b.col - (b.row - a.row))
  }

  /** A cell that can still be entered after p + 1 cells. */
  predicate Free(n: nat, c: Cell, p: nat) {
    Inside(n, c) && Before(n, c) > p
  }

  /** After a and b, when p cells were visited before a, the clockwise spiral goes to c: straight ahead
      while the cell there is inside the matrix and not yet visited, and otherwise to the right. */
  predicate SpiralStep(n: nat, a: Cell, b: Cell, c: Cell, p: nat) {
    c == if Free(n, Ahead(a, b), p + 1) then Ahead(a, b) else RightOf(a, b)
  }

  /** The step behind the p-th visited cell is one of the clockwise spiral. */
  predicate SpiralAfter(n: nat, p: nat)
    requires p + 2 < Area(n)
  {
    SpiralStep(n, Visit(n, p), Visit(n, p + 1), Visit(n, p + 2), p)
  }

  lemma BorderStep(n: nat, p: nat)
    requires p + 2 < RingLength(n)
    ensures SpiralStep(n, BorderCell(n, p), BorderCell(n, p + 1), BorderCell(n, p + 2), p)
  {
  }

  lemma BorderAfter(n: nat, p: nat)
    requires p + 2 < RingLength(n) <= Area(n)
    ensures SpiralAfter(n, p)
  {
    BorderStep(n, p);
    assert Visit(n, p) == BorderCell(n, p) && Visit(n, p + 1) == BorderCell(n, p + 1) && Visit(n, p + 2) == BorderCell(n, p + 2);
  }

  /** From the last two cells of a ring to the first cell within it. */
  lemma EntersRing(n: nat)
    requires RingLength(n) < Area(n)
    ensures RingLength(n) >= 2 && SpiralAfter(n, RingLength(n) - 2)
  {
    var p := RingLength(n) - 2;
    assert n >= 3 && Visit(n, p) == Cell(2, 0) && Visit(n, p + 1) == Cell(1, 0);
    assert Visit(n - 2, 0) == Cell(0, 0);
    assert Visit(n, p + 2) == Cell(1, 1) == RightOf(Cell(2, 0), Cell(1, 0));
    assert Before(n, Cell(0, 0)) == 0;
    assert !Free(n, Ahead(Cell(2, 0), Cell(1, 0)), p + 1);
  }

  lemma LeavesCorner(n: nat)
    requires RingLength(n) + 1 < Area(n)
    ensures RingLength(n) >= 1 && SpiralAfter(n, RingLength(n) - 1)
  {
    assert n > 3 && Visit(n - 2, 0) == Cell(0, 0) && Visit(n - 2, 1) == Cell(0, 1);
    assert Before(n - 2, Cell(0, 1)) == 1;
    assert Before(n, Cell(1, 2)) == RingLength(n) + 1;
  }

  lemma OuterAfter(n: nat, p: nat)
    requires p < RingLength(n) && p + 2 < Area(n)
    ensures SpiralAfter(n, p)
  {
    if p + 2 < RingLength(n) {
      BorderAfter(n, p);
    } else if p + 2 == RingLength(n) {
      EntersRing(n);
    } else {
      LeavesCorner(n);
    }
  }

  /** The order of the visits is the clockwise spiral. */
  lemma {:induction false} VisitsSpiral(n: nat, p: nat)
    requires p + 2 < Area(n)
    ensures SpiralAfter(n, p)
    decreases n, 1
  {
    if p < RingLength(n) {
      OuterAfter(n, p);
    } else {
      InnerAfter(n, p);
    }
  }

  lemma InnerVisits(n: nat, p: nat, q: nat) returns (a: Cell, b: Cell, c: Cell)
    requires p == RingLength(n) + q && p + 2 < Area(n)
    ensures n >= 2 && q + 2 < Area(n - 2)
    ensures a == Visit(n - 2, q) && b == Visit(n - 2, q + 1) && c == Visit(n - 2, q + 2)
    ensures Inner(a) == Visit(n, p) && Inner(b) == Visit(n, p + 1) && Inner(c) == Visit(n, p + 2)
  {
    a, b, c := Visit(n - 2, q), Visit(n - 2, q + 1), Visit(n - 2, q + 2);
  }

  lemma InnerStep(n: nat, a: Cell, b: Cell, c: Cell, p: nat)
    requires n >= 2 && SpiralStep(n - 2, a, b, c, p)
    ensures SpiralStep(n, Inner(a), Inner(b), Inner(c), p + RingLength(n))
  {
    var ahead := Ahead(a, b);
    assert Ahead(Inner(a), Inner(b)) == Inner(ahead);
    assert Free(n, Inner(ahead), p + RingLength(n) + 1) <==> Free(n - 2, ahead, p + 1);
  }

  lemma StepOfVisits(n: nat, p: nat, a: Cell, b: Cell, c: Cell)
    requires p + 2 < Area(n) && a == Visit(n, p) && b == Visit(n, p + 1) && c == Visit(n, p + 2)
    requires SpiralStep(n, a, b, c, p)
    ensures SpiralAfter(n, p)
  {
  }

  lemma {:induction false} InnerAfter(n: nat, p: nat)
    requires RingLength(n) <= p && p + 2 < Area(n)
    ensures SpiralAfter(n, p)
    decreases n, 0
  {
    var q := p - RingLength(n);
    var a, b, c := InnerVisits(n, p, q);
    assert SpiralStep(n, Inner(a), Inner(b), Inner(c), p) by {
      SpiralAt(n - 2, q, a, b, c);
      InnerStep(n, a, b, c, q);
    }
    StepOfVisits(n, p, Inner(a), Inner(b), Inner(c));
  }

  lemma {:induction false} SpiralAt(n: nat, p: nat, a: Cell, b: Cell, c: Cell)
    requires p + 2 < Area(n) && a == Visit(n, p) && b == Visit(n, p + 1) && c == Visit(n, p + 2)
    ensures SpiralStep(n, a, b, c, p)
    decreases n, 2
  {
    VisitsSpiral(n, p);
  }

  lemma SpiralStarts(n: nat)
    ensures n >= 1 ==> Visit(n, 0) == Cell(0, 0)
    ensures n >= 2 ==> Visit(n, 1) == Cell(0, 1)
  {
  }
}

module SpiralProgram {
  import opened Grid
  import opened Ints
  import opened SpiralOrder

  /** Cell (i, j), seen from the corner of ring number k. */
  function Seen(i: int, j: int, k: nat): Cell {
    Cell(i - k, j - k)
  }

  function Side(n: nat, k: nat): nat {
    if n >= 2 * k then n - 2 * k else 0
  }

  /** A cell that the filling of ring k and of the rings within it visits after fewer than p others. */
  predicate Visited(side: nat, c: Cell, p: int) {
    Inside(side, c) && Before(side, c) < p
  }

  /** What a cell holds once the cells visited after at least `from` and fewer than `to` others have
      been numbered, the first of them base + 1. */
  function Value(side: nat, c: Cell, from: int, to: int, base: int, was: int): int {
    if Visited(side, c, to) && !Visited(side, c, from) then base + 1 + Before(side, c) - from else was
  }

  lemma OnePerNumber(side: nat, c: Cell, p: nat)
    requires p < RingLength(side) && c == BorderCell(side, p)
    ensures Inside(side, c) && Before(side, c) == p
    ensures forall d :: Visited(side, d, p + 1) <==> Visited(side, d, p) || d == c
  {
    BorderInverse(side, p);
    forall d | Inside(side, d) && Before(side, d) == p ensures d == c {
      if OnBorder(side, d) {
        BorderInverse'(side, d);
      }
    }
  }

  /** The last cells of a ring's four loops are visited after this many. */
  function UpEnd(side: nat): nat {
    side
  }

  function RightEnd(side: nat): nat {
    if side < 2 then side else 2 * side - 2
  }

  function DownEnd(side: nat): nat {
    if side < 2 then side else 3 * side - 3
  }

  lemma InnerVisited(n: nat, k: nat, i: int, j: int)
    ensures var side, inner := Side(n, k), Side(n, k + 1);
            (Visited(inner, Seen(i, j, k + 1), Area(inner)) <==>
               Visited(side, Seen(i, j, k), Area(side)) && !Visited(side, Seen(i, j, k), RingLength(side))) &&
            (Inside(inner, Seen(i, j, k + 1)) ==>
               Before(side, Seen(i, j, k)) == RingLength(side) + Before(inner, Seen(i, j, k + 1)))
  {
    if Inside(Side(n, k + 1), Seen(i, j, k + 1)) {
      BeforeInverse(Side(n, k + 1), Seen(i, j, k + 1));
    } else if Inside(Side(n, k), Seen(i, j, k)) {
      assert OnBorder(Side(n, k), Seen(i, j, k));
    }
  }

  class Spiral {
    var counter: int

    constructor ()
      ensures counter == 0
    {
      counter := 0;
    }

    /** The first row of the ring. */
    method FillUp(m: array2<int>, n: nat, k: nat)
      requires m.Length0 == n && m.Length1 == n
      modifies this, m
      ensures counter == old(counter) + UpEnd(Side(n, k))
      ensures forall a, b :: 0 <= a < n && 0 <= b < n ==>
                m[a, b] == Value(Side(n, k), Seen(a, b, k), 0, UpEnd(Side(n, k)), old(counter), old(m[a, b]))
    {
      ghost var side := Side(n, k);
      ghost var p := 0;
      var i := k;
      while i < n - k
        invariant k <= i && p == (if side == 0 then 0 else i - k) <= side && counter == old(counter) + p
        invariant forall a, b :: 0 <= a < n && 0 <= b < n ==>
                    m[a, b] == Value(side, Seen(a, b, k), 0, p, old(counter), old(m[a, b]))
      {
        OnePerNumber(side, Seen(k, i, k), p);
        counter := counter + 1;
        m[k, i] := counter;
        i, p := i + 1, p + 1;
      }
    }

    /** The last column without its ends. */
    method FillRight(m: array2<int>, n: nat, k: nat)
      requires m.Length0 == n && m.Length1 == n
      modifies this, m
      ensures counter == old(counter) + RightEnd(Side(n, k)) - UpEnd(Side(n, k))
      ensures forall a, b :: 0 <= a < n && 0 <= b < n ==>
                m[a, b] == Value(Side(n, k), Seen(a, b, k), UpEnd(Side(n, k)), RightEnd(Side(n, k)),
                                 old(counter), old(m[a, b]))
    {
      ghost var side := Side(n, k);
      ghost var p := UpEnd(side);
      var i := k + 1;
      while i < n - k - 1
        invariant k < i && p == (if side < 2 then side else side + i - k - 1) <= RightEnd(side)
        invariant counter == old(counter) + p - UpEnd(side)
        invariant forall a, b :: 0 <= a < n && 0 <= b < n ==>
                    m[a, b] == Value(side, Seen(a, b, k), UpEnd(side), p, old(counter), old(m[a, b]))
      {
        OnePerNumber(side, Seen(i, n - k - 1, k), p);
        counter := counter + 1;
        m[i, n - k - 1] := counter;
        i, p := i + 1, p + 1;
      }
    }

    /** The last row without its first cell, from right to left. */
    method FillDown(m: array2<int>, n: nat, k: nat)
      requires m.Length0 == n && m.Length1 == n
      modifies this, m
      ensures counter == old(counter) + DownEnd(Side(n, k)) - RightEnd(Side(n, k))
      ensures forall a, b :: 0 <= a < n && 0 <= b < n ==>
                m[a, b] == Value(Side(n, k), Seen(a, b, k), RightEnd(Side(n, k)), DownEnd(Side(n, k)),
                                 old(counter), old(m[a, b]))
    {
      ghost var side := Side(n, k);
      ghost var p := RightEnd(side);
      var i := n - 1 - k;
      while i >= k + 1
        invariant i <= n - 1 - k && p == (if side < 2 then side else 2 * side - 2 + (n - 1 - k - i)) <= DownEnd(side)
        invariant counter == old(counter) + p - RightEnd(side)
        invariant forall a, b :: 0 <= a < n && 0 <= b < n ==>
                    m[a, b] == Value(side, Seen(a, b, k), RightEnd(side), p, old(counter), old(m[a, b]))
      {
        OnePerNumber(side, Seen(n - 1 - k, i, k), p);
        counter := counter + 1;
        m[n - 1 - k, i] := counter;
        i, p := i - 1, p + 1;
      }
    }

    /** The first column without its top, from bottom to top. */
    method FillLeft(m: array2<int>, n: nat, k: nat)
      requires m.Length0 == n && m.Length1 == n
      modifies this, m
      ensures counter == old(counter) + RingLength(Side(n, k)) - DownEnd(Side(n, k))
      ensures forall a, b :: 0 <= a < n && 0 <= b < n ==>
                m[a, b] == Value(Side(n, k), Seen(a, b, k), DownEnd(Side(n, k)), RingLength(Side(n, k)),
                                 old(counter), old(m[a, b]))
    {
      ghost var side := Side(n, k);
      ghost var p := DownEnd(side);
      var i := n - 1 - k;
      while i >= k + 1
        invariant i <= n - 1 - k && p == (if side < 2 then side else 3 * side - 3 + (n - 1 - k - i)) <= RingLength(side)
        invariant counter == old(counter) + p - DownEnd(side)
        invariant forall a, b :: 0 <= a < n && 0 <= b < n ==>
                    m[a, b] == Value(side, Seen(a, b, k), DownEnd(side), p, old(counter), old(m[a, b]))
      {
        OnePerNumber(side, Seen(i, k, k), p);
        counter := counter + 1;
        m[i, k] := counter;
        i, p := i - 1, p + 1;
      }
    }

    /** The four loops of one ring. */
    method FillRing(m: array2<int>, n: nat, k: nat)
      requires m.Length0 == n && m.Length1 == n
      modifies this, m
      ensures counter == old(counter) + RingLength(Side(n, k))
      ensures forall a, b :: 0 <= a < n && 0 <= b < n ==>
                m[a, b] == Value(Side(n, k), Seen(a, b, k), 0, RingLength(Side(n, k)), old(counter), old(m[a, b]))
    {
      FillUp(m, n, k);
      FillRight(m, n, k);
      FillDown(m, n, k);
      FillLeft(m, n, k);
    }

    /** Fills ring k and, by recursion, the rings within it. */
    method FillRoundMatrix(m: array2<int>, n: nat, k: nat)
      requires m.Length0 == n && m.Length1 == n
      modifies this, m
      ensures counter == old(counter) + Area(Side(n, k))
      ensures forall a, b :: 0 <= a < n && 0 <= b < n ==>
                m[a, b] == Value(Side(n, k), Seen(a, b, k), 0, Area(Side(n, k)), old(counter), old(m[a, b]))
      decreases n / 2 + 2 - k
    {
      if k > n / 2 + 1 {
        return;
      }
      FillRing(m, n, k);
      FillRoundMatrix(m, n, k + 1);
      forall a, b | 0 <= a < n && 0 <= b < n
        ensures m[a, b] == Value(Side(n, k), Seen(a, b, k), 0, Area(Side(n, k)), old(counter), old(m[a, b]))
      {
        InnerVisited(n, k, a, b);
      }
    }
  }

  function At(m: array2<int>, c: Cell): int
    requires Inside(m.Length0, c) && Inside(m.Length1, c)
    reads m
  {
    m[c.row, c.col]
  }

  ghost predicate HoldsOnce(m: array2<int>, n: nat, v: int)
    requires m.Length0 == n && m.Length1 == n
    reads m
  {
    && (exists c :: Inside(n, c) && At(m, c) == v)
    && (forall c, d :: Inside(n, c) && Inside(n, d) && At(m, c) == v && At(m, d) == v ==> c == d)
  }

  /** The matrix holds the numbers of the visits. */
  ghost predicate Numbered(m: array2<int>, n: nat)
    requires m.Length0 == n && m.Length1 == n
    reads m
  {
    forall c :: Inside(n, c) ==> At(m, c) == Before(n, c) + 1
  }

  lemma EachOnce(m: array2<int>, n: nat, v: int)
    requires m.Length0 == n && m.Length1 == n && Numbered(m, n) && 1 <= v <= Area(n)
    ensures Inside(n, Visit(n, v - 1)) && At(m, Visit(n, v - 1)) == v && HoldsOnce(m, n, v)
  {
    VisitInverse(n, v - 1);
    forall c | Inside(n, c) && At(m, c) == v ensures c == Visit(n, v - 1) {
      BeforeInverse(n, c);
    }
  }

  lemma NumbersSideBySide(m: array2<int>, n: nat, c: Cell, d: Cell)
    requires m.Length0 == n && m.Length1 == n && Numbered(m, n) && Inside(n, c) && Inside(n, d)
    ensures 1 <= At(m, c) <= Area(n)
    ensures At(m, d) == At(m, c) + 1 ==> Adjacent(c, d)
  {
    BeforeInverse(n, c);
    BeforeInverse(n, d);
    if At(m, d) == At(m, c) + 1 {
      StepsToNeighbour(n, Before(n, c));
    }
  }

  lemma NumberOf(m: array2<int>, n: nat, c: Cell, p: nat)
    requires m.Length0 == n && m.Length1 == n && Numbered(m, n) && Inside(n, c) && At(m, c) == p + 1
    ensures p < Area(n) && Visit(n, p) == c
  {
    BeforeInverse(n, c);
  }

  /** Three consecutive numbers take a step of the clockwise spiral. */
  lemma NumbersSpiral(m: array2<int>, n: nat, p: nat, a: Cell, b: Cell, c: Cell)
    requires m.Length0 == n && m.Length1 == n && Numbered(m, n) && Inside(n, a) && Inside(n, b) && Inside(n, c)
    requires At(m, a) == p + 1 && At(m, b) == p + 2 && At(m, c) == p + 3
    ensures SpiralStep(n, a, b, c, p)
  {
    NumberOf(m, n, a, p);
    NumberOf(m, n, b, p + 1);
    NumberOf(m, n, c, p + 2);
    SpiralAt(n, p, a, b, c);
  }

  lemma Squares(a: nat, b: nat)
    requires a <= b
    ensures a * a <= b * b
  {
    assert a * a <= a * b <= b * b;
  }

  /** Counting from 0, no number exceeds INT_MAX if and only if n is at most 46340. */
  lemma NumbersFitIff(m: array2<int>, n: nat)
    requires m.Length0 == n && m.Length1 == n && Numbered(m, n)
    ensures (forall c :: Inside(n, c) ==> At(m, c) <= INT_MAX) <==> n <= 46340
  {
    AreaIsSquare(n);
    if n <= 46340 {
      Squares(n, 46340);
      forall c | Inside(n, c) ensures At(m, c) <= INT_MAX {
        BeforeInverse(n, c);
      }
    } else {
      Squares(46341, n);
      EachOnce(m, n, Area(n));
    }
  }

  lemma IsNumbered(m: array2<int>, n: nat)
    requires m.Length0 == n && m.Length1 == n
    requires forall a, b :: 0 <= a < n && 0 <= b < n ==> m[a, b] == Value(n, Seen(a, b, 0), 0, Area(n), 0, 0)
    ensures Numbered(m, n)
  {
    forall c | Inside(n, c) ensures At(m, c) == Before(n, c) + 1 {
      assert Seen(c.row, c.col, 0) == c;
      BeforeInverse(n, c);
    }
  }

  /** The program: a new matrix, filled with the counter at 0. */
  method FilledMatrix(n: nat) returns (m: array2<int>)
    ensures m.Length0 == n && m.Length1 == n && Numbered(m, n)
  {
    m := new int[n, n]((i, j) => 0);
    var spiral := new Spiral();
    spiral.FillRoundMatrix(m, n, 0);
    IsNumbered(m, n);
  }
}
