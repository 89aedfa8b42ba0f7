/**
 Notions that several of the models share.
 */
module Wrappers {
  datatype Option<+T> = None | Some(value: T)
}

module Ints {
  const INT_MAX: int := 0x7FFF_FFFF

  type Byte = x: int | 0 <= x < 0x100

  function Min(a: nat, b: nat): nat {
    if a < b then a else b
  }
}

module Sequences {

  ghost predicate Distinct<T>(s: seq<T>) {
    forall i, j :: 0 <= i < j < |s| ==> s[i] != s[j]
  }

  ghost function Members<T>(s: seq<T>): set<T> {
    set x | x in s
  }

  lemma {:induction false} DistinctCount<T>(s: seq<T>)
    requires Distinct(s)
    ensures |Members(s)| == |s|
  {
    if s == [] {
      assert Members(s) == {};
    } else {
      DistinctCount(s[1..]);
      assert s[0] !in s[1..];
      assert Members(s) == Members(s[1..]) + {s[0]};
    }
  }

  lemma SomeMember<T>(s: seq<T>)
    ensures s != [] ==> exists x :: x in s
  {
    if s != [] {
      assert s[0] in s;
    }
  }

  lemma SubsetCount<T>(a: set<T>, b: set<T>)
    requires a <= b
    ensures |a| <= |b|
  {
    assert b == a + (b - a);
  }

  /** A sequence without repetition in a set is no longer than the set, and just as long only if it has all of it. */
  lemma DistinctWithin<T>(r: seq<T>, s: set<T>)
    requires Distinct(r) && forall k :: 0 <= k < |r| ==> r[k] in s
    ensures |r| <= |s|
    ensures |r| == |s| ==> Members(r) == s
  {
    DistinctCount(r);
    assert s == Members(r) + (s - Members(r));
  }
}

module Grid {

  datatype Cell = Cell(row: int, col: int)

  /** The cells share a side. */
  predicate Adjacent(x: Cell, y: Cell) {
    (x.row == y.row && (x.col == y.col + 1 || y.col == x.col + 1)) ||
    (x.col == y.col && (x.row == y.row + 1 || y.row == x.row + 1))
  }
}
