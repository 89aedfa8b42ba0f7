/**
 The 0/1 knapsack, computed in one row that is overwritten from right to left.
 */
module KnapsackModel {
  import opened Ints

  /** What the picked items sum up to; pick[i] says whether item i is in the knapsack. */
  function Total(x: seq<int>, pick: seq<bool>): int
    requires |pick| <= |x|
  {
    if pick == [] then 0
    else Total(x, pick[..|pick| - 1]) + if pick[|pick| - 1] then x[|pick| - 1] else 0
  }

  ghost predicate Fits(w: seq<int>, pick: seq<bool>, n: nat, c: int)
    requires n <= |w|
  {
    |pick| == n && Total(w, pick) <= c
  }

  /** The greatest value of a choice among the first n items that weighs at most c. */
  ghost predicate Greatest(v: seq<int>, w: seq<int>, n: nat, c: int, r: int)
    requires |v| == |w| && n <= |w|
  {
    && (exists pick :: Fits(w, pick, n, c) && Total(v, pick) == r)
    && (forall pick :: Fits(w, pick, n, c) ==> Total(v, pick) <= r)
  }

  /** The two-row recurrence. */
  function Best(v: seq<int>, w: seq<int>, n: nat, c: nat): int
    requires |v| == |w| && n <= |w| && forall i :: 0 <= i < |w| ==> w[i] >= 0
  {
    if n == 0 then 0
    else
      var skip := Best(v, w, n - 1, c);
      if c < w[n - 1] then skip
      else
        var take := Best(v, w, n - 1, c - w[n - 1]) + v[n - 1];
        if skip < take then take else skip
  }

  lemma {:induction false} TotalOfNonNegative(w: seq<int>, pick: seq<bool>)
    requires |pick| <= |w| && forall i :: 0 <= i < |w| ==> w[i] >= 0
    ensures Total(w, pick) >= 0
  {
    if pick != [] {
      TotalOfNonNegative(w, pick[..|pick| - 1]);
    }
  }

  lemma TotalOfAppend(x: seq<int>, pick: seq<bool>, b: bool)
    requires |pick| < |x|
    ensures Total(x, pick + [b]) == Total(x, pick) + if b then x[|pick|] else 0
  {
    assert (pick + [b])[..|pick|] == pick;
  }

  lemma {:induction false} BestIsReached(v: seq<int>, w: seq<int>, n: nat, c: nat) returns (pick: seq<bool>)
    requires |v| == |w| && n <= |w| && forall i :: 0 <= i < |w| ==> w[i] >= 0
    ensures Fits(w, pick, n, c) && Total(v, pick) == Best(v, w, n, c)
  {
    if n == 0 {
      pick := [];
    } else {
      var take := c >= w[n - 1] && Best(v, w, n - 1, c) < Best(v, w, n - 1, c - w[n - 1]) + v[n - 1];
      var rest := BestIsReached(v, w, n - 1, if take then c - w[n - 1] else c);
      TotalOfAppend(v, rest, take);
      TotalOfAppend(w, rest, take);
      pick := rest + [take];
    }
  }

  lemma {:induction false} BestIsBound(v: seq<int>, w: seq<int>, n: nat, c: nat, pick: seq<bool>)
    requires |v| == |w| && n <= |w| && forall i :: 0 <= i < |w| ==> w[i] >= 0
    requires Fits(w, pick, n, c)
    ensures Total(v, pick) <= Best(v, w, n, c)
  {
    if n > 0 {
      var rest := pick[..n - 1];
      TotalOfNonNegative(w, rest);
      BestIsBound(v, w, n - 1, if pick[n - 1] then c - w[n - 1] else c, rest);
    }
  }

  /** The recurrence computes the greatest value over all choices of items. */
  lemma BestIsGreatest(v: seq<int>, w: seq<int>, n: nat, c: nat)
    requires |v| == |w| && n <= |w| && forall i :: 0 <= i < |w| ==> w[i] >= 0
    ensures Greatest(v, w, n, c, Best(v, w, n, c))
  {
    var pick := BestIsReached(v, w, n, c);
    forall pick | Fits(w, pick, n, c) ensures Total(v, pick) <= Best(v, w, n, c) {
      BestIsBound(v, w, n, c, pick);
    }
  }

  /** The sum that the inner loop forms for item n at capacity c. */
  function Candidate(v: seq<int>, w: seq<int>, n: nat, c: nat): int
    requires |v| == |w| && n < |w| && (forall i :: 0 <= i < |w| ==> w[i] >= 0) && w[n] <= c
  {
    Best(v, w, n, c - w[n]) + v[n]
  }

  /** More items, or more room, never lower the value. */
  lemma {:induction false} BestGrows(v: seq<int>, w: seq<int>, n: nat, c: nat, n': nat, c': nat)
    requires |v| == |w| && n <= n' <= |w| && c <= c' && forall i :: 0 <= i < |w| ==> w[i] >= 0
    ensures 0 <= Best(v, w, n, c) <= Best(v, w, n', c')
    decreases n'
  {
    if n < n' {
      BestGrows(v, w, n, c, n' - 1, c');
    } else if n > 0 {
      BestGrows(v, w, n - 1, c, n - 1, c');
      if c >= w[n - 1] {
        BestGrows(v, w, n - 1, c - w[n - 1], n - 1, c' - w[n - 1]);
      }
    }
  }

  /** All sums formed for items below n and capacities up to c are at most INT_MAX. */
  ghost predicate SumsFit(v: seq<int>, w: seq<int>, n: nat, c: nat)
    requires |v| == |w| && n <= |w| && forall i :: 0 <= i < |w| ==> w[i] >= 0
  {
    forall i, j | 0 <= i < n && w[i] <= j <= c :: Candidate(v, w, i, j) <= INT_MAX
  }

  lemma {:induction false} BestIsCandidate(v: seq<int>, w: seq<int>, n: nat, c: nat)
    requires |v| == |w| && n <= |w| && (forall i :: 0 <= i < |w| ==> w[i] >= 0) && SumsFit(v, w, n, c)
    ensures Best(v, w, n, c) <= INT_MAX
  {
    if n > 0 {
      BestIsCandidate(v, w, n - 1, c);
      assert c >= w[n - 1] ==> Candidate(v, w, n - 1, c) <= INT_MAX;
    }
  }

  lemma CandidateBounds(v: seq<int>, w: seq<int>, i: nat, j: nat, n: nat, c: nat)
    requires |v| == |w| && i < n <= |w| && (forall i :: 0 <= i < |w| ==> w[i] >= 0) && w[i] <= j <= c
    ensures v[i] <= Candidate(v, w, i, j) <= Best(v, w, n, c)
  {
    BestGrows(v, w, i, j - w[i], i, j - w[i]);
    assert Candidate(v, w, i, j) <= Best(v, w, i + 1, j);
    BestGrows(v, w, i + 1, j, n, c);
  }

  /** No sum exceeds INT_MAX exactly if the greatest value does not.  None is below its item's value. */
  lemma SumsFitIff(v: seq<int>, w: seq<int>, n: nat, c: nat)
    requires |v| == |w| && n <= |w| && forall i :: 0 <= i < |w| ==> w[i] >= 0
    ensures SumsFit(v, w, n, c) <==> Best(v, w, n, c) <= INT_MAX
    ensures forall i, j | 0 <= i < n && w[i] <= j <= c :: Candidate(v, w, i, j) >= v[i]
  {
    forall i, j | 0 <= i < n && w[i] <= j <= c ensures v[i] <= Candidate(v, w, i, j) <= Best(v, w, n, c) {
      CandidateBounds(v, w, i, j, n, c);
    }
    if SumsFit(v, w, n, c) {
      BestIsCandidate(v, w, n, c);
    }
  }

  /** knapsack(v, w, n, c). */
  method Knapsack(v: array<int>, w: array<int>, n: nat, c: nat) returns (r: int)
    requires n <= v.Length && n <= w.Length && forall i :: 0 <= i < n ==> w[i] >= 0
    ensures Greatest(v[..n], w[..n], n, c, r)
  {
    ghost var vs, ws := v[..n], w[..n];
    var dp := new int[c + 1](_ => 0);
    for i := 0 to n
      invariant forall k :: 0 <= k <= c ==> dp[k] == Best(vs, ws, i, k)
    {
      var j := c;
      while j >= w[i]
        invariant w[i] - 1 <= j <= c || j == c
        invariant forall k :: 0 <= k <= c ==> dp[k] == Best(vs, ws, if k <= j then i else i + 1, k)
      {
        if dp[j] < dp[j - w[i]] + v[i] {
          dp[j] := dp[j - w[i]] + v[i];
        }
        j := j - 1;
      }
    }
    BestIsGreatest(vs, ws, n, c);
    return dp[c];
  }
}
