/** The partition pairs `(k, l)` with `k < l`, in the order of the nested loops
    `for k in 0 .. numParts-2, for l in k+1 .. numParts-1` that create and
    constrain the inter-partition variables. */
module Pairs {

  type Pair = (nat, nat)

  /** `(k, k+1), ..., (k, m-1)`. */
  function RowPairsUpTo(k: nat, m: nat): (ps: seq<Pair>)
    ensures |ps| == if m <= k + 1 then 0 else m - k - 1
  {
    if m <= k + 1 then [] else RowPairsUpTo(k, m - 1) + [(k, m - 1)]
  }

  /** All pairs whose first partition is below `k`. */
  function PairsBelow(k: nat, n: nat): seq<Pair> {
    if k == 0 then [] else PairsBelow(k - 1, n) + RowPairsUpTo(k - 1, n)
  }

  /** All pairs `(k, l)` with `k < l < n`. The outer loop runs while
      `k < n - 1`, so there are none for `n <= 1`. */
  function AllPairs(n: nat): seq<Pair> {
    if n == 0 then [] else PairsBelow(n - 1, n)
  }

  /** The enumeration ends after the outer loop's last value of `k`. */
  lemma AllPairsBelow(n: nat, k: nat)
    requires k == if n == 0 then 0 else n - 1
    ensures AllPairs(n) == PairsBelow(k, n)
  {
  }

  lemma {:induction false} RowPairsUpToMembers(k: nat, m: nat, p: Pair)
    ensures p in RowPairsUpTo(k, m) <==> p.0 == k && k < p.1 < m
    decreases m
  {
    if m > k + 1 {
      RowPairsUpToMembers(k, m - 1, p);
    }
  }

  lemma {:induction false} PairsBelowMembers(k: nat, n: nat, p: Pair)
    ensures p in PairsBelow(k, n) <==> p.0 < k && p.0 < p.1 < n
  {
    if k > 0 {
      PairsBelowMembers(k - 1, n, p);
      RowPairsUpToMembers(k - 1, n, p);
    }
  }

  /** The enumeration visits exactly the pairs `k < l < n`. */
  lemma AllPairsMembers(n: nat, p: Pair)
    ensures p in AllPairs(n) <==> p.0 < p.1 < n
  {
    if n > 0 {
      PairsBelowMembers(n - 1, n, p);
    }
  }

  lemma {:induction false} PairsBelowSize(k: nat, n: nat)
    requires k <= n
    ensures 2 * |PairsBelow(k, n)| == k * (2 * n - k - 1)
  {
    if k > 0 {
      var m := k - 1;
      PairsBelowSize(m, n);
      var row := |RowPairsUpTo(m, n)|;
      assert row == n - m - 1;
      assert |PairsBelow(k, n)| == |PairsBelow(m, n)| + row;
      assert (m + 1) * (2 * n - (m + 1) - 1) == m * (2 * n - m - 1) + 2 * (n - m - 1);
    }
  }

  /** There are `n (n - 1) / 2` pairs. */
  lemma AllPairsSize(n: nat)
    ensures 2 * |AllPairs(n)| == n * (n - 1)
  {
    if n > 0 {
      PairsBelowSize(n - 1, n);
    }
  }
}
