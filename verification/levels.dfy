/** Counting nodes by time: the level counts `std::count(timeSt, i)`, the
    window counts of `getInterNds`, and the nodes of a window with an edge
    leaving it. */
module Levels {
  import opened Graphs

  /** Number of nodes whose time lies in `[lo, hi]`. */
  function CountIn(times: seq<int>, lo: int, hi: int): nat
    decreases |times|
  {
    if times == [] then 0
    else
      CountIn(times[..|times| - 1], lo, hi) +
      (if lo <= times[|times| - 1] <= hi then 1 else 0)
  }

  /** The nodes whose time lies in `[lo, hi]`. */
  ghost function InWindow(times: seq<int>, lo: int, hi: int): set<nat> {
    set v: nat | v < |times| && lo <= times[v] <= hi
  }

  /** The count is the size of the set it counts. */
  lemma {:induction false} CountInSize(times: seq<int>, lo: int, hi: int)
    ensures CountIn(times, lo, hi) == |InWindow(times, lo, hi)|
    decreases |times|
  {
    if times != [] {
      var last := |times| - 1;
      var front := times[..last];
      CountInSize(front, lo, hi);
      if lo <= times[last] <= hi {
        assert InWindow(times, lo, hi) == InWindow(front, lo, hi) + {last};
      } else {
        assert InWindow(times, lo, hi) == InWindow(front, lo, hi);
      }
    }
  }

  /** `[lo, mid]` and `[mid + 1, hi]` split `[lo, hi]`. */
  lemma {:induction false} CountInSplit(times: seq<int>, lo: int, mid: int, hi: int)
    requires lo - 1 <= mid <= hi
    ensures CountIn(times, lo, mid) + CountIn(times, mid + 1, hi) == CountIn(times, lo, hi)
    decreases |times|
  {
    if times != [] {
      CountInSplit(times[..|times| - 1], lo, mid, hi);
    }
  }

  /** A window holding every time counts every node; an empty one none. */
  lemma {:induction false} CountInAll(times: seq<int>, lo: int, hi: int)
    ensures (forall v :: 0 <= v < |times| ==> lo <= times[v] <= hi) ==> CountIn(times, lo, hi) == |times|
    ensures hi < lo ==> CountIn(times, lo, hi) == 0
    decreases |times|
  {
    if times != [] {
      CountInAll(times[..|times| - 1], lo, hi);
    }
  }

  /** Sum of a sequence of counts. */
  function Sum(s: seq<nat>): nat
    decreases |s|
  {
    if s == [] then 0 else Sum(s[..|s| - 1]) + s[|s| - 1]
  }

  /** The counts of levels `0 .. m`. */
  function LevelCounts(times: seq<int>, m: nat): (levels: seq<nat>)
    ensures |levels| == m + 1
    ensures forall i :: 0 <= i <= m ==> levels[i] == CountIn(times, i, i)
  {
    seq(m + 1, i requires 0 <= i <= m => CountIn(times, i, i))
  }

  /** The counts of levels `0 .. j - 1` add up to the nodes with times in
      `[0, j - 1]`. */
  lemma {:induction false} LevelPrefixSum(times: seq<int>, levels: seq<nat>, j: nat)
    requires j <= |levels|
    requires forall i :: 0 <= i < |levels| ==> levels[i] == CountIn(times, i, i)
    ensures Sum(levels[..j]) == CountIn(times, 0, j - 1)
  {
    if j == 0 {
      CountInAll(times, 0, -1);
    } else {
      LevelPrefixSum(times, levels, j - 1);
      assert levels[..j][..j - 1] == levels[..j - 1];
      CountInSplit(times, 0, j - 2, j - 1);
    }
  }

  /** When every time lies in `[0, m]`, the level counts add up to the
      number of nodes. */
  lemma LevelsSum(times: seq<int>, m: nat)
    requires forall v :: 0 <= v < |times| ==> 0 <= times[v] <= m
    ensures Sum(LevelCounts(times, m)) == |times|
  {
    var levels := LevelCounts(times, m);
    LevelPrefixSum(times, levels, m + 1);
    assert levels[..m + 1] == levels;
    CountInAll(times, 0, m);
  }

  /** Node `v` has a successor timed after `hi`. */
  predicate Leaves(g: Graph, times: seq<int>, v: nat, hi: int) {
    exists s :: s in Succs(g, v) && 0 <= s < |times| && times[s] > hi
  }

  /** Number of nodes below `n` whose time lies in `[lo, hi]` and which
      have a successor timed after `hi`. */
  ghost function CountOut(g: Graph, times: seq<int>, lo: int, hi: int, n: nat): nat
    requires n <= |times|
  {
    if n == 0 then 0
    else
      CountOut(g, times, lo, hi, n - 1) +
      (if lo <= times[n - 1] <= hi && Leaves(g, times, n - 1, hi) then 1 else 0)
  }

  /** The nodes below `n` of the window with a successor after it. */
  ghost function OutOfWindow(g: Graph, times: seq<int>, lo: int, hi: int, n: nat): set<nat> {
    set v: nat | v < n && v < |times| && lo <= times[v] <= hi && Leaves(g, times, v, hi)
  }

  /** `CountOut` counts `OutOfWindow`. */
  lemma {:induction false} CountOutSize(g: Graph, times: seq<int>, lo: int, hi: int, n: nat)
    requires n <= |times|
    ensures CountOut(g, times, lo, hi, n) == |OutOfWindow(g, times, lo, hi, n)|
  {
    if n == 0 {
      assert OutOfWindow(g, times, lo, hi, n) == {};
    } else {
      var m := n - 1;
      CountOutSize(g, times, lo, hi, m);
      WindowStep(g, times, lo, hi, m, n);
    }
  }

  /** Node `m` joins the nodes leaving the window exactly when it lies in
      the window and has a successor after it. */
  lemma WindowStep(g: Graph, times: seq<int>, lo: int, hi: int, m: nat, n: nat)
    requires n == m + 1 && n <= |times|
    ensures var leaves := lo <= times[m] <= hi && Leaves(g, times, m, hi);
      && CountOut(g, times, lo, hi, n) == CountOut(g, times, lo, hi, m) + (if leaves then 1 else 0)
      && OutOfWindow(g, times, lo, hi, n) == OutOfWindow(g, times, lo, hi, m) + (if leaves then {m} else {})
      && m !in OutOfWindow(g, times, lo, hi, m)
  {
    var before := OutOfWindow(g, times, lo, hi, m);
    var after := OutOfWindow(g, times, lo, hi, n);
    var leaves := lo <= times[m] <= hi && Leaves(g, times, m, hi);
    forall x ensures x in after <==> x in before + (if leaves then {m} else {}) { }
  }

  /** Only nodes of the window are counted as leaving it. */
  lemma {:induction false} CountOutWithin(g: Graph, times: seq<int>, lo: int, hi: int, n: nat)
    requires n <= |times|
    ensures CountOut(g, times, lo, hi, n) <= CountIn(times[..n], lo, hi)
  {
    if n > 0 {
      CountOutWithin(g, times, lo, hi, n - 1);
      assert times[..n][..n - 1] == times[..n - 1];
    }
  }
}
