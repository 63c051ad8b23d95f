/** The free functions of the analysis tool: the critical path length with
    stride-dependent delays, the window counts of `getInterNds`, and the
    three partitioning drivers that cut the levels of the schedule into
    consecutive windows. */
module DfgUtils {
  import opened Wrappers
  import opened Graphs
  import opened Topo
  import opened Schedule
  import opened Levels
  import opened Combs
  import opened Partitions

  /** The `topoSort` and `assignTime` calls each driver begins with. It
      finishes exactly when the graph has no cycle and every "load" and
      "store" stride parses; the order it used is handed out for proofs. */
  method TimeNodes(g: Graph, strideMin: int) returns (r: Option<Sched>, ghost order: seq<nat>)
    requires WellFormed(g)
    ensures r.Some? <==> Acyclic(g) && StridesParse(g, Strided(strideMin))
    ensures r.Some? ==>
      Asap(g, Info(g, Strided(strideMin)), r.value.times) && IsTimeMax(r.value.times, r.value.timeMax) &&
      IsNodeOrder(g, order) && EdgesForward(g, order)
  {
    var topOrder := Topo.TopoSort(g);
    order := topOrder;
    ScheduleMeaning(g, Strided(strideMin), topOrder);
    r := Schedule.AssignTime(g, Strided(strideMin), topOrder);
  }

  /** The largest time is unique. */
  lemma TimeMaxUnique(times: seq<int>, m1: int, m2: int)
    requires IsTimeMax(times, m1) && IsTimeMax(times, m2)
    ensures m1 == m2
  {
  }

  /** Two schedules of a graph with a topological order agree, and so do
      their largest times. */
  lemma SameSchedule(g: Graph, w: Weighting, t1: seq<int>, m1: int, t2: seq<int>, m2: int, order: seq<nat>)
    requires WellFormed(g) && IsNodeOrder(g, order) && EdgesForward(g, order)
    requires Asap(g, Info(g, w), t1) && IsTimeMax(t1, m1)
    requires Asap(g, Info(g, w), t2) && IsTimeMax(t2, m2)
    ensures t1 == t2 && m1 == m2
  {
    AsapUnique(g, Info(g, w), t1, t2, order);
    TimeMaxUnique(t1, m1, m2);
  }

  /** `criticalPathLen`: the largest time of the schedule with stride
      delays; `None` where the time assignment stops the program. */
  method CriticalPathLen(g: Graph, strideMin: int) returns (len: Option<nat>, ghost times: seq<int>)
    requires WellFormed(g)
    ensures len.Some? <==> Acyclic(g) && StridesParse(g, Strided(strideMin))
    ensures len.Some? ==> Asap(g, Info(g, Strided(strideMin)), times) && IsTimeMax(times, len.value)
  {
    var r, order := TimeNodes(g, strideMin);
    if r.None? {
      return None, [];
    }
    times := r.value.times;
    len := Some(r.value.timeMax);
  }

  /** The successor loop of `getInterNds`: whether node `nd` has a
      successor timed after `end`. */
  method LeavesAfter(g: Graph, nd: nat, timeSt: seq<int>, end: int) returns (outYes: bool)
    requires WellFormed(g) && |timeSt| == NumNodes(g)
    ensures outYes == Leaves(g, timeSt, nd, end)
  {
    var succs := Succs(g, nd);
    for j := 0 to |succs|
      invariant forall q :: 0 <= q < j ==> !(0 <= succs[q] < |timeSt| && timeSt[succs[q]] > end)
    {
      SuccsBounded(g, nd, succs[j]);
      if timeSt[succs[j]] > end {
        return true;
      }
    }
    return false;
  }

  /** `getInterNds(start, end)`: the number of nodes timed in
      `[start, end]` and how many of them have a successor after `end`. */
  method GetInterNds(start: int, end: int, g: Graph, timeSt: seq<int>) returns (pData: PartData)
    requires WellFormed(g) && |timeSt| == NumNodes(g)
    ensures pData == Window(g, timeSt, start, end)
  {
    var total := 0;
    var out := 0;
    for nd := 0 to |timeSt|
      invariant total == CountIn(timeSt[..nd], start, end)
      invariant out == CountOut(g, timeSt, start, end, nd)
    {
      assert timeSt[..nd + 1][..nd] == timeSt[..nd];
      if start <= timeSt[nd] <= end {
        total := total + 1;
        var outYes := LeavesAfter(g, nd, timeSt, end);
        if outYes {
          out := out + 1;
        }
      }
    }
    assert timeSt[..|timeSt|] == timeSt;
    pData := PartData(total, out);
  }

  /** The inner loop of `partitionDFGnP` over the split points of one
      combination, `timeMax` appended: a part per split point until a
      window holds more than `limit` nodes. */
  method PartsOf(g: Graph, timeSt: seq<int>, splits: seq<nat>, limit: nat) returns (allParts: seq<Part>)
    requires WellFormed(g) && |timeSt| == NumNodes(g)
    ensures allParts == Fill(g, timeSt, splits, 0, limit)
  {
    var prev := 0;
    allParts := [];
    for si := 0 to |splits|
      invariant allParts + Fill(g, timeSt, splits[si..], prev, limit) == Fill(g, timeSt, splits, 0, limit)
    {
      var pData := GetInterNds(prev, splits[si], g, timeSt);
      if pData.total > limit {
        assert allParts + [] == allParts;
        return;
      }
      assert splits[si..][1..] == splits[si + 1..];
      allParts := allParts + [Part(prev, splits[si], pData)];
      prev := splits[si] + 1;
    }
    assert allParts + [] == allParts;
  }

  /** The loop of `partitionDFGnP` over the combinations `combs` of split
      levels: the cuts whose inner loop reached `npart` parts, and their
      number. */
  method CutsOf(g: Graph, timeSt: seq<int>, combs: seq<seq<nat>>, timeMax: nat, npart: nat, limit: nat)
    returns (count: nat, found: seq<seq<Part>>)
    requires WellFormed(g) && |timeSt| == NumNodes(g)
    ensures found == Accepted(g, timeSt, combs, timeMax, npart, limit)
    ensures count == |found|
  {
    ghost var rs := Runs(g, timeSt, combs, timeMax, limit);
    count := 0;
    found := [];
    for ci := 0 to |combs|
      invariant found == Keep(rs[..ci], npart) && count == |found|
    {
      var parts := PartsOf(g, timeSt, combs[ci] + [timeMax], limit);
      assert rs[..ci + 1][..ci] == rs[..ci];
      if |parts| == npart {
        count := count + 1;
        found := found + [parts];
      }
    }
    assert rs[..|combs|] == rs;
  }

  /** The combinations of `npart - 1` split levels below `timeMax` and
      the cuts they give: exactly the qualifying cuts, each once, and
      their number. */
  method FittingCuts(g: Graph, timeSt: seq<int>, timeMax: nat, npart: nat, limit: nat)
    returns (count: nat, found: seq<seq<Part>>)
    requires WellFormed(g) && |timeSt| == NumNodes(g) && npart >= 1
    ensures count == |found| && NoRepeats(found)
    ensures forall p :: p in found <==> Valid(g, timeSt, p, npart, timeMax, limit)
  {
    var combs := GetCombs(timeMax, npart - 1);
    count, found := CutsOf(g, timeSt, combs, timeMax, npart, limit);
    AcceptedValid(g, timeSt, timeMax, npart, limit);
  }

  /** `partitionDFGnP`: over every choice of `npart - 1` split levels below
      `timeMax`, cut `[0, timeMax]` into `npart` windows and keep the cuts
      whose windows all hold at most `map_size` nodes. It lists exactly
      the qualifying cuts of the schedule, each once, and counts them;
      `None` where the time assignment stops the program. */
  method PartitionDFGnP(g: Graph, npart: nat, mapSize: int, strideMin: int)
    returns (applicableParts: Option<nat>, found: seq<seq<Part>>, ghost times: seq<int>, ghost m: nat, ghost order: seq<nat>)
    requires WellFormed(g) && npart >= 1
    ensures applicableParts.Some? <==> Acyclic(g) && StridesParse(g, Strided(strideMin))
    ensures applicableParts.Some? ==>
      Asap(g, Info(g, Strided(strideMin)), times) && IsTimeMax(times, m) &&
      IsNodeOrder(g, order) && EdgesForward(g, order)
    ensures applicableParts.Some? ==>
      applicableParts.value == |found| && NoRepeats(found) &&
      forall p :: p in found <==> Valid(g, times, p, npart, m, Limit(mapSize))
  {
    var r: Option<Sched>;
    r, order := TimeNodes(g, strideMin);
    if r.None? {
      return None, [], [], 0, order;
    }
    var timeSt := r.value.times;
    var timeMax: nat := r.value.timeMax;
    times, m := timeSt, timeMax;
    var count: nat;
    count, found := FittingCuts(g, timeSt, timeMax, npart, Limit(mapSize));
    applicableParts := Some(count);
  }

  /** What `partitionDFGVar` ends with. */
  datatype VarOutcome = Stopped | Success(nparts: nat) | NoFit

  /** No cut of `[0, m]` into `npart` windows fits. */
  ghost predicate NoCut(g: Graph, times: seq<int>, npart: nat, m: nat, limit: nat) {
    forall p :: !Valid(g, times, p, npart, m, limit)
  }

  /** No cut into `q` windows fits, for each `q` from 2 below `n`. */
  ghost predicate NoCutBelow(g: Graph, times: seq<int>, n: nat, m: nat, limit: nat) {
    forall q :: 2 <= q < n ==> NoCut(g, times, q, m, limit)
  }

  /** An empty list of the fitting cuts into `n` windows extends `NoCutBelow`. */
  lemma NoCutNext(g: Graph, times: seq<int>, n: nat, m: nat, limit: nat, found: seq<seq<Part>>)
    requires NoCutBelow(g, times, n, m, limit) && found == []
    requires forall p :: p in found <==> Valid(g, times, p, n, m, limit)
    ensures NoCutBelow(g, times, n + 1, m, limit)
  {
    assert NoCut(g, times, n, m, limit);
  }

  /** `partitionDFGVar`: try 2, 3 and 4 windows in turn and stop at the
      first count that has a qualifying cut. */
  method PartitionDFGVar(g: Graph, mapSize: int, strideMin: int) returns (o: VarOutcome, ghost times: seq<int>, ghost m: nat)
    requires WellFormed(g)
    ensures o.Stopped? <==> !(Acyclic(g) && StridesParse(g, Strided(strideMin)))
    ensures !o.Stopped? ==> Asap(g, Info(g, Strided(strideMin)), times) && IsTimeMax(times, m)
    ensures o.Success? ==> 2 <= o.nparts <= 4 && exists p :: Valid(g, times, p, o.nparts, m, Limit(mapSize))
    ensures !o.Stopped? ==> forall q :: 2 <= q <= 4 && (o.NoFit? || q < o.nparts) ==>
      NoCut(g, times, q, m, Limit(mapSize))
  {
    o := NoFit;
    ghost var order: seq<nat> := [];
    times, m := [], 0;
    for nparts := 2 to 5
      invariant nparts > 2 ==>
        Acyclic(g) && StridesParse(g, Strided(strideMin)) &&
        Asap(g, Info(g, Strided(strideMin)), times) && IsTimeMax(times, m) &&
        IsNodeOrder(g, order) && EdgesForward(g, order)
      invariant NoCutBelow(g, times, nparts, m, Limit(mapSize))
    {
      var count, found, t, mm, ord := PartitionDFGnP(g, nparts, mapSize, strideMin);
      if count.None? {
        return Stopped, times, m;
      }
      if nparts > 2 {
        SameSchedule(g, Strided(strideMin), times, m, t, mm, order);
      }
      if count.value != 0 {
        assert found[0] in found;
        return Success(nparts), t, mm;
      }
      NoCutNext(g, t, nparts, mm, Limit(mapSize), found);
      times, m, order := t, mm, ord;
    }
  }

  /** One line of `partitionDFG`: the split after level `step`, the sizes
      of the two sides, and the nodes of the first side with a successor
      on the second. */
  datatype SplitLine = SplitLine(step: nat, part1: nat, rest: nat, out: nat)

  /** The two sides of a split hold every node. */
  lemma SplitSides(times: seq<int>, s: nat, m: nat)
    requires s <= m && forall v :: 0 <= v < |times| ==> 0 <= times[v] <= m
    ensures CountIn(times, 0, s) + CountIn(times, s + 1, m) == |times|
  {
    CountInSplit(times, 0, s, m);
    CountInAll(times, 0, m);
  }

  /** The times of a schedule lie between 0 and their maximum. */
  lemma AsapBounds(g: Graph, w: Weighting, times: seq<int>, m: int)
    requires WellFormed(g) && Asap(g, Info(g, w), times) && IsTimeMax(times, m)
    ensures forall v :: 0 <= v < |times| ==> 0 <= times[v] <= m
  {
    forall v | 0 <= v < |times| ensures 0 <= times[v] {
      assert Fixed(g, Info(g, w), times, v);
      MaxOfBounds(times, Preds(g, v));
    }
  }

  /** The loop of `partitionDFG` over the levels `0 .. timeMax`, keeping
      the running count of the nodes up to the current level. */
  method SplitLines(g: Graph, timeSt: seq<int>, timeMax: nat) returns (out: seq<SplitLine>)
    requires WellFormed(g) && |timeSt| == NumNodes(g)
    requires forall v :: 0 <= v < |timeSt| ==> 0 <= timeSt[v] <= timeMax
    ensures |out| == timeMax + 1
    ensures forall s :: 0 <= s <= timeMax ==>
      && out[s].step == s
      && out[s].part1 == CountIn(timeSt, 0, s)
      && out[s].rest == CountIn(timeSt, s + 1, timeMax)
      && out[s].part1 + out[s].rest == |timeSt|
      && out[s].out == Window(g, timeSt, 0, s).out
  {
    var part1 := 0;
    out := [];
    CountInAll(timeSt, 0, -1);
    for step := 0 to timeMax + 1
      invariant part1 == CountIn(timeSt, 0, step - 1)
      invariant |out| == step
      invariant forall s :: 0 <= s < step ==>
        && out[s].step == s
        && out[s].part1 == CountIn(timeSt, 0, s)
        && out[s].rest == CountIn(timeSt, s + 1, timeMax)
        && out[s].part1 + out[s].rest == |timeSt|
        && out[s].out == Window(g, timeSt, 0, s).out
    {
      var nds := CountIn(timeSt, step, step);
      CountInSplit(timeSt, 0, step - 1, step);
      part1 := part1 + nds;
      var pData := GetInterNds(0, step, g, timeSt);
      SplitSides(timeSt, step, timeMax);
      out := out + [SplitLine(step, part1, |timeSt| - part1, pData.out)];
    }
  }

  /** `partitionDFG`: for every level `step` of the schedule, the split of
      the nodes into those timed up to `step` and the rest. */
  method PartitionDFG(g: Graph, strideMin: int) returns (lines: Option<seq<SplitLine>>, ghost times: seq<int>, ghost m: nat)
    requires WellFormed(g)
    ensures lines.Some? <==> Acyclic(g) && StridesParse(g, Strided(strideMin))
    ensures lines.Some? ==> Asap(g, Info(g, Strided(strideMin)), times) && IsTimeMax(times, m)
    ensures lines.Some? ==> |lines.value| == m + 1 && forall s :: 0 <= s <= m ==>
      && lines.value[s].step == s
      && lines.value[s].part1 == CountIn(times, 0, s)
      && lines.value[s].rest == CountIn(times, s + 1, m)
      && lines.value[s].part1 + lines.value[s].rest == |times|
      && lines.value[s].out == Window(g, times, 0, s).out
  {
    var r, order := TimeNodes(g, strideMin);
    if r.None? {
      return None, [], 0;
    }
    var timeSt := r.value.times;
    var timeMax: nat := r.value.timeMax;
    times, m := timeSt, timeMax;
    AsapBounds(g, Strided(strideMin), timeSt, timeMax);
    var out := SplitLines(g, timeSt, timeMax);
    lines := Some(out);
  }
}
