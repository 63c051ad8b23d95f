/** The `DFGAnaly` class: a data-flow graph held by the object, its
    depth-first topological sort, the time assignment in which every node
    takes one step, and the critical path length with the number of nodes
    at each level. */
module DfgAnaly {
  import opened Wrappers
  import opened Graphs
  import opened Topo
  import opened Schedule
  import opened Levels

  /** With unit delays, the largest time `m` is the number of nodes on a
      longest walk: no walk from a node is longer, and some walk is that
      long when the graph has a node. */
  lemma LongestWalk(g: Graph, times: seq<int>, m: int)
    requires WellFormed(g) && Asap(g, Info(g, Unit), times) && IsTimeMax(times, m)
    ensures forall w :: IsWalk(g, w) && w[0] < NumNodes(g) ==> |w| <= m
    ensures NumNodes(g) > 0 ==> exists w :: IsWalk(g, w) && w[0] < NumNodes(g) && |w| == m
  {
    forall w | IsWalk(g, w) && w[0] < NumNodes(g) ensures |w| <= m {
      WalkBound(g, times, m, w);
    }
    if NumNodes(g) > 0 {
      UnitLevels(g, times, 0);
      var v :| 0 <= v < |times| && times[v] == m;
      var w := LongestWalkTo(g, times, v);
    }
  }

  /** With unit delays every node sits at a level from 1 to `m`: level 0 is
      empty and the levels `0 .. m` hold every node. */
  lemma UnitLevelCounts(g: Graph, times: seq<int>, m: nat)
    requires WellFormed(g) && Asap(g, Info(g, Unit), times) && IsTimeMax(times, m)
    ensures Sum(LevelCounts(times, m)) == NumNodes(g)
    ensures LevelCounts(times, m)[0] == 0
  {
    forall v | 0 <= v < |times| ensures 1 <= times[v] <= m {
      UnitLevels(g, times, v);
    }
    LevelsSum(times, m);
    CountInAll(times, 0, m);
    CountInAll(times, 1, m);
    CountInSplit(times, 0, 0, m);
  }

  /** The loop of `criticalPathLen` that counts the nodes at each level
      `0 .. m` with `std::count`. */
  method CountLevels(timeSt: seq<int>, m: nat) returns (levels: seq<nat>)
    ensures levels == LevelCounts(timeSt, m)
  {
    levels := [];
    for i := 0 to m + 1
      invariant |levels| == i
      invariant forall x :: 0 <= x < i ==> levels[x] == CountIn(timeSt, x, x)
    {
      levels := levels + [CountIn(timeSt, i, i)];
    }
  }

  class DFGAnaly {
    /** The graph under analysis. */
    const gp: Graph

    constructor(grph: Graph)
      ensures gp == grph
    {
      gp := grph;
    }

    /** The depth-first reverse postorder of every node. */
    method TopoSort() returns (order: seq<nat>)
      requires WellFormed(gp)
      ensures IsNodeOrder(gp, order)
      ensures Acyclic(gp) <==> EdgesForward(gp, order)
    {
      order := Topo.TopoSort(gp);
    }

    /** Times along `topOrder` with one step per node. Over a node order it
        finishes exactly when every edge goes forward, and then gives the
        as-soon-as-possible schedule, its maximum and the number of "load"
        nodes at time 1. */
    method AssignTime(topOrder: seq<nat>) returns (r: Option<Sched>)
      requires WellFormed(gp) && InRange(topOrder, NumNodes(gp))
      ensures r == Schedule.Schedule(gp, Unit, topOrder)
      ensures IsNodeOrder(gp, topOrder) ==> (r.Some? <==> EdgesForward(gp, topOrder))
      ensures IsNodeOrder(gp, topOrder) && r.Some? ==>
        Asap(gp, Info(gp, Unit), r.value.times) && IsTimeMax(r.value.times, r.value.timeMax) &&
        r.value.loadsAtOne == |LoadNodesAtOne(gp, r.value.times)|
    {
      r := Schedule.AssignTime(gp, Unit, topOrder);
      if IsNodeOrder(gp, topOrder) {
        ScheduleMeaning(gp, Unit, topOrder);
      }
    }

    /** The length of a longest path, counted in nodes, and the number of
        nodes at each level `0 .. len`; `None` when the graph has a cycle,
        where the time assignment stops. */
    method CriticalPathLen() returns (len: Option<nat>, levels: seq<nat>, ghost times: seq<int>)
      requires WellFormed(gp)
      ensures len.Some? <==> Acyclic(gp)
      ensures len.Some? ==> Asap(gp, Info(gp, Unit), times) && IsTimeMax(times, len.value)
      ensures len.Some? ==>
        (forall w :: IsWalk(gp, w) && w[0] < NumNodes(gp) ==> |w| <= len.value) &&
        (NumNodes(gp) > 0 ==> exists w :: IsWalk(gp, w) && w[0] < NumNodes(gp) && |w| == len.value)
      ensures len.Some? ==>
        levels == LevelCounts(times, len.value) && Sum(levels) == NumNodes(gp) && levels[0] == 0
    {
      var order := TopoSort();
      var r := AssignTime(order);
      if r.None? {
        return None, [], [];
      }
      var timeSt := r.value.times;
      var timeMax := r.value.timeMax;
      times := timeSt;
      UnitAcyclic(gp, timeSt);
      LongestWalk(gp, timeSt, timeMax);
      UnitLevelCounts(gp, timeSt, timeMax);
      levels := CountLevels(timeSt, timeMax);
      len := Some(timeMax);
    }
  }
}
