/** What the solution validator prints besides its assertions: per partition
    the values written, the out edges, the values read and the in edges, and
    the load and store transactions. Every edge that goes forward leaves one
    partition and enters another, so the out edges and the in edges of all
    partitions add up to the same number. */
module Report {
  import opened Graphs
  import opened GroupTable
  import opened Ilp
  import opened Semantics
  import opened Validation
  import Levels

  /** Entries of `preds` placed in an earlier partition than `k`. */
  function EarlierCount(val: Valuation, preds: seq<nat>, numParts: nat, k: int): nat {
    if preds == [] then 0
    else EarlierCount(val, preds[..|preds| - 1], numParts, k) + (if MapPart(val, preds[|preds| - 1], numParts) < k then 1 else 0)
  }

  /** In edges of partition `k`: edges into a vertex below `n` placed in `k`
      from a vertex placed in an earlier partition. */
  function InEdgeCount(val: Valuation, g: Graph, numParts: nat, n: nat, k: int): nat {
    if n == 0 then 0
    else
      var own := if MapPart(val, n - 1, numParts) == k then EarlierCount(val, Preds(g, n - 1), numParts, k) else 0;
      InEdgeCount(val, g, numParts, n - 1, k) + own
  }

  /** `ins` holds, per partition, the in edges of the vertices below `v`. */
  predicate InCountsUpTo(val: Valuation, g: Graph, numParts: nat, v: nat, ins: seq<nat>) {
    |ins| == numParts && forall p :: 0 <= p < numParts ==> ins[p] == InEdgeCount(val, g, numParts, v, p)
  }

  /** Counting vertex `v` placed in `k` adds its earlier predecessors to the in edges of `k`. */
  lemma InCountsStep(val: Valuation, g: Graph, numParts: nat, v: nat, k: nat, ins: seq<nat>, ins': seq<nat>)
    requires InCountsUpTo(val, g, numParts, v, ins)
    requires k == MapPart(val, v, numParts) && k < numParts
    requires ins' == ins[k := ins[k] + EarlierCount(val, Preds(g, v), numParts, k)]
    ensures InCountsUpTo(val, g, numParts, v + 1, ins')
  {
    forall p | 0 <= p < numParts
      ensures ins'[p] == InEdgeCount(val, g, numParts, v + 1, p)
    {
    }
  }

  // ---------------------------------------------------------------------
  // Out edges and in edges count the same edges

  /** Edges of `es` from an earlier partition to a later one. */
  function Crossing(val: Valuation, es: seq<Edge>, numParts: nat): nat {
    if es == [] then 0
    else
      var e := es[|es| - 1];
      Crossing(val, es[..|es| - 1], numParts) + (if MapPart(val, e.src, numParts) < MapPart(val, e.dst, numParts) then 1 else 0)
  }

  /** For each vertex below `n`, its successors along `es` placed later than itself, added up. */
  function OutTotal(val: Valuation, es: seq<Edge>, numParts: nat, n: nat): nat {
    if n == 0 then 0
    else OutTotal(val, es, numParts, n - 1) + LaterCount(val, SuccsIn(es, n - 1), numParts, MapPart(val, n - 1, numParts))
  }

  /** For each vertex below `n`, its predecessors along `es` placed earlier than itself, added up. */
  function InTotal(val: Valuation, es: seq<Edge>, numParts: nat, n: nat): nat {
    if n == 0 then 0
    else InTotal(val, es, numParts, n - 1) + EarlierCount(val, PredsIn(es, n - 1), numParts, MapPart(val, n - 1, numParts))
  }

  lemma {:induction false} TotalsEmpty(val: Valuation, numParts: nat, n: nat)
    ensures OutTotal(val, [], numParts, n) == 0 && InTotal(val, [], numParts, n) == 0
  {
    if n > 0 {
      TotalsEmpty(val, numParts, n - 1);
    }
  }

  /** The lists along one more edge gain its endpoint at the end. */
  lemma AdjacencySnoc(es: seq<Edge>, e: Edge, v: nat)
    ensures SuccsIn(es + [e], v) == SuccsIn(es, v) + (if e.src == v then [e.dst] else [])
    ensures PredsIn(es + [e], v) == PredsIn(es, v) + (if e.dst == v then [e.src] else [])
  {
    assert (es + [e])[..|es|] == es;
  }

  lemma CountsSnoc(val: Valuation, s: seq<nat>, x: nat, numParts: nat, k: int)
    ensures LaterCount(val, s + [x], numParts, k) == LaterCount(val, s, numParts, k) + (if MapPart(val, x, numParts) > k then 1 else 0)
    ensures EarlierCount(val, s + [x], numParts, k) == EarlierCount(val, s, numParts, k) + (if MapPart(val, x, numParts) < k then 1 else 0)
  {
    assert (s + [x])[..|s|] == s;
  }

  /** One more edge adds one to the later successors of its source when it goes forward. */
  lemma VertexOutSnoc(val: Valuation, es: seq<Edge>, e: Edge, numParts: nat, v: nat)
    ensures var k := MapPart(val, v, numParts);
      LaterCount(val, SuccsIn(es + [e], v), numParts, k) == LaterCount(val, SuccsIn(es, v), numParts, k) +
        (if e.src == v && k < MapPart(val, e.dst, numParts) then 1 else 0)
  {
    AdjacencySnoc(es, e, v);
    if e.src == v {
      CountsSnoc(val, SuccsIn(es, v), e.dst, numParts, MapPart(val, v, numParts));
    } else {
      assert SuccsIn(es + [e], v) == SuccsIn(es, v);
    }
  }

  /** One more edge adds one to the earlier predecessors of its destination when it goes forward. */
  lemma VertexInSnoc(val: Valuation, es: seq<Edge>, e: Edge, numParts: nat, v: nat)
    ensures var k := MapPart(val, v, numParts);
      EarlierCount(val, PredsIn(es + [e], v), numParts, k) == EarlierCount(val, PredsIn(es, v), numParts, k) +
        (if e.dst == v && MapPart(val, e.src, numParts) < k then 1 else 0)
  {
    AdjacencySnoc(es, e, v);
    if e.dst == v {
      CountsSnoc(val, PredsIn(es, v), e.src, numParts, MapPart(val, v, numParts));
    } else {
      assert PredsIn(es + [e], v) == PredsIn(es, v);
    }
  }

  /** One more edge adds one to the out total when it goes forward from a source below `n`. */
  lemma {:induction false} OutTotalSnoc(val: Valuation, es: seq<Edge>, e: Edge, numParts: nat, n: nat)
    ensures OutTotal(val, es + [e], numParts, n) == OutTotal(val, es, numParts, n) +
      (if e.src < n && MapPart(val, e.src, numParts) < MapPart(val, e.dst, numParts) then 1 else 0)
  {
    if n > 0 {
      var v, k := n - 1, MapPart(val, n - 1, numParts);
      OutTotalSnoc(val, es, e, numParts, v);
      VertexOutSnoc(val, es, e, numParts, v);
      assert OutTotal(val, es + [e], numParts, n) == OutTotal(val, es + [e], numParts, v) + LaterCount(val, SuccsIn(es + [e], v), numParts, k);
      assert OutTotal(val, es, numParts, n) == OutTotal(val, es, numParts, v) + LaterCount(val, SuccsIn(es, v), numParts, k);
    }
  }

  /** One more edge adds one to the in total when it goes forward into a destination below `n`. */
  lemma {:induction false} InTotalSnoc(val: Valuation, es: seq<Edge>, e: Edge, numParts: nat, n: nat)
    ensures InTotal(val, es + [e], numParts, n) == InTotal(val, es, numParts, n) +
      (if e.dst < n && MapPart(val, e.src, numParts) < MapPart(val, e.dst, numParts) then 1 else 0)
  {
    if n > 0 {
      var v, k := n - 1, MapPart(val, n - 1, numParts);
      InTotalSnoc(val, es, e, numParts, v);
      VertexInSnoc(val, es, e, numParts, v);
      assert InTotal(val, es + [e], numParts, n) == InTotal(val, es + [e], numParts, v) + EarlierCount(val, PredsIn(es + [e], v), numParts, k);
      assert InTotal(val, es, numParts, n) == InTotal(val, es, numParts, v) + EarlierCount(val, PredsIn(es, v), numParts, k);
    }
  }

  /** When every edge joins vertices below `n`, both totals count exactly the forward edges. */
  lemma {:induction false} TotalsCrossing(val: Valuation, es: seq<Edge>, numParts: nat, n: nat)
    requires forall j :: 0 <= j < |es| ==> es[j].src < n && es[j].dst < n
    ensures OutTotal(val, es, numParts, n) == Crossing(val, es, numParts)
    ensures InTotal(val, es, numParts, n) == Crossing(val, es, numParts)
    decreases |es|
  {
    if es == [] {
      TotalsEmpty(val, numParts, n);
    } else {
      var init, e := es[..|es| - 1], es[|es| - 1];
      assert es == init + [e];
      TotalsCrossing(val, init, numParts, n);
      OutTotalSnoc(val, init, e, numParts, n);
      InTotalSnoc(val, init, e, numParts, n);
    }
  }

  /** A sequence of zeros adds up to zero. */
  lemma {:induction false} SumZero(a: seq<nat>)
    requires forall i :: 0 <= i < |a| ==> a[i] == 0
    ensures Levels.Sum(a) == 0
    decreases |a|
  {
    if a != [] {
      SumZero(a[..|a| - 1]);
    }
  }

  /** Adding `x` to one entry adds `x` to the sum. */
  lemma {:induction false} SumAt(a: seq<nat>, b: seq<nat>, k: nat, x: nat)
    requires |a| == |b| && k < |a|
    requires forall i :: 0 <= i < |a| ==> b[i] == a[i] + (if i == k then x else 0)
    ensures Levels.Sum(b) == Levels.Sum(a) + x
    decreases |a|
  {
    var m := |a| - 1;
    if k == m {
      assert b[..m] == a[..m];
    } else {
      SumAt(a[..m], b[..m], k, x);
    }
  }

  /** The per-partition out edges of the placed vertices below `n` add up to their out total. */
  lemma {:induction false} OutVectorSum(val: Valuation, g: Graph, numParts: nat, n: nat)
    requires forall v :: 0 <= v < n ==> Placed(val, v, numParts)
    ensures Levels.Sum(seq(numParts, p => OutEdgeCount(val, g, numParts, n, p))) == OutTotal(val, g.edges, numParts, n)
  {
    var b := seq(numParts, p => OutEdgeCount(val, g, numParts, n, p));
    if n == 0 {
      SumZero(b);
    } else {
      OutVectorSum(val, g, numParts, n - 1);
      PlacedPart(val, n - 1, numParts);
      var k := MapPart(val, n - 1, numParts);
      var a := seq(numParts, p => OutEdgeCount(val, g, numParts, n - 1, p));
      SumAt(a, b, k, LaterCount(val, Succs(g, n - 1), numParts, k));
    }
  }

  /** The per-partition in edges of the placed vertices below `n` add up to their in total. */
  lemma {:induction false} InVectorSum(val: Valuation, g: Graph, numParts: nat, n: nat)
    requires forall v :: 0 <= v < n ==> Placed(val, v, numParts)
    ensures Levels.Sum(seq(numParts, p => InEdgeCount(val, g, numParts, n, p))) == InTotal(val, g.edges, numParts, n)
  {
    var b := seq(numParts, p => InEdgeCount(val, g, numParts, n, p));
    if n == 0 {
      SumZero(b);
    } else {
      InVectorSum(val, g, numParts, n - 1);
      PlacedPart(val, n - 1, numParts);
      var k := MapPart(val, n - 1, numParts);
      var a := seq(numParts, p => InEdgeCount(val, g, numParts, n - 1, p));
      SumAt(a, b, k, EarlierCount(val, Preds(g, n - 1), numParts, k));
    }
  }

  /** When every vertex is placed, the out edges of all partitions and the
      in edges of all partitions both count the forward edges of the graph,
      with multiplicity. */
  lemma InOutBalance(val: Valuation, g: Graph, numParts: nat, outs: seq<nat>, ins: seq<nat>)
    requires WellFormed(g) && UniquenessOk(val, NumNodes(g), numParts)
    requires |outs| == numParts && forall p :: 0 <= p < numParts ==> outs[p] == OutEdgeCount(val, g, numParts, NumNodes(g), p)
    requires InCountsUpTo(val, g, numParts, NumNodes(g), ins)
    ensures Levels.Sum(outs) == Crossing(val, g.edges, numParts)
    ensures Levels.Sum(ins) == Crossing(val, g.edges, numParts)
  {
    var n := NumNodes(g);
    OutVectorSum(val, g, numParts, n);
    InVectorSum(val, g, numParts, n);
    TotalsCrossing(val, g.edges, numParts, n);
    assert outs == seq(numParts, p => OutEdgeCount(val, g, numParts, n, p));
    assert ins == seq(numParts, p => InEdgeCount(val, g, numParts, n, p));
  }

  // ---------------------------------------------------------------------
  // Transactions

  /** The number of partitions marked: the size of a `partMapd` map. */
  function Marked(marks: seq<bool>): nat {
    if marks == [] then 0 else Marked(marks[..|marks| - 1]) + (if marks[|marks| - 1] then 1 else 0)
  }

  /** Adding one to every marked entry adds the number of marks to the sum. */
  lemma {:induction false} SumMarks(a: seq<nat>, b: seq<nat>, marks: seq<bool>)
    requires |a| == |b| == |marks|
    requires forall i :: 0 <= i < |a| ==> b[i] == a[i] + (if marks[i] then 1 else 0)
    ensures Levels.Sum(b) == Levels.Sum(a) + Marked(marks)
    decreases |a|
  {
    if a != [] {
      var m := |a| - 1;
      SumMarks(a[..m], b[..m], marks[..m]);
    }
  }

  // ---------------------------------------------------------------------
  // The printed report

  /** What the validator prints: per partition the write, out edge, read,
      in edge, load transaction and store transaction counts, and the
      load and store transactions in all. */
  datatype Counts = Counts(writeCount: seq<nat>, outEdges: seq<nat>, readCount: seq<nat>, inEdges: seq<nat>,
                           loadsCount: seq<nat>, storesCount: seq<nat>, loadTrans: nat, storeTrans: nat)

  /** The printed counts of a solution: each per-partition count is the
      validator's definition of it, and each transaction total is the sum of
      the per-partition transactions. */
  ghost predicate Reports(val: Valuation, g: Graph, numParts: nat, loads: Table, stores: Table, c: Counts) {
    && |c.writeCount| == numParts && |c.outEdges| == numParts && |c.readCount| == numParts
    && |c.loadsCount| == numParts && |c.storesCount| == numParts
    && InCountsUpTo(val, g, numParts, NumNodes(g), c.inEdges)
    && (forall p :: 0 <= p < numParts ==>
      && c.writeCount[p] == WriteCount(val, g, numParts, NumNodes(g), p)
      && c.outEdges[p] == OutEdgeCount(val, g, numParts, NumNodes(g), p)
      && c.readCount[p] == ReadCount(val, g, numParts, NumNodes(g), p)
      && c.loadsCount[p] == GroupsIn(val, loads, loads.keys, numParts, p)
      && c.storesCount[p] == GroupsIn(val, stores, stores.keys, numParts, p))
    && c.loadTrans == Levels.Sum(c.loadsCount)
    && c.storeTrans == Levels.Sum(c.storesCount)
  }
}
