/** Cutting the graph along a solution: the vertices of each partition,
    renumbered from 0 in increasing id order, the edges between them, and a
    scratch-pad node for every value that leaves for a later partition or
    arrives from an earlier one. */
module Extraction {
  import opened Graphs
  import opened Ilp
  import opened Semantics

  /** Labels of the scratch-pad nodes standing for the neighbouring partitions. */
  const PadWrite: string := "sc_pad_write"
  const PadRead: string := "sc_pad_read"

  /** The vertices below `n` whose assignment variable for `p` is 1, in increasing order. */
  function VersPart(val: Valuation, n: nat, p: nat): seq<nat> {
    if n == 0 then [] else VersPart(val, n - 1, p) + (if val(Xij(n - 1, p)) then [n - 1] else [])
  }

  predicate Increasing(vs: seq<nat>) {
    forall i, j :: 0 <= i < j < |vs| ==> vs[i] < vs[j]
  }

  /** The vertices of partition `p` are exactly those whose variable for `p`
      is set, each once, in increasing order. */
  lemma {:induction false} VersPartSpec(val: Valuation, n: nat, p: nat)
    ensures Increasing(VersPart(val, n, p))
    ensures forall x: nat :: x in VersPart(val, n, p) <==> x < n && val(Xij(x, p))
    ensures forall j :: 0 <= j < |VersPart(val, n, p)| ==> VersPart(val, n, p)[j] < n
  {
    if n > 0 {
      VersPartSpec(val, n - 1, p);
      var init := VersPart(val, n - 1, p);
      var vs := VersPart(val, n, p);
      forall x: nat
        ensures x in vs <==> x < n && val(Xij(x, p))
      {
        assert x in vs <==> x in init || (val(Xij(n - 1, p)) && x == n - 1);
      }
      forall j | 0 <= j < |vs|
        ensures vs[j] < n
      {
        assert vs[j] in vs;
      }
      forall i, j | 0 <= i < j < |vs|
        ensures vs[i] < vs[j]
      {
        assert vs[i] in init;
        if j < |init| {
          assert vs[j] == init[j];
        }
      }
    }
  }

  /** When every vertex is placed once, a vertex lies in the vertex list of
      its own partition and of no other: the sub-graphs split the vertices. */
  lemma PartsSplitVertices(val: Valuation, n: nat, numParts: nat, i: nat, p: nat)
    requires forall x :: 0 <= x < n ==> Placed(val, x, numParts)
    requires i < n && p < numParts
    ensures i in VersPart(val, n, p) <==> p == MapPart(val, i, numParts)
  {
    VersPartSpec(val, n, p);
    PlacedPart(val, i, numParts);
  }

  /** Position of the first occurrence of `x` in `vs`, `|vs|` when there is none. */
  function IndexOf(vs: seq<nat>, x: nat): (r: nat)
    ensures r <= |vs|
    ensures r < |vs| <==> x in vs
    ensures r < |vs| ==> vs[r] == x
  {
    if vs == [] then 0
    else if vs[0] == x then 0
    else
      assert x in vs <==> x in vs[1..] by {
        assert vs == [vs[0]] + vs[1..];
      }
      1 + IndexOf(vs[1..], x)
  }

  /** In a list without repetitions the position of an entry is its index. */
  lemma IndexOfIncreasing(vs: seq<nat>, j: nat)
    requires Increasing(vs) && j < |vs|
    ensures IndexOf(vs, vs[j]) == j
  {
  }

  /** The labels of the vertices `vs`, in order: the first nodes of a sub-graph. */
  function PartLabels(g: Graph, vs: seq<nat>): (ls: seq<string>)
  {
    seq(|vs|, j requires 0 <= j < |vs| => if vs[j] < |g.labels| then g.labels[vs[j]] else "")
  }

  /** How an edge of the graph reaches the sub-graph of partition `p`. */
  datatype Role = Inside | WriteOut | ReadIn | Outside

  /** Both ends in `vs`; else the source in `vs` and the destination in a
      later partition; else the destination in `vs` and the source in an
      earlier partition; else the edge is not part of the sub-graph. */
  function RoleOf(val: Valuation, numParts: nat, p: nat, vs: seq<nat>, e: Edge): Role {
    if e.src in vs && e.dst in vs then Inside
    else if e.src in vs && MapPart(val, e.dst, numParts) > p then WriteOut
    else if e.dst in vs && MapPart(val, e.src, numParts) < p then ReadIn
    else Outside
  }

  /** The sub-graph `prev` after visiting the edge `e`. */
  function ClipStep(val: Valuation, numParts: nat, p: nat, vs: seq<nat>, prev: Graph, e: Edge): Graph {
    match RoleOf(val, numParts, p, vs, e)
    case Inside => Graph(prev.labels, prev.edges + [Edge(IndexOf(vs, e.src), IndexOf(vs, e.dst), e.text)])
    case WriteOut => Graph(prev.labels + [PadWrite], prev.edges + [Edge(IndexOf(vs, e.src), |prev.labels|, e.text)])
    case ReadIn => Graph(prev.labels + [PadRead], prev.edges + [Edge(|prev.labels|, IndexOf(vs, e.dst), e.text)])
    case Outside => prev
  }

  /** The sub-graph of partition `p` after the edges `es` have been visited. */
  function ClipEdges(val: Valuation, g: Graph, numParts: nat, p: nat, vs: seq<nat>, es: seq<Edge>): Graph
  {
    if es == [] then Graph(PartLabels(g, vs), [])
    else
      ClipStep(val, numParts, p, vs, ClipEdges(val, g, numParts, p, vs, es[..|es| - 1]), es[|es| - 1])
  }

  /** The sub-graph of partition `p` that the extraction writes out. */
  function ClipGraph(val: Valuation, g: Graph, numParts: nat, p: nat): Graph {
    ClipEdges(val, g, numParts, p, VersPart(val, NumNodes(g), p), g.edges)
  }

  /** The sub-graph starts with the labels of its vertices, every further
      node is a scratch pad, and every edge joins two of its nodes. */
  lemma {:induction false} ClipShape(val: Valuation, g: Graph, numParts: nat, p: nat, vs: seq<nat>, es: seq<Edge>)
    ensures var out := ClipEdges(val, g, numParts, p, vs, es);
      && |out.labels| >= |vs|
      && out.labels[..|vs|] == PartLabels(g, vs)
      && (forall j :: |vs| <= j < |out.labels| ==> out.labels[j] == PadWrite || out.labels[j] == PadRead)
      && WellFormed(out)
  {
    if es != [] {
      ClipShape(val, g, numParts, p, vs, es[..|es| - 1]);
    }
  }

  /** Number of edges of `es` that are part of the sub-graph, and those of them that need a scratch pad. */
  function KeptCount(val: Valuation, numParts: nat, p: nat, vs: seq<nat>, es: seq<Edge>): nat {
    if es == [] then 0
    else KeptCount(val, numParts, p, vs, es[..|es| - 1]) + (if RoleOf(val, numParts, p, vs, es[|es| - 1]).Outside? then 0 else 1)
  }

  function PadCount(val: Valuation, numParts: nat, p: nat, vs: seq<nat>, es: seq<Edge>): nat {
    if es == [] then 0
    else
      var role := RoleOf(val, numParts, p, vs, es[|es| - 1]);
      PadCount(val, numParts, p, vs, es[..|es| - 1]) + (if role.WriteOut? || role.ReadIn? then 1 else 0)
  }

  /** One edge per kept graph edge, one scratch pad per crossing edge. */
  lemma {:induction false} ClipCounts(val: Valuation, g: Graph, numParts: nat, p: nat, vs: seq<nat>, es: seq<Edge>)
    ensures |ClipEdges(val, g, numParts, p, vs, es).edges| == KeptCount(val, numParts, p, vs, es)
    ensures |ClipEdges(val, g, numParts, p, vs, es).labels| == |vs| + PadCount(val, numParts, p, vs, es)
  {
    if es != [] {
      ClipCounts(val, g, numParts, p, vs, es[..|es| - 1]);
    }
  }

  /** Edge `o` of a sub-graph stands for the graph edge `e`: the same label,
      each end either the renumbered end of `e` or a scratch pad for an end
      that lies in a later (destination) or earlier (source) partition. */
  predicate Traces(val: Valuation, numParts: nat, p: nat, vs: seq<nat>, o: Edge, e: Edge) {
    && o.text == e.text
    && (if o.src < |vs| then vs[o.src] == e.src else e.dst in vs && MapPart(val, e.src, numParts) < p)
    && (if o.dst < |vs| then vs[o.dst] == e.dst else e.src in vs && MapPart(val, e.dst, numParts) > p)
  }

  /** Some edge of `es` is the one `o` stands for. */
  predicate TracedBy(val: Valuation, numParts: nat, p: nat, vs: seq<nat>, o: Edge, es: seq<Edge>) {
    exists k :: 0 <= k < |es| && Traces(val, numParts, p, vs, o, es[k])
  }

  lemma {:induction false} ClipSoundAt(val: Valuation, g: Graph, numParts: nat, p: nat, vs: seq<nat>, es: seq<Edge>, j: nat)
    requires j < |ClipEdges(val, g, numParts, p, vs, es).edges|
    ensures TracedBy(val, numParts, p, vs, ClipEdges(val, g, numParts, p, vs, es).edges[j], es)
  {
    var init := es[..|es| - 1];
    var prev := ClipEdges(val, g, numParts, p, vs, init);
    var out := ClipEdges(val, g, numParts, p, vs, es);
    ClipShape(val, g, numParts, p, vs, init);
    if j < |prev.edges| {
      assert out.edges[j] == prev.edges[j];
      ClipSoundAt(val, g, numParts, p, vs, init, j);
      var k :| 0 <= k < |init| && Traces(val, numParts, p, vs, prev.edges[j], init[k]);
      assert es[k] == init[k];
      assert Traces(val, numParts, p, vs, out.edges[j], es[k]);
    } else {
      assert Traces(val, numParts, p, vs, out.edges[j], es[|es| - 1]);
    }
  }

  /** Every edge of a sub-graph stands for an edge of the graph. */
  lemma ClipSound(val: Valuation, g: Graph, numParts: nat, p: nat, vs: seq<nat>, es: seq<Edge>)
    ensures forall j :: 0 <= j < |ClipEdges(val, g, numParts, p, vs, es).edges| ==>
      TracedBy(val, numParts, p, vs, ClipEdges(val, g, numParts, p, vs, es).edges[j], es)
  {
    forall j | 0 <= j < |ClipEdges(val, g, numParts, p, vs, es).edges|
      ensures TracedBy(val, numParts, p, vs, ClipEdges(val, g, numParts, p, vs, es).edges[j], es)
    {
      ClipSoundAt(val, g, numParts, p, vs, es, j);
    }
  }

  /** Edge `o` of the sub-graph with nodes labelled `ls` carries the graph edge `e` of role `role`. */
  predicate Carries(vs: seq<nat>, ls: seq<string>, o: Edge, e: Edge, role: Role) {
    && o.text == e.text
    && match role
      case Inside => o.src == IndexOf(vs, e.src) && o.dst == IndexOf(vs, e.dst)
      case WriteOut => o.src == IndexOf(vs, e.src) && o.dst < |ls| && ls[o.dst] == PadWrite
      case ReadIn => o.src < |ls| && ls[o.src] == PadRead && o.dst == IndexOf(vs, e.dst)
      case Outside => false
  }

  /** Some edge of the sub-graph `out` carries `e`. */
  predicate CarriedBy(vs: seq<nat>, out: Graph, e: Edge, role: Role) {
    exists j :: 0 <= j < |out.edges| && Carries(vs, out.labels, out.edges[j], e, role)
  }

  /** Adding nodes keeps what an edge carries. */
  lemma CarriesGrow(vs: seq<nat>, ls: seq<string>, ls': seq<string>, o: Edge, e: Edge, role: Role)
    requires Carries(vs, ls, o, e, role)
    requires |ls| <= |ls'| && ls'[..|ls|] == ls
    ensures Carries(vs, ls', o, e, role)
  {
    if role.WriteOut? {
      assert ls'[o.dst] == ls[o.dst];
    } else if role.ReadIn? {
      assert ls'[o.src] == ls[o.src];
    }
  }

  lemma {:induction false} ClipCompleteAt(val: Valuation, g: Graph, numParts: nat, p: nat, vs: seq<nat>, es: seq<Edge>, k: nat)
    requires k < |es| && !RoleOf(val, numParts, p, vs, es[k]).Outside?
    ensures CarriedBy(vs, ClipEdges(val, g, numParts, p, vs, es), es[k], RoleOf(val, numParts, p, vs, es[k]))
  {
    var init := es[..|es| - 1];
    var prev := ClipEdges(val, g, numParts, p, vs, init);
    var out := ClipEdges(val, g, numParts, p, vs, es);
    var role := RoleOf(val, numParts, p, vs, es[k]);
    if k < |init| {
      assert es[k] == init[k];
      ClipCompleteAt(val, g, numParts, p, vs, init, k);
      var j :| 0 <= j < |prev.edges| && Carries(vs, prev.labels, prev.edges[j], init[k], role);
      assert out.edges[j] == prev.edges[j];
      assert out.labels[..|prev.labels|] == prev.labels;
      CarriesGrow(vs, prev.labels, out.labels, out.edges[j], es[k], role);
    } else {
      assert Carries(vs, out.labels, out.edges[|out.edges| - 1], es[k], role);
    }
  }

  /** Every graph edge kept by partition `p` has an edge of the sub-graph
      carrying it: between the renumbered ends when both lie in `p`, to or
      from a scratch pad when one end lies in a later or earlier partition. */
  lemma ClipComplete(val: Valuation, g: Graph, numParts: nat, p: nat, vs: seq<nat>, es: seq<Edge>)
    ensures forall k :: 0 <= k < |es| && !RoleOf(val, numParts, p, vs, es[k]).Outside? ==>
      CarriedBy(vs, ClipEdges(val, g, numParts, p, vs, es), es[k], RoleOf(val, numParts, p, vs, es[k]))
  {
    forall k | 0 <= k < |es| && !RoleOf(val, numParts, p, vs, es[k]).Outside?
      ensures CarriedBy(vs, ClipEdges(val, g, numParts, p, vs, es), es[k], RoleOf(val, numParts, p, vs, es[k]))
    {
      ClipCompleteAt(val, g, numParts, p, vs, es, k);
    }
  }
}
