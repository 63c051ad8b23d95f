/** The dataflow graph as the partitioner sees it: node ids 0..n-1 with a
    label each, and a sequence of directed edges. Successor and predecessor
    lists are derived from the edge sequence, one entry per edge, in edge
    order. */
module Graphs {

  /** A directed edge with the label the graph file gives it. */
  datatype Edge = Edge(src: nat, dst: nat, text: string)

  /** Node `i` carries `labels[i]`; the node count is `|labels|`. */
  datatype Graph = Graph(labels: seq<string>, edges: seq<Edge>)

  function NumNodes(g: Graph): nat { |g.labels| }

  /** Every edge joins two existing nodes. */
  predicate WellFormed(g: Graph) {
    forall k :: 0 <= k < |g.edges| ==> g.edges[k].src < |g.labels| && g.edges[k].dst < |g.labels|
  }

  /** Destinations of the edges of `es` leaving `u`, in edge order. */
  function SuccsIn(es: seq<Edge>, u: nat): seq<nat>
  {
    if es == [] then []
    else SuccsIn(es[..|es| - 1], u) + (if es[|es| - 1].src == u then [es[|es| - 1].dst] else [])
  }

  /** Sources of the edges of `es` entering `v`, in edge order. */
  function PredsIn(es: seq<Edge>, v: nat): seq<nat>
  {
    if es == [] then []
    else PredsIn(es[..|es| - 1], v) + (if es[|es| - 1].dst == v then [es[|es| - 1].src] else [])
  }

  function Succs(g: Graph, u: nat): seq<nat> { SuccsIn(g.edges, u) }

  function Preds(g: Graph, v: nat): seq<nat> { PredsIn(g.edges, v) }

  /** `v` is a successor of `u` exactly when some edge goes from `u` to `v`. */
  lemma {:induction false} SuccsInIff(es: seq<Edge>, u: nat, v: nat)
    ensures v in SuccsIn(es, u) <==> exists k :: 0 <= k < |es| && es[k].src == u && es[k].dst == v
  {
    if es != [] {
      var init := es[..|es| - 1];
      SuccsInIff(init, u, v);
      if exists k :: 0 <= k < |init| && init[k].src == u && init[k].dst == v {
        var k :| 0 <= k < |init| && init[k].src == u && init[k].dst == v;
        assert es[k] == init[k];
      }
      if exists k :: 0 <= k < |es| && es[k].src == u && es[k].dst == v {
        var k :| 0 <= k < |es| && es[k].src == u && es[k].dst == v;
        if k < |init| {
          assert init[k] == es[k];
        }
      }
    }
  }

  /** `u` is a predecessor of `v` exactly when some edge goes from `u` to `v`. */
  lemma {:induction false} PredsInIff(es: seq<Edge>, u: nat, v: nat)
    ensures u in PredsIn(es, v) <==> exists k :: 0 <= k < |es| && es[k].src == u && es[k].dst == v
  {
    if es != [] {
      var init := es[..|es| - 1];
      PredsInIff(init, u, v);
      if exists k :: 0 <= k < |init| && init[k].src == u && init[k].dst == v {
        var k :| 0 <= k < |init| && init[k].src == u && init[k].dst == v;
        assert es[k] == init[k];
      }
      if exists k :: 0 <= k < |es| && es[k].src == u && es[k].dst == v {
        var k :| 0 <= k < |es| && es[k].src == u && es[k].dst == v;
        if k < |init| {
          assert init[k] == es[k];
        }
      }
    }
  }

  /** `v` occurs among the successors of `u` as often as `u` occurs among
      the predecessors of `v`: once per edge from `u` to `v`. */
  lemma {:induction false} SuccPredCount(es: seq<Edge>, u: nat, v: nat)
    ensures multiset(SuccsIn(es, u))[v] == multiset(PredsIn(es, v))[u]
  {
    if es != [] {
      SuccPredCount(es[..|es| - 1], u, v);
    }
  }

  /** The successor and predecessor lists are converses of each other, with
      multiplicity: a duplicate edge repeats the entry in both. */
  lemma SuccPredConverse(g: Graph, u: nat, v: nat)
    ensures multiset(Succs(g, u))[v] == multiset(Preds(g, v))[u]
    ensures v in Succs(g, u) <==> u in Preds(g, v)
  {
    SuccPredCount(g.edges, u, v);
    assert v in Succs(g, u) <==> multiset(Succs(g, u))[v] > 0;
    assert u in Preds(g, v) <==> multiset(Preds(g, v))[u] > 0;
  }

  /** In a well-formed graph successors are existing nodes. */
  lemma SuccsBounded(g: Graph, u: nat, v: nat)
    requires WellFormed(g)
    requires v in Succs(g, u)
    ensures v < NumNodes(g)
  {
    SuccsInIff(g.edges, u, v);
  }

  /** In a well-formed graph predecessors are existing nodes. */
  lemma PredsBounded(g: Graph, u: nat, v: nat)
    requires WellFormed(g)
    requires u in Preds(g, v)
    ensures u < NumNodes(g)
  {
    PredsInIff(g.edges, u, v);
  }

  /** A walk: a non-empty node sequence whose consecutive nodes are joined by edges. */
  ghost predicate IsWalk(g: Graph, w: seq<nat>) {
    |w| >= 1 && forall t :: 0 <= t < |w| - 1 ==> w[t + 1] in Succs(g, w[t])
  }

  /** No walk of two or more nodes returns to its first node. */
  ghost predicate Acyclic(g: Graph) {
    forall w :: IsWalk(g, w) && |w| >= 2 ==> w[0] != w[|w| - 1]
  }
}
