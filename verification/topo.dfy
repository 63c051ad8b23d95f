/** Depth-first topological sort (`topoSortHelper` and `topoSort`). The free
    functions of the analysis utilities and the methods of the `DFGAnaly`
    class carry identical copies of it; both use this one. */
module Topo {
  import opened Graphs

  /** `order` lists every node of `g` exactly once. */
  ghost predicate IsNodeOrder(g: Graph, order: seq<nat>) {
    |order| == NumNodes(g) &&
    (forall i :: 0 <= i < |order| ==> order[i] < NumNodes(g)) &&
    (forall i, j :: 0 <= i < j < |order| ==> order[i] != order[j]) &&
    (forall v: nat :: v < NumNodes(g) ==> v in order)
  }

  /** Along `order`, every edge goes from an earlier to a later position. */
  ghost predicate EdgesForward(g: Graph, order: seq<nat>) {
    forall i, j :: 0 <= i < |order| && 0 <= j < |order| && order[j] in Succs(g, order[i]) ==> i < j
  }

  /** The DFS stack holds distinct nodes, each already visited. */
  ghost predicate Stacked(visited: seq<bool>, st: seq<nat>) {
    (forall i :: 0 <= i < |st| ==> st[i] < |visited| && visited[st[i]]) &&
    (forall i, j :: 0 <= i < j < |st| ==> st[i] != st[j])
  }

  /** Every node that is visited but not yet pushed lies on `path`, the
      chain of visits still under way. */
  ghost predicate OpenOnPath(visited: seq<bool>, st: seq<nat>, path: seq<nat>) {
    forall v :: 0 <= v < |visited| && visited[v] && v !in st ==> v in path
  }

  /** From (`visited`, `st`) to (`visited'`, `st'`) the visited nodes only
      grow, the stack only grows, every node newly pushed was unvisited, and
      no node is left visited and unpushed that was not so before. */
  ghost predicate Grown(visited: seq<bool>, st: seq<nat>, visited': seq<bool>, st': seq<nat>) {
    |visited'| == |visited| && st <= st' &&
    (forall v :: 0 <= v < |visited| && visited[v] ==> visited'[v]) &&
    (forall i :: |st| <= i < |st'| ==> st'[i] < |visited| && !visited[st'[i]]) &&
    (forall v :: 0 <= v < |visited'| && visited'[v] && v !in st' ==> visited[v] && v !in st)
  }

  lemma GrownTrans(a: seq<bool>, sa: seq<nat>, b: seq<bool>, sb: seq<nat>, c: seq<bool>, sc: seq<nat>)
    requires Grown(a, sa, b, sb) && Grown(b, sb, c, sc)
    ensures Grown(a, sa, c, sc)
  {
    forall i | |sa| <= i < |sc|
      ensures sc[i] < |a| && !a[sc[i]]
    {
      if i < |sb| {
        assert sc[i] == sb[i];
      }
    }
  }

  ghost function Unvisited(visited: seq<bool>): set<nat> {
    set v: nat | v < |visited| && !visited[v]
  }

  lemma GrownUnvisited(a: seq<bool>, sa: seq<nat>, b: seq<bool>, sb: seq<nat>)
    requires Grown(a, sa, b, sb)
    ensures Unvisited(b) <= Unvisited(a)
  {
  }

  /** Every successor of a pushed node was pushed before it. */
  ghost predicate Finished(g: Graph, st: seq<nat>) {
    forall i, v :: 0 <= i < |st| && v in Succs(g, st[i]) ==> v in st[..i]
  }

  lemma WalkExtend(g: Graph, w: seq<nat>, v: nat)
    requires IsWalk(g, w) && v in Succs(g, w[|w| - 1])
    ensures IsWalk(g, w + [v])
  {
    var w' := w + [v];
    forall t | 0 <= t < |w'| - 1
      ensures w'[t + 1] in Succs(g, w'[t])
    {
      if t < |w| - 1 {
        assert w'[t] == w[t] && w'[t + 1] == w[t + 1];
      }
    }
  }

  /** A successor of the node being visited that is already visited but not
      yet pushed lies on the current DFS path, which closes a cycle; so in an
      acyclic graph it has been pushed. */
  lemma BackEdgeStacked(g: Graph, path: seq<nat>, node: nat, v: nat, st: seq<nat>)
    requires IsWalk(g, path + [node])
    requires v in Succs(g, node)
    requires v in path + [node] || v in st
    ensures Acyclic(g) ==> v in st
  {
    if v !in st {
      var w := path + [node];
      var j :| 0 <= j < |w| && w[j] == v;
      var loop := w[j..] + [v];
      forall t | 0 <= t < |w[j..]| - 1
        ensures w[j..][t + 1] in Succs(g, w[j..][t])
      {
        assert w[j..][t] == w[j + t] && w[j..][t + 1] == w[j + t + 1];
      }
      WalkExtend(g, w[j..], v);
      assert IsWalk(g, loop) && |loop| >= 2 && loop[0] == loop[|loop| - 1];
    }
  }

  /** Visits `node` and, depth first, every node reachable from it that is
      not yet visited, then pushes `node`. `path` is the chain of nodes whose
      visits enclose this one. */
  method TopoSortHelper(g: Graph, node: nat, visited: array<bool>, st: seq<nat>, ghost path: seq<nat>)
    returns (st': seq<nat>)
    requires WellFormed(g) && visited.Length == NumNodes(g)
    requires node < NumNodes(g) && !visited[node]
    requires Stacked(visited[..], st) && OpenOnPath(visited[..], st, path)
    requires IsWalk(g, path + [node])
    requires Acyclic(g) ==> Finished(g, st)
    modifies visited
    ensures Grown(old(visited[..]), st, visited[..], st') && node in st'
    ensures Stacked(visited[..], st')
    ensures Acyclic(g) ==> Finished(g, st')
    decreases Unvisited(visited[..]), 1
  {
    ghost var entry := visited[..];
    visited[node] := true;
    ghost var marked := visited[..];
    MarkShrinks(entry, node, marked, st);
    var succs := Succs(g, node);
    st' := st;
    for k := 0 to |succs|
      invariant Visiting(g, node, path, marked, st, visited[..], st', succs[..k])
    {
      st' := VisitSucc(g, node, succs[k], visited, st', path, marked, st, succs[..k], entry);
      assert succs[..k + 1] == succs[..k] + [succs[k]];
    }
    assert succs[..|succs|] == succs;
    FinishVisit(g, entry, marked, st, visited[..], st', node, path);
    st' := st' + [node];
  }

  /** Marking `node` visited. */
  lemma MarkShrinks(entry: seq<bool>, node: nat, marked: seq<bool>, st: seq<nat>)
    requires node < |entry| && !entry[node] && marked == entry[node := true]
    ensures Unvisited(marked) < Unvisited(entry)
    ensures Grown(marked, st, marked, st)
  {
    assert node in Unvisited(entry) - Unvisited(marked);
  }

  /** The state of a visit of `node` while it walks its successor list:
      `done` are the successors handled so far. */
  ghost predicate Visiting(g: Graph, node: nat, path: seq<nat>, marked: seq<bool>, st0: seq<nat>,
                           cur: seq<bool>, st: seq<nat>, done: seq<nat>)
  {
    node < |marked| && marked[node] &&
    Grown(marked, st0, cur, st) && node !in st &&
    Stacked(cur, st) && OpenOnPath(cur, st, path + [node]) &&
    (Acyclic(g) ==> Finished(g, st) && forall j :: 0 <= j < |done| ==> done[j] in st)
  }

  /** One successor `v` of `node`: visited unless it already was. */
  method VisitSucc(g: Graph, node: nat, v: nat, visited: array<bool>, st: seq<nat>, ghost path: seq<nat>,
                   ghost marked: seq<bool>, ghost st0: seq<nat>, ghost done: seq<nat>, ghost entry: seq<bool>)
    returns (st': seq<nat>)
    requires WellFormed(g) && visited.Length == NumNodes(g) && v in Succs(g, node)
    requires IsWalk(g, path + [node])
    requires Visiting(g, node, path, marked, st0, visited[..], st, done)
    requires Unvisited(marked) < Unvisited(entry)
    modifies visited
    ensures Visiting(g, node, path, marked, st0, visited[..], st', done + [v])
    decreases Unvisited(entry), 0
  {
    SuccsBounded(g, node, v);
    ghost var before := visited[..];
    GrownUnvisited(marked, st0, before, st);
    if !visited[v] {
      WalkExtend(g, path + [node], v);
      st' := TopoSortHelper(g, v, visited, st, path + [node]);
      GrownTrans(marked, st0, before, st, visited[..], st');
      PrefixKeeps(st, st');
    } else {
      BackEdgeStacked(g, path, node, v, st);
      st' := st;
    }
  }

  /** Pushing `node` at the end of its visit. */
  lemma FinishVisit(g: Graph, entry: seq<bool>, marked: seq<bool>, st: seq<nat>, cur: seq<bool>, st': seq<nat>,
                    node: nat, path: seq<nat>)
    requires node < |entry| && !entry[node] && marked == entry[node := true]
    requires Visiting(g, node, path, marked, st, cur, st', Succs(g, node))
    ensures Grown(entry, st, cur, st' + [node]) && node in st' + [node]
    ensures Stacked(cur, st' + [node])
    ensures Acyclic(g) ==> Finished(g, st' + [node])
  {
    var st2 := st' + [node];
    forall i | |st| <= i < |st2|
      ensures st2[i] < |entry| && !entry[st2[i]]
    {
      if i < |st'| {
        assert st2[i] == st'[i];
      }
    }
    forall v | 0 <= v < |cur| && cur[v] && v !in st2
      ensures entry[v] && v !in st
    {
      assert v != node;
    }
    if Acyclic(g) {
      FinishedPush(g, st', node);
    }
  }

  lemma PrefixKeeps(a: seq<nat>, b: seq<nat>)
    requires a <= b
    ensures forall x :: x in a ==> x in b
  {
    forall x | x in a ensures x in b {
      var i :| 0 <= i < |a| && a[i] == x;
      assert b[i] == x;
    }
  }

  /** Pushing a node whose successors are all on the stack keeps it finished. */
  lemma FinishedPush(g: Graph, st: seq<nat>, node: nat)
    requires Finished(g, st)
    requires forall j :: 0 <= j < |Succs(g, node)| ==> Succs(g, node)[j] in st
    ensures Finished(g, st + [node])
  {
    var st' := st + [node];
    forall i, v | 0 <= i < |st'| && v in Succs(g, st'[i])
      ensures v in st'[..i]
    {
      if i < |st| {
        assert st'[i] == st[i] && st'[..i] == st[..i];
      } else {
        assert st'[..i] == st;
      }
    }
  }

  /** `topoSort`: visits the nodes in id order, then pops the stack, so the
      node pushed last comes first. */
  method TopoSort(g: Graph) returns (order: seq<nat>)
    requires WellFormed(g)
    ensures IsNodeOrder(g, order)
    ensures Acyclic(g) <==> EdgesForward(g, order)
  {
    var n := NumNodes(g);
    var visited := new bool[n](_ => false);
    var st: seq<nat> := [];
    for i := 0 to n
      invariant Stacked(visited[..], st) && OpenOnPath(visited[..], st, [])
      invariant forall v :: 0 <= v < i ==> visited[v]
      invariant Acyclic(g) ==> Finished(g, st)
    {
      if !visited[i] {
        assert IsWalk(g, [] + [i]);
        st := TopoSortHelper(g, i, visited, st, []);
      }
    }
    forall v: nat | v < n
      ensures v in st
    {
      assert visited[v];
    }
    order := [];
    var rest := st;
    while rest != []
      invariant |order| + |rest| == |st| && rest == st[..|rest|]
      invariant forall i :: 0 <= i < |order| ==> order[i] == st[|st| - 1 - i]
    {
      order := order + [rest[|rest| - 1]];
      rest := rest[..|rest| - 1];
    }
    PoppedOrder(g, st, order);
    if EdgesForward(g, order) {
      ForwardOrderAcyclic(g, order);
    }
  }

  /** A node order that keeps every edge forward rules out cycles. */
  lemma ForwardOrderAcyclic(g: Graph, order: seq<nat>)
    requires WellFormed(g) && IsNodeOrder(g, order) && EdgesForward(g, order)
    ensures Acyclic(g)
  {
    forall w | IsWalk(g, w) && |w| >= 2
      ensures w[0] != w[|w| - 1]
    {
      SuccsInIff(g.edges, w[0], w[1]);
      assert w[0] < NumNodes(g) && w[0] in order;
      var p :| 0 <= p < |order| && order[p] == w[0];
      var q := WalkAscends(g, order, w, p);
    }
  }

  /** Along a walk of two or more nodes, the position in a forward order
      strictly increases from the first node to the last. */
  lemma {:induction false} WalkAscends(g: Graph, order: seq<nat>, w: seq<nat>, p: nat) returns (q: nat)
    requires WellFormed(g) && IsNodeOrder(g, order) && EdgesForward(g, order)
    requires IsWalk(g, w) && |w| >= 2
    requires p < |order| && order[p] == w[0]
    ensures q < |order| && order[q] == w[|w| - 1] && p < q
  {
    SuccsBounded(g, w[0], w[1]);
    assert w[1] in order;
    var r :| 0 <= r < |order| && order[r] == w[1];
    if |w| == 2 {
      q := r;
    } else {
      var tail := w[1..];
      assert IsWalk(g, tail) by {
        forall t | 0 <= t < |tail| - 1
          ensures tail[t + 1] in Succs(g, tail[t])
        {
          assert tail[t] == w[t + 1] && tail[t + 1] == w[t + 2];
        }
      }
      q := WalkAscends(g, order, tail, r);
    }
  }

  /** The reverse of a full DFS stack lists every node once, and keeps every
      edge forward when the stack is finished. */
  lemma PoppedOrder(g: Graph, st: seq<nat>, order: seq<nat>)
    requires |order| == |st| && forall i :: 0 <= i < |order| ==> order[i] == st[|st| - 1 - i]
    requires forall i :: 0 <= i < |st| ==> st[i] < NumNodes(g)
    requires forall i, j :: 0 <= i < j < |st| ==> st[i] != st[j]
    requires forall v: nat :: v < NumNodes(g) ==> v in st
    ensures IsNodeOrder(g, order)
    ensures Finished(g, st) ==> EdgesForward(g, order)
  {
    var m := |st|;
    forall i, j | 0 <= i < j < m
      ensures order[i] != order[j]
    {
      assert order[i] == st[m - 1 - i] && order[j] == st[m - 1 - j];
    }
    forall v: nat | v < NumNodes(g)
      ensures v in order
    {
      assert v in st;
      var k :| 0 <= k < m && st[k] == v;
      assert order[m - 1 - k] == v;
    }
    DistinctCovering(st, NumNodes(g));
    if Finished(g, st) {
      forall i, j | 0 <= i < m && 0 <= j < m && order[j] in Succs(g, order[i])
        ensures i < j
      {
        assert order[j] in st[..m - 1 - i];
        var q :| 0 <= q < m - 1 - i && st[q] == order[j];
        assert st[q] == st[m - 1 - j];
      }
    }
  }

  /** A sequence of distinct numbers below `n` that contains each of them has length `n`. */
  lemma DistinctCovering(s: seq<nat>, n: nat)
    requires forall i :: 0 <= i < |s| ==> s[i] < n
    requires forall i, j :: 0 <= i < j < |s| ==> s[i] != s[j]
    requires forall v: nat :: v < n ==> v in s
    ensures |s| == n
  {
    var iota: seq<nat> := seq(n, i requires 0 <= i < n => i);
    assert Elems(s) == Elems(iota) by {
      forall x | x in iota ensures x in s {
        var k :| 0 <= k < n && iota[k] == x;
      }
      forall x | x in s ensures x in iota {
        assert iota[x] == x;
      }
    }
    DistinctCard(s);
    DistinctCard(iota);
  }

  ghost function Elems(s: seq<nat>): set<nat> {
    set x | x in s
  }

  lemma {:induction false} DistinctCard(s: seq<nat>)
    requires forall i, j :: 0 <= i < j < |s| ==> s[i] != s[j]
    ensures |Elems(s)| == |s|
  {
    if s != [] {
      var init, last := s[..|s| - 1], s[|s| - 1];
      DistinctCard(init);
      assert s == init + [last];
      assert last !in init by {
        forall i | 0 <= i < |init| ensures init[i] != last {
          assert init[i] == s[i];
        }
      }
      assert Elems(s) == Elems(init) + {last};
    }
  }
}
