/** What the solution validator checks, stated on a 0/1 solution, and the
    proof that every solution of the model passes it. */
module Validation {
  import opened Wrappers
  import opened Graphs
  import opened GroupTable
  import opened Ilp
  import opened Pairs
  import opened Catalogue
  import opened Rows
  import opened Semantics

  /** Some successor of `v` is placed in partition `l`. */
  predicate SuccIn(val: Valuation, g: Graph, numParts: nat, v: nat, l: int) {
    exists t :: 0 <= t < |Succs(g, v)| && MapPart(val, Succs(g, v)[t], numParts) == l
  }

  /** Some successor of `v` is placed in a later partition than `v`. */
  predicate LaterSucc(val: Valuation, g: Graph, numParts: nat, v: nat) {
    exists t :: 0 <= t < |Succs(g, v)| && MapPart(val, Succs(g, v)[t], numParts) > MapPart(val, v, numParts)
  }

  /** Reads of partition `l`: vertices below `n` of an earlier partition with a successor in `l`. */
  function ReadCount(val: Valuation, g: Graph, numParts: nat, n: nat, l: int): nat {
    if n == 0 then 0
    else
      var isRead := MapPart(val, n - 1, numParts) < l && SuccIn(val, g, numParts, n - 1, l);
      ReadCount(val, g, numParts, n - 1, l) + (if isRead then 1 else 0)
  }

  /** Writes of partition `k`: vertices below `n` in `k` with a successor in a later partition. */
  function WriteCount(val: Valuation, g: Graph, numParts: nat, n: nat, k: int): nat {
    if n == 0 then 0
    else
      var isWrite := MapPart(val, n - 1, numParts) == k && LaterSucc(val, g, numParts, n - 1);
      WriteCount(val, g, numParts, n - 1, k) + (if isWrite then 1 else 0)
  }

  /** Some member of the group lies in partition `p`. */
  predicate MemberIn(val: Valuation, members: seq<nat>, numParts: nat, p: int) {
    exists a :: 0 <= a < |members| && MapPart(val, members[a], numParts) == p
  }

  /** Groups among the keys `ks` of `t` with a member in partition `p`:
      the load (or store) transactions issued by `p`. */
  function GroupsIn(val: Valuation, t: Table, ks: seq<int>, numParts: nat, p: int): nat {
    if ks == [] then 0
    else
      var present := MemberIn(val, Get(t, ks[|ks| - 1]), numParts, p);
      GroupsIn(val, t, ks[..|ks| - 1], numParts, p) + (if present then 1 else 0)
  }

  /** The checks of the validator, in the order it makes them. */
  predicate UniquenessOk(val: Valuation, n: nat, numParts: nat) {
    forall i :: 0 <= i < n ==> Placed(val, i, numParts)
  }

  predicate CapacityOk(val: Valuation, n: nat, numParts: nat, rSize: int) {
    forall p :: 0 <= p < numParts ==> Occupancy(val, n, p) <= rSize
  }

  predicate PrecedenceOk(val: Valuation, g: Graph, numParts: nat) {
    forall k :: 0 <= k < |g.edges| ==>
      MapPart(val, g.edges[k].src, numParts) != -1
      && MapPart(val, g.edges[k].src, numParts) <= MapPart(val, g.edges[k].dst, numParts)
  }

  /** A value of `v` crossing from its partition `k` forward to `l` is recorded in `Xikl(v, k, l)`. */
  predicate VertexCrossingOk(val: Valuation, g: Graph, numParts: nat, v: nat) {
    forall t :: 0 <= t < |Succs(g, v)| ==>
      var k := MapPart(val, v, numParts);
      var l := MapPart(val, Succs(g, v)[t], numParts);
      k >= 0 && l > k ==> val(Xikl(v, k, l))
  }

  predicate CrossingOk(val: Valuation, g: Graph, numParts: nat) {
    forall v :: 0 <= v < NumNodes(g) ==> VertexCrossingOk(val, g, numParts, v)
  }

  /** Every member of the group is placed somewhere. */
  predicate GroupPlaced(val: Valuation, members: seq<nat>, numParts: nat) {
    forall a :: 0 <= a < |members| ==> MapPart(val, members[a], numParts) != -1
  }

  predicate GroupsPlacedOk(val: Valuation, t: Table, numParts: nat) {
    forall gid :: gid in t.members ==> GroupPlaced(val, t.members[gid], numParts)
  }

  /** Per partition: writes plus store transactions, and reads plus load
      transactions, stay within the transaction limit. */
  predicate LimitsOk(val: Valuation, g: Graph, numParts: nat, tSize: int, loads: Table, stores: Table) {
    forall p :: 0 <= p < numParts ==>
      && WriteCount(val, g, numParts, NumNodes(g), p) + GroupsIn(val, stores, stores.keys, numParts, p) <= tSize
      && ReadCount(val, g, numParts, NumNodes(g), p) + GroupsIn(val, loads, loads.keys, numParts, p) <= tSize
  }

  /** Every assertion of the validator passes. */
  predicate ValidSolution(val: Valuation, g: Graph, numParts: nat, rSize: int, tSize: int, loads: Table, stores: Table) {
    && UniquenessOk(val, NumNodes(g), numParts)
    && CapacityOk(val, NumNodes(g), numParts, rSize)
    && PrecedenceOk(val, g, numParts)
    && CrossingOk(val, g, numParts)
    && GroupsPlacedOk(val, loads, numParts)
    && GroupsPlacedOk(val, stores, numParts)
    && LimitsOk(val, g, numParts, tSize, loads, stores)
  }

  /** Entries of `succ` placed in a later partition than `k`. */
  function LaterCount(val: Valuation, succ: seq<nat>, numParts: nat, k: int): nat {
    if succ == [] then 0
    else LaterCount(val, succ[..|succ| - 1], numParts, k) + (if MapPart(val, succ[|succ| - 1], numParts) > k then 1 else 0)
  }

  /** Out edges of partition `k`: edges from a vertex below `n` placed in `k`
      to a vertex placed in a later partition. */
  function OutEdgeCount(val: Valuation, g: Graph, numParts: nat, n: nat, k: int): nat {
    if n == 0 then 0
    else
      var own := if MapPart(val, n - 1, numParts) == k then LaterCount(val, Succs(g, n - 1), numParts, k) else 0;
      OutEdgeCount(val, g, numParts, n - 1, k) + own
  }

  lemma {:induction false} LaterCountPositive(val: Valuation, succ: seq<nat>, numParts: nat, k: int, t: nat)
    requires t < |succ| && MapPart(val, succ[t], numParts) > k
    ensures LaterCount(val, succ, numParts, k) >= 1
  {
    if t < |succ| - 1 {
      LaterCountPositive(val, succ[..|succ| - 1], numParts, k, t);
    }
  }

  /** A partition writes no more values than it has out edges: a written
      value leaves along at least one edge. */
  lemma {:induction false} WritesWithinOutEdges(val: Valuation, g: Graph, numParts: nat, n: nat, k: int)
    ensures WriteCount(val, g, numParts, n, k) <= OutEdgeCount(val, g, numParts, n, k)
  {
    if n > 0 {
      WritesWithinOutEdges(val, g, numParts, n - 1, k);
      if MapPart(val, n - 1, numParts) == k && LaterSucc(val, g, numParts, n - 1) {
        var succ := Succs(g, n - 1);
        var t :| 0 <= t < |succ| && MapPart(val, succ[t], numParts) > MapPart(val, n - 1, numParts);
        LaterCountPositive(val, succ, numParts, k, t);
      }
    }
  }

  /** Adding vertex `v` to the counted range adds its own contribution only. */
  lemma CountsStep(val: Valuation, g: Graph, numParts: nat, v: nat, p: int)
    ensures WriteCount(val, g, numParts, v + 1, p)
      == WriteCount(val, g, numParts, v, p) + (if MapPart(val, v, numParts) == p && LaterSucc(val, g, numParts, v) then 1 else 0)
    ensures ReadCount(val, g, numParts, v + 1, p)
      == ReadCount(val, g, numParts, v, p) + (if MapPart(val, v, numParts) < p && SuccIn(val, g, numParts, v, p) then 1 else 0)
    ensures OutEdgeCount(val, g, numParts, v + 1, p)
      == OutEdgeCount(val, g, numParts, v, p) + (if MapPart(val, v, numParts) == p then LaterCount(val, Succs(g, v), numParts, p) else 0)
  {
  }

  /** `w`, `r` and `o` hold, per partition, the write, read and out edge
      counts of the vertices below `v`. */
  predicate CountsUpTo(val: Valuation, g: Graph, numParts: nat, v: nat, w: seq<nat>, r: seq<nat>, o: seq<nat>) {
    && |w| == numParts && |r| == numParts && |o| == numParts
    && forall p :: 0 <= p < numParts ==>
      && w[p] == WriteCount(val, g, numParts, v, p)
      && r[p] == ReadCount(val, g, numParts, v, p)
      && o[p] == OutEdgeCount(val, g, numParts, v, p)
  }

  /** Counting vertex `v` placed in `k`: a write in `k` when some successor
      lies later, a read in every later partition holding a successor, and
      its later successors as out edges of `k`. */
  lemma CountsUpToStep(val: Valuation, g: Graph, numParts: nat, v: nat, k: nat, later: bool, dests: seq<bool>, outs: nat,
                       w: seq<nat>, r: seq<nat>, o: seq<nat>, w': seq<nat>, r': seq<nat>, o': seq<nat>)
    requires CountsUpTo(val, g, numParts, v, w, r, o)
    requires k == MapPart(val, v, numParts) && k < numParts
    requires later <==> LaterSucc(val, g, numParts, v)
    requires |dests| == numParts && forall l :: 0 <= l < numParts ==> (dests[l] <==> k < l && SuccIn(val, g, numParts, v, l))
    requires outs == LaterCount(val, Succs(g, v), numParts, k)
    requires w' == w[k := w[k] + if later then 1 else 0] && o' == o[k := o[k] + outs]
    requires |r'| == numParts && forall l :: 0 <= l < numParts ==> r'[l] == r[l] + if dests[l] then 1 else 0
    ensures CountsUpTo(val, g, numParts, v + 1, w', r', o')
  {
    forall p | 0 <= p < numParts
      ensures w'[p] == WriteCount(val, g, numParts, v + 1, p)
      ensures r'[p] == ReadCount(val, g, numParts, v + 1, p)
      ensures o'[p] == OutEdgeCount(val, g, numParts, v + 1, p)
    {
      CountsStep(val, g, numParts, v, p);
    }
  }

  lemma GroupsInStep(val: Valuation, t: Table, ks: seq<int>, numParts: nat, e: nat, p: int)
    requires e < |ks|
    ensures GroupsIn(val, t, ks[..e + 1], numParts, p)
      == GroupsIn(val, t, ks[..e], numParts, p) + (if MemberIn(val, Get(t, ks[e]), numParts, p) then 1 else 0)
  {
    assert ks[..e + 1][..e] == ks[..e];
  }

  /** All members of every group are vertices of the graph. */
  ghost predicate MembersBelow(t: Table, n: nat) {
    forall gid, a :: gid in t.members && 0 <= a < |t.members[gid]| ==> t.members[gid][a] < n
  }

  /** For placed entries, "some entry has its assignment variable for `l`
      set" is "some entry's partition is `l`". */
  lemma SomeInPart(val: Valuation, s: seq<nat>, numParts: nat, l: nat)
    requires forall t :: 0 <= t < |s| ==> Placed(val, s[t], numParts)
    requires l < numParts
    ensures SomeIn(val, s, l) <==> exists t :: 0 <= t < |s| && MapPart(val, s[t], numParts) == l
  {
    forall t | 0 <= t < |s| {
      PlacedPart(val, s[t], numParts);
    }
  }

  /** An entry whose partition is `l` has its assignment variable for `l` set. */
  lemma SomeInWitness(val: Valuation, s: seq<nat>, numParts: nat, l: nat, t: nat)
    requires t < |s|
    requires MapPart(val, s[t], numParts) == l
    ensures SomeIn(val, s, l)
  {
    FirstPartFromSpec(val, s[t], 0, numParts);
    assert val(Xij(s[t], l));
  }

  /** When `Xikl(i, p, k)` is set exactly for the partitions `p` holding `i`
      and `read` says that `i` has a successor in `k`, the forms
      `Xikl(i, p, k)` for `p < m` add up to 1 exactly when `i` lies below `m`
      and `read` holds. */
  lemma {:induction false} InTermsValue(val: Valuation, i: nat, m: nat, k: nat, numParts: nat, read: bool)
    requires Placed(val, i, numParts)
    requires m <= numParts
    requires forall p :: 0 <= p < m ==> (val(Xikl(i, p, k)) <==> val(Xij(i, p)) && read)
    ensures Eval(InTerms(i, m, k), val) == if MapPart(val, i, numParts) < m && read then 1 else 0
  {
    PlacedPart(val, i, numParts);
    if m > 0 {
      InTermsValue(val, i, m - 1, k, numParts, read);
      assert InTerms(i, m, k)[..m - 1] == InTerms(i, m - 1, k);
    }
  }

  /** The vertex part of the read row of `k` counts the reads of `k`,
      given each vertex's read forms. */
  lemma {:induction false} ReadTermsValue(val: Valuation, g: Graph, numParts: nat, n: nat, k: nat)
    requires forall i :: 0 <= i < n ==>
      (Eval(InTerms(i, k, k), val) == if MapPart(val, i, numParts) < k && SuccIn(val, g, numParts, i, k) then 1 else 0)
    ensures Eval(ReadTerms(n, k), val) == ReadCount(val, g, numParts, n, k)
  {
    if n > 0 {
      ReadTermsValue(val, g, numParts, n - 1, k);
      EvalAppend(ReadTerms(n - 1, k), InTerms(n - 1, k, k), val);
    }
  }

  /** The read forms of one vertex add up to 1 exactly when it is read by `k`. */
  lemma ReadsOfVertex(val: Valuation, g: Graph, numParts: nat, i: nat, k: nat)
    requires WellFormed(g)
    requires i < NumNodes(g) && k < numParts
    requires UniquenessOk(val, NumNodes(g), numParts)
    requires HoldsAll(InterRows(g, NumNodes(g), numParts), val)
    ensures Eval(InTerms(i, k, k), val) ==
      if MapPart(val, i, numParts) < k && SuccIn(val, g, numParts, i, k) then 1 else 0
  {
    InterRowsPrefix(val, g, NumNodes(g), numParts, i);
    var read := SomeIn(val, Succs(g, i), k);
    forall p | 0 <= p < k
      ensures val(Xikl(i, p, k)) <==> val(Xij(i, p)) && read
    {
      VertexInterMeaning(val, g, i, numParts, p, k);
    }
    InTermsValue(val, i, k, k, numParts, read);
    SuccsPlaced(val, g, numParts, i);
    SomeInPart(val, Succs(g, i), numParts, k);
  }

  lemma SuccsPlaced(val: Valuation, g: Graph, numParts: nat, v: nat)
    requires WellFormed(g)
    requires UniquenessOk(val, NumNodes(g), numParts)
    ensures forall t :: 0 <= t < |Succs(g, v)| ==> Placed(val, Succs(g, v)[t], numParts)
  {
    forall t | 0 <= t < |Succs(g, v)|
      ensures Placed(val, Succs(g, v)[t], numParts)
    {
      SuccsBounded(g, v, Succs(g, v)[t]);
    }
  }

  /** The group part of a transaction row counts the groups present in `k`,
      given that each group variable says whether its group is present. */
  lemma {:induction false} GroupTermsValue(val: Valuation, t: Table, ks: seq<int>, numParts: nat, k: nat, isLoad: bool)
    requires forall gid :: gid in ks ==>
      (val(if isLoad then Lpg(gid, k) else Lps(gid, k)) <==> MemberIn(val, Get(t, gid), numParts, k))
    ensures Eval(GroupTerms(ks, k, isLoad), val) == GroupsIn(val, t, ks, numParts, k)
  {
    if ks != [] {
      var init := ks[..|ks| - 1];
      assert forall gid :: gid in init ==> gid in ks;
      GroupTermsValue(val, t, init, numParts, k, isLoad);
    }
  }

  /** Under the model, the group variable of every load group (and of every
      store group whose id no load group uses) says whether the group has a
      member in `k`. */
  lemma GroupVarsMeaning(val: Valuation, g: Graph, numParts: nat, loads: Table, stores: Table, k: nat, isLoad: bool)
    requires Valid(loads) && Valid(stores)
    requires MembersBelow(loads, NumNodes(g)) && MembersBelow(stores, NumNodes(g))
    requires forall gid :: gid in stores.members ==> gid !in loads.members
    requires UniquenessOk(val, NumNodes(g), numParts)
    requires HoldsAll(GroupRows(loads, stores, numParts), val)
    requires k < numParts
    ensures var t := if isLoad then loads else stores;
      forall gid :: gid in t.keys ==>
        (val(if isLoad then Lpg(gid, k) else Lps(gid, k)) <==> MemberIn(val, Get(t, gid), numParts, k))
  {
    var t := if isLoad then loads else stores;
    forall gid | gid in t.keys
      ensures val(if isLoad then Lpg(gid, k) else Lps(gid, k)) <==> MemberIn(val, Get(t, gid), numParts, k)
    {
      GroupRowsMeaning(val, loads, stores, numParts, gid, k);
      var members := Get(t, gid);
      forall a | 0 <= a < |members|
        ensures Placed(val, members[a], numParts)
      {
        assert members[a] < NumNodes(g);
      }
      SomeInPart(val, members, numParts, k);
    }
  }

  /** Write forms have coefficient 1, so they never add up to less than 0. */
  lemma {:induction false} OutTermsNonneg(val: Valuation, i: nat, k: nat, m: nat)
    ensures Eval(OutTerms(i, k, m), val) >= 0
  {
    if m > k + 1 {
      OutTermsNonneg(val, i, k, m - 1);
      var ts := OutTerms(i, k, m);
      assert ts[..|ts| - 1] == OutTerms(i, k, m - 1);
    }
  }

  /** The write forms of vertex `i` from `k` to partitions below `m` add up
      to at least 1 when one of them, for a partition `l` in `(k, m)`, is set. */
  lemma {:induction false} OutTermsHit(val: Valuation, i: nat, k: nat, m: nat, l: nat)
    requires k < l < m
    requires val(Xikl(i, k, l))
    ensures Eval(OutTerms(i, k, m), val) >= 1
  {
    var ts := OutTerms(i, k, m);
    assert ts[..|ts| - 1] == OutTerms(i, k, m - 1);
    if l == m - 1 {
      OutTermsNonneg(val, i, k, m - 1);
    } else {
      OutTermsHit(val, i, k, m - 1, l);
    }
  }

  /** The vertex part of the write row of `k` is at least the number of
      writes of `k`, given each vertex's write forms. */
  lemma {:induction false} WriteTermsValue(val: Valuation, g: Graph, numParts: nat, n: nat, k: nat)
    requires forall i :: 0 <= i < n ==>
      (Eval(OutTerms(i, k, numParts), val) >= if MapPart(val, i, numParts) == k && LaterSucc(val, g, numParts, i) then 1 else 0)
    ensures Eval(WriteTerms(n, k, numParts), val) >= WriteCount(val, g, numParts, n, k)
  {
    if n > 0 {
      WriteTermsValue(val, g, numParts, n - 1, k);
      EvalAppend(WriteTerms(n - 1, k, numParts), OutTerms(n - 1, k, numParts), val);
    }
  }

  /** The write forms of one vertex add up to at least 1 when it is written by `k`. */
  lemma WritesOfVertex(val: Valuation, g: Graph, numParts: nat, i: nat, k: nat)
    requires WellFormed(g)
    requires i < NumNodes(g) && k < numParts
    requires UniquenessOk(val, NumNodes(g), numParts)
    requires HoldsAll(InterRows(g, NumNodes(g), numParts), val)
    ensures Eval(OutTerms(i, k, numParts), val) >=
      if MapPart(val, i, numParts) == k && LaterSucc(val, g, numParts, i) then 1 else 0
  {
    if MapPart(val, i, numParts) == k && LaterSucc(val, g, numParts, i) {
      var succ := Succs(g, i);
      var t :| 0 <= t < |succ| && MapPart(val, succ[t], numParts) > MapPart(val, i, numParts);
      SuccsBounded(g, i, succ[t]);
      PlacedPart(val, succ[t], numParts);
      var l := MapPart(val, succ[t], numParts);
      FirstPartFromSpec(val, i, 0, numParts);
      SomeInWitness(val, succ, numParts, l, t);
      InterRowsPrefix(val, g, NumNodes(g), numParts, i);
      VertexInterMeaning(val, g, i, numParts, k, l);
      OutTermsHit(val, i, k, numParts, l);
    } else {
      OutTermsNonneg(val, i, k, numParts);
    }
  }

  /** The model holds exactly when each of its families holds. */
  lemma ModelRowsSplit(val: Valuation, g: Graph, numParts: nat, rSize: int, tSize: int, loads: Table, stores: Table)
    requires Valid(loads) && Valid(stores)
    ensures var n := NumNodes(g);
      HoldsAll(ModelRows(g, numParts, rSize, tSize, loads, stores), val) <==>
        && HoldsAll(UniqueRows(n, numParts), val)
        && HoldsAll(SizeRows(n, numParts, rSize), val)
        && HoldsAll(PrecRows(g.edges, numParts), val)
        && HoldsAll(InterRows(g, n, numParts), val)
        && HoldsAll(GroupRows(loads, stores, numParts), val)
        && HoldsAll(TransRows(n, numParts, loads, stores, tSize), val)
  {
    var n := NumNodes(g);
    var u := UniqueRows(n, numParts);
    var sz := SizeRows(n, numParts, rSize);
    var pr := PrecRows(g.edges, numParts);
    var it := InterRows(g, n, numParts);
    var gr := GroupRows(loads, stores, numParts);
    var tr := TransRows(n, numParts, loads, stores, tSize);
    HoldsAllAppend(u, sz, val);
    HoldsAllAppend(u + sz, pr, val);
    HoldsAllAppend(u + sz + pr, it, val);
    HoldsAllAppend(u + sz + pr + it, gr, val);
    HoldsAllAppend(u + sz + pr + it + gr, tr, val);
  }

  /** Every edge of a solution goes forward or stays within a partition. */
  lemma PrecedenceFromModel(val: Valuation, g: Graph, numParts: nat)
    requires WellFormed(g)
    requires UniquenessOk(val, NumNodes(g), numParts)
    requires HoldsAll(PrecRows(g.edges, numParts), val)
    ensures PrecedenceOk(val, g, numParts)
  {
    PrecRowsMeaning(val, g.edges, numParts);
    forall k | 0 <= k < |g.edges|
      ensures MapPart(val, g.edges[k].src, numParts) != -1
    {
      PlacedPart(val, g.edges[k].src, numParts);
    }
  }

  /** Every value crossing forward in a solution has its write/read form set. */
  lemma CrossingFromModel(val: Valuation, g: Graph, numParts: nat)
    requires WellFormed(g)
    requires UniquenessOk(val, NumNodes(g), numParts)
    requires HoldsAll(InterRows(g, NumNodes(g), numParts), val)
    ensures CrossingOk(val, g, numParts)
  {
    forall v | 0 <= v < NumNodes(g)
      ensures VertexCrossingOk(val, g, numParts, v)
    {
      forall t | 0 <= t < |Succs(g, v)|
        ensures var k := MapPart(val, v, numParts);
          var l := MapPart(val, Succs(g, v)[t], numParts);
          k >= 0 && l > k ==> val(Xikl(v, k, l))
      {
        var succ := Succs(g, v);
        var k := MapPart(val, v, numParts);
        var l := MapPart(val, succ[t], numParts);
        SuccsBounded(g, v, succ[t]);
        PlacedPart(val, v, numParts);
        PlacedPart(val, succ[t], numParts);
        if l > k {
          InterRowsPrefix(val, g, NumNodes(g), numParts, v);
          VertexInterMeaning(val, g, v, numParts, k, l);
          SomeInWitness(val, succ, numParts, l, t);
        }
      }
    }
  }

  /** Every member of a group of vertices is placed. */
  lemma GroupsPlacedFromModel(val: Valuation, t: Table, n: nat, numParts: nat)
    requires MembersBelow(t, n)
    requires UniquenessOk(val, n, numParts)
    ensures GroupsPlacedOk(val, t, numParts)
  {
    forall gid | gid in t.members
      ensures GroupPlaced(val, t.members[gid], numParts)
    {
      forall a | 0 <= a < |t.members[gid]|
        ensures MapPart(val, t.members[gid][a], numParts) != -1
      {
        PlacedPart(val, t.members[gid][a], numParts);
      }
    }
  }

  /** The read row of `p` bounds the reads plus load transactions of `p`. */
  lemma ReadLimitFromModel(val: Valuation, g: Graph, numParts: nat, tSize: int, loads: Table, stores: Table, p: nat)
    requires WellFormed(g)
    requires Valid(loads) && Valid(stores)
    requires MembersBelow(loads, NumNodes(g)) && MembersBelow(stores, NumNodes(g))
    requires forall gid :: gid in stores.members ==> gid !in loads.members
    requires UniquenessOk(val, NumNodes(g), numParts)
    requires HoldsAll(InterRows(g, NumNodes(g), numParts), val)
    requires HoldsAll(GroupRows(loads, stores, numParts), val)
    requires p < numParts
    requires Holds(ReadRow(NumNodes(g), p, loads, tSize), val)
    ensures ReadCount(val, g, numParts, NumNodes(g), p) + GroupsIn(val, loads, loads.keys, numParts, p) <= tSize
  {
    var n := NumNodes(g);
    EvalAppend(ReadTerms(n, p), GroupTerms(loads.keys, p, true), val);
    forall i | 0 <= i < n
      ensures Eval(InTerms(i, p, p), val) ==
        if MapPart(val, i, numParts) < p && SuccIn(val, g, numParts, i, p) then 1 else 0
    {
      ReadsOfVertex(val, g, numParts, i, p);
    }
    ReadTermsValue(val, g, numParts, n, p);
    GroupVarsMeaning(val, g, numParts, loads, stores, p, true);
    GroupTermsValue(val, loads, loads.keys, numParts, p, true);
  }

  /** The write row of `p` bounds the writes plus store transactions of `p`. */
  lemma WriteLimitFromModel(val: Valuation, g: Graph, numParts: nat, tSize: int, loads: Table, stores: Table, p: nat)
    requires WellFormed(g)
    requires Valid(loads) && Valid(stores)
    requires MembersBelow(loads, NumNodes(g)) && MembersBelow(stores, NumNodes(g))
    requires forall gid :: gid in stores.members ==> gid !in loads.members
    requires UniquenessOk(val, NumNodes(g), numParts)
    requires HoldsAll(InterRows(g, NumNodes(g), numParts), val)
    requires HoldsAll(GroupRows(loads, stores, numParts), val)
    requires p < numParts
    requires Holds(WriteRow(NumNodes(g), p, numParts, stores, tSize), val)
    ensures WriteCount(val, g, numParts, NumNodes(g), p) + GroupsIn(val, stores, stores.keys, numParts, p) <= tSize
  {
    var n := NumNodes(g);
    EvalAppend(WriteTerms(n, p, numParts), GroupTerms(stores.keys, p, false), val);
    forall i | 0 <= i < n
      ensures Eval(OutTerms(i, p, numParts), val) >=
        if MapPart(val, i, numParts) == p && LaterSucc(val, g, numParts, i) then 1 else 0
    {
      WritesOfVertex(val, g, numParts, i, p);
    }
    WriteTermsValue(val, g, numParts, n, p);
    GroupVarsMeaning(val, g, numParts, loads, stores, p, false);
    GroupTermsValue(val, stores, stores.keys, numParts, p, false);
  }

  /** The transaction limits of every partition hold in a solution. */
  lemma LimitsFromModel(val: Valuation, g: Graph, numParts: nat, tSize: int, loads: Table, stores: Table)
    requires WellFormed(g)
    requires Valid(loads) && Valid(stores)
    requires MembersBelow(loads, NumNodes(g)) && MembersBelow(stores, NumNodes(g))
    requires forall gid :: gid in stores.members ==> gid !in loads.members
    requires UniquenessOk(val, NumNodes(g), numParts)
    requires HoldsAll(InterRows(g, NumNodes(g), numParts), val)
    requires HoldsAll(GroupRows(loads, stores, numParts), val)
    requires HoldsAll(TransRows(NumNodes(g), numParts, loads, stores, tSize), val)
    ensures LimitsOk(val, g, numParts, tSize, loads, stores)
  {
    var n := NumNodes(g);
    var rr := ReadRows(n, numParts, loads, tSize);
    var wr := WriteRows(n, numParts, numParts, stores, tSize);
    HoldsAllAppend(rr, wr, val);
    forall p | 0 <= p < numParts
      ensures WriteCount(val, g, numParts, n, p) + GroupsIn(val, stores, stores.keys, numParts, p) <= tSize
      ensures ReadCount(val, g, numParts, n, p) + GroupsIn(val, loads, loads.keys, numParts, p) <= tSize
    {
      ReadRowsIndex(n, numParts, loads, tSize, p);
      WriteRowsIndex(n, numParts, numParts, stores, tSize, p);
      assert Holds(rr[p], val);
      assert Holds(wr[p], val);
      ReadLimitFromModel(val, g, numParts, tSize, loads, stores, p);
      WriteLimitFromModel(val, g, numParts, tSize, loads, stores, p);
    }
  }

  /** Every 0/1 solution of the model passes every check of the validator,
      when the group members are vertices and no store group reuses the id
      of a load group. */
  lemma ModelSolutionsValidate(val: Valuation, g: Graph, numParts: nat, rSize: int, tSize: int, loads: Table, stores: Table)
    requires WellFormed(g)
    requires Valid(loads) && Valid(stores)
    requires MembersBelow(loads, NumNodes(g)) && MembersBelow(stores, NumNodes(g))
    requires forall gid :: gid in stores.members ==> gid !in loads.members
    requires HoldsAll(ModelRows(g, numParts, rSize, tSize, loads, stores), val)
    ensures ValidSolution(val, g, numParts, rSize, tSize, loads, stores)
  {
    var n := NumNodes(g);
    ModelRowsSplit(val, g, numParts, rSize, tSize, loads, stores);
    UniqueRowsMeaning(val, n, numParts);
    SizeRowsMeaning(val, n, numParts, rSize);
    PrecedenceFromModel(val, g, numParts);
    CrossingFromModel(val, g, numParts);
    GroupsPlacedFromModel(val, loads, n, numParts);
    GroupsPlacedFromModel(val, stores, n, numParts);
    LimitsFromModel(val, g, numParts, tSize, loads, stores);
  }
}
