/** The variable catalogue of the model: the load and store groups read
    from the node labels, the count of vertices with successors, the columns
    registered with the solver and the objective coefficients. */
module Catalogue {
  import opened Wrappers
  import opened Graphs
  import opened Labels
  import opened GroupTable
  import opened Ilp
  import opened Pairs

  /** What the label scan collects. */
  datatype Scan = Scan(loads: Table, stores: Table, numLoads: nat, numStores: nat)

  /** `f` applied to every element of `xs`, in order. */
  function MapAll<A, B>(f: A -> B, xs: seq<A>): (ys: seq<B>)
    ensures |ys| == |xs|
  {
    if xs == [] then [] else MapAll(f, xs[..|xs| - 1]) + [f(xs[|xs| - 1])]
  }

  lemma {:induction false} MapAllIndex<A, B>(f: A -> B, xs: seq<A>, m: nat)
    requires m < |xs|
    ensures MapAll(f, xs)[m] == f(xs[m])
  {
    var n := |xs| - 1;
    if m < n {
      MapAllIndex(f, xs[..n], m);
      assert xs[..n][m] == xs[m];
    }
  }

  /** Extending the input by its next element extends the result by one entry. */
  lemma MapAllSnoc<A, B>(f: A -> B, xs: seq<A>, i: nat)
    requires i < |xs|
    ensures MapAll(f, xs[..i + 1]) == MapAll(f, xs[..i]) + [f(xs[i])]
  {
    assert xs[..i + 1][..i] == xs[..i];
  }

  /** The classification of every label, in node id order. */
  function ClassifyAll(labs: seq<string>): (cs: seq<Option<Role>>)
    ensures |cs| == |labs|
  {
    MapAll(Classify, labs)
  }

  /** Entry `m` of the classification is the classification of label `m`. */
  lemma ClassifyAllIndex(labs: seq<string>, m: nat)
    requires m < |labs|
    ensures ClassifyAll(labs)[m] == Classify(labs[m])
  {
    MapAllIndex(Classify, labs, m);
  }

  /** The label scan over nodes `0 .. |labs|-1` in id order; `None` when a
      marked label has no parsable group id (`stoi` throws and the program
      stops). */
  function ScanLabels(labs: seq<string>): (r: Option<Scan>)
    ensures r.Some? ==> Valid(r.value.loads) && Valid(r.value.stores)
  {
    ScanRoles(ClassifyAll(labs))
  }

  /** The scan over already classified nodes. */
  function ScanRoles(cs: seq<Option<Role>>): (r: Option<Scan>)
    ensures r.Some? ==> Valid(r.value.loads) && Valid(r.value.stores)
  {
    if cs == [] then Some(Scan(Empty, Empty, 0, 0))
    else
      var node := |cs| - 1;
      match ScanRoles(cs[..node])
      case None => None
      case Some(s) =>
        match cs[node]
        case None => None
        case Some(c) => Some(NodeStep(s, c, node))
  }

  /** One more classified node: the scan goes on from where it was. */
  lemma ScanRolesSnoc(cs: seq<Option<Role>>, c: Option<Role>)
    ensures ScanRoles(cs + [c]) ==
      if ScanRoles(cs).None? || c.None? then None else Some(NodeStep(ScanRoles(cs).value, c.value, |cs|))
  {
    assert (cs + [c])[..|cs|] == cs;
  }

  /** One more node extends the scan by its role; a label that fails to
      classify makes the whole scan fail. */
  lemma ScanLabelsStep(labs: seq<string>, i: nat)
    requires i < |labs|
    ensures ScanLabels(labs[..i + 1]) ==
      if ScanLabels(labs[..i]).None? || Classify(labs[i]).None? then None
      else Some(NodeStep(ScanLabels(labs[..i]).value, Classify(labs[i]).value, i))
    ensures Classify(labs[i]).None? ==> ScanLabels(labs).None?
  {
    MapAllSnoc(Classify, labs, i);
    ScanRolesSnoc(ClassifyAll(labs[..i]), Classify(labs[i]));
    ScanFailure(labs);
  }

  /** What the scan does with node `node` of role `c`. */
  function NodeStep(s: Scan, c: Role, node: nat): (r: Scan)
    requires Valid(s.loads) && Valid(s.stores)
    ensures Valid(r.loads) && Valid(r.stores)
  {
    match c
    case LoadMember(gid) => s.(loads := Add(s.loads, gid, node), numLoads := s.numLoads + 1)
    case StoreMember(gid) => s.(stores := Add(s.stores, gid, node), numStores := s.numStores + 1)
    case Unmarked => s
  }

  /** The scan fails exactly when some label fails to classify. */
  lemma ScanFailure(labs: seq<string>)
    ensures ScanLabels(labs).None? <==> exists m :: 0 <= m < |labs| && Classify(labs[m]).None?
  {
    var cs := ClassifyAll(labs);
    ScanRolesFailure(cs);
    if exists m :: 0 <= m < |labs| && Classify(labs[m]).None? {
      var m :| 0 <= m < |labs| && Classify(labs[m]).None?;
      ClassifyAllIndex(labs, m);
    }
    if exists m :: 0 <= m < |cs| && cs[m].None? {
      var m :| 0 <= m < |cs| && cs[m].None?;
      ClassifyAllIndex(labs, m);
    }
  }

  lemma {:induction false} ScanRolesFailure(cs: seq<Option<Role>>)
    ensures ScanRoles(cs).None? <==> exists m :: 0 <= m < |cs| && cs[m].None?
  {
    if cs != [] {
      var node := |cs| - 1;
      var init := cs[..node];
      ScanRolesFailure(init);
      if exists m :: 0 <= m < |init| && init[m].None? {
        var m :| 0 <= m < |init| && init[m].None?;
        assert cs[m] == init[m];
      }
      if exists m :: 0 <= m < |cs| && cs[m].None? {
        var m :| 0 <= m < |cs| && cs[m].None?;
        if m < node {
          assert init[m] == cs[m];
        }
      }
    }
  }

  /** Group `gid` of the load table lists exactly the nodes whose label
      classifies as a load of `gid`; likewise for stores. */
  lemma ScanMembers(labs: seq<string>, gid: int, m: nat)
    requires ScanLabels(labs).Some?
    ensures var s := ScanLabels(labs).value;
      && (m in Get(s.loads, gid) <==> m < |labs| && Classify(labs[m]) == Some(LoadMember(gid)))
      && (m in Get(s.stores, gid) <==> m < |labs| && Classify(labs[m]) == Some(StoreMember(gid)))
  {
    ScanRolesMembers(ClassifyAll(labs), gid, m);
    if m < |labs| {
      ClassifyAllIndex(labs, m);
    }
  }

  lemma {:induction false} ScanRolesMembers(cs: seq<Option<Role>>, gid: int, m: nat)
    requires ScanRoles(cs).Some?
    ensures var s := ScanRoles(cs).value;
      && (m in Get(s.loads, gid) <==> m < |cs| && cs[m] == Some(LoadMember(gid)))
      && (m in Get(s.stores, gid) <==> m < |cs| && cs[m] == Some(StoreMember(gid)))
  {
    if cs != [] {
      var node := |cs| - 1;
      var init := cs[..node];
      ScanRolesMembers(init, gid, m);
      if m < node {
        assert init[m] == cs[m];
      }
    }
  }

  /** Every group lists its members in strictly increasing order, below the node count. */
  lemma ScanMembersSorted(labs: seq<string>, gid: int)
    requires ScanLabels(labs).Some?
    ensures var s := ScanLabels(labs).value;
      && (forall a, b :: 0 <= a < b < |Get(s.loads, gid)| ==> Get(s.loads, gid)[a] < Get(s.loads, gid)[b])
      && (forall a, b :: 0 <= a < b < |Get(s.stores, gid)| ==> Get(s.stores, gid)[a] < Get(s.stores, gid)[b])
      && (forall a :: 0 <= a < |Get(s.loads, gid)| ==> Get(s.loads, gid)[a] < |labs|)
      && (forall a :: 0 <= a < |Get(s.stores, gid)| ==> Get(s.stores, gid)[a] < |labs|)
  {
    ScanRolesSorted(ClassifyAll(labs), gid);
  }

  lemma {:induction false} ScanRolesSorted(cs: seq<Option<Role>>, gid: int)
    requires ScanRoles(cs).Some?
    ensures var s := ScanRoles(cs).value;
      && (forall a, b :: 0 <= a < b < |Get(s.loads, gid)| ==> Get(s.loads, gid)[a] < Get(s.loads, gid)[b])
      && (forall a, b :: 0 <= a < b < |Get(s.stores, gid)| ==> Get(s.stores, gid)[a] < Get(s.stores, gid)[b])
      && (forall a :: 0 <= a < |Get(s.loads, gid)| ==> Get(s.loads, gid)[a] < |cs|)
      && (forall a :: 0 <= a < |Get(s.stores, gid)| ==> Get(s.stores, gid)[a] < |cs|)
  {
    if cs != [] {
      var node := |cs| - 1;
      ScanRolesSorted(cs[..node], gid);
      var s0 := ScanRoles(cs[..node]).value;
      var s := ScanRoles(cs).value;
      if cs[node] == Some(LoadMember(gid)) {
        assert Get(s.loads, gid) == Get(s0.loads, gid) + [node];
      } else {
        assert Get(s.loads, gid) == Get(s0.loads, gid);
      }
      if cs[node] == Some(StoreMember(gid)) {
        assert Get(s.stores, gid) == Get(s0.stores, gid) + [node];
      } else {
        assert Get(s.stores, gid) == Get(s0.stores, gid);
      }
    }
  }

  /** Number of entries of `cs` that are loads (`isLoad`) or stores. */
  function Marked(cs: seq<Option<Role>>, isLoad: bool): nat {
    if cs == [] then 0
    else
      var c := cs[|cs| - 1];
      Marked(cs[..|cs| - 1], isLoad)
        + (if c.Some? && (if isLoad then c.value.LoadMember? else c.value.StoreMember?) then 1 else 0)
  }

  /** The load and store counters count the classified nodes. */
  lemma {:induction false} ScanCounts(cs: seq<Option<Role>>)
    requires ScanRoles(cs).Some?
    ensures ScanRoles(cs).value.numLoads == Marked(cs, true)
    ensures ScanRoles(cs).value.numStores == Marked(cs, false)
  {
    if cs != [] {
      ScanCounts(cs[..|cs| - 1]);
    }
  }

  /** `Vout`: the number of vertices among `0 .. n-1` that have a successor. */
  function VerticesWithSuccs(g: Graph, n: nat): (c: nat)
    ensures c <= n
  {
    if n == 0 then 0 else VerticesWithSuccs(g, n - 1) + (if |Succs(g, n - 1)| > 0 then 1 else 0)
  }

  lemma VerticesWithSuccsStep(g: Graph, i: nat)
    ensures VerticesWithSuccs(g, i + 1) == VerticesWithSuccs(g, i) + (if |Succs(g, i)| > 0 then 1 else 0)
  {
  }

  /** `X(i, 0) .. X(i, m-1)`. */
  function PartVars(i: nat, m: nat): (vs: seq<Var>)
    ensures |vs| == m
  {
    if m == 0 then [] else PartVars(i, m - 1) + [Xij(i, m - 1)]
  }

  /** The assignment columns, vertex by vertex: `X(0, 0 .. P-1), X(1, ...), ...`. */
  function AssignColumns(n: nat, numParts: nat): seq<Var> {
    if n == 0 then [] else AssignColumns(n - 1, numParts) + PartVars(n - 1, numParts)
  }

  /** The assignment loop creates `numVertices * numParts` columns. */
  lemma {:induction false} AssignColumnsSize(n: nat, numParts: nat)
    ensures |AssignColumns(n, numParts)| == n * numParts
  {
    if n > 0 {
      AssignColumnsSize(n - 1, numParts);
      assert (n - 1) * numParts + numParts == n * numParts;
    }
  }

  /** `Xikl(i, k, l), Yikl(i, k, l)` for each pair of `ps`, in order. */
  function PairColumns(i: nat, ps: seq<Pair>): (vs: seq<Var>)
    ensures |vs| == 2 * |ps|
  {
    if ps == [] then []
    else
      var pr := ps[|ps| - 1];
      PairColumns(i, ps[..|ps| - 1]) + [Xikl(i, pr.0, pr.1), Yikl(i, pr.0, pr.1)]
  }

  lemma {:induction false} PairColumnsAppend(i: nat, a: seq<Pair>, b: seq<Pair>)
    ensures PairColumns(i, a + b) == PairColumns(i, a) + PairColumns(i, b)
  {
    if b == [] {
      assert a + b == a;
    } else {
      var init := b[..|b| - 1];
      PairColumnsAppend(i, a, init);
      assert (a + b)[..|a + b| - 1] == a + init;
      assert (a + b)[|a + b| - 1] == b[|b| - 1];
    }
  }

  /** The inter-partition columns of vertices `0 .. n-1`. */
  function InterColumns(n: nat, numParts: nat): (vs: seq<Var>)
    ensures |vs| == 2 * n * |AllPairs(numParts)|
  {
    if n == 0 then [] else InterColumns(n - 1, numParts) + PairColumns(n - 1, AllPairs(numParts))
  }

  /** Every column the solver returns values for (`varPtr`); the group
      variables are not among them. */
  function Columns(n: nat, numParts: nat): seq<Var> {
    AssignColumns(n, numParts) + InterColumns(n, numParts)
  }

  lemma {:induction false} PartVarsMembers(i: nat, m: nat, v: Var)
    ensures v in PartVars(i, m) <==> v.Xij? && v.i == i && v.j < m
  {
    if m > 0 {
      PartVarsMembers(i, m - 1, v);
    }
  }

  lemma {:induction false} AssignColumnsMembers(n: nat, numParts: nat, v: Var)
    ensures v in AssignColumns(n, numParts) <==> v.Xij? && v.i < n && v.j < numParts
  {
    if n > 0 {
      var m := n - 1;
      AssignColumnsMembers(m, numParts, v);
      PartVarsMembers(m, numParts, v);
      assert AssignColumns(n, numParts) == AssignColumns(m, numParts) + PartVars(m, numParts);
    }
  }

  lemma {:induction false} PairColumnsMembers(i: nat, ps: seq<Pair>, v: Var)
    ensures v in PairColumns(i, ps) <==> (v.Xikl? || v.Yikl?) && v.i == i && (v.k, v.l) in ps
  {
    if ps != [] {
      var init := ps[..|ps| - 1];
      PairColumnsMembers(i, init, v);
      assert ps == init + [ps[|ps| - 1]];
    }
  }

  lemma {:induction false} InterColumnsMembers(n: nat, numParts: nat, v: Var)
    ensures v in InterColumns(n, numParts) <==> (v.Xikl? || v.Yikl?) && v.i < n && v.k < v.l < numParts
  {
    if n > 0 {
      var m := n - 1;
      InterColumnsMembers(m, numParts, v);
      PairColumnsMembers(m, AllPairs(numParts), v);
      assert InterColumns(n, numParts) == InterColumns(m, numParts) + PairColumns(m, AllPairs(numParts));
      if v.Xikl? || v.Yikl? {
        AllPairsMembers(numParts, (v.k, v.l));
      }
    }
  }

  /** The columns are the assignment variables and both inter-partition
      variables of every vertex and pair, `V P + V P (P - 1)` of them. */
  lemma ColumnsContents(n: nat, numParts: nat, v: Var)
    ensures v in Columns(n, numParts) <==>
      (v.Xij? && v.i < n && v.j < numParts) || ((v.Xikl? || v.Yikl?) && v.i < n && v.k < v.l < numParts)
    ensures |Columns(n, numParts)| == n * numParts + n * numParts * (numParts - 1)
  {
    AssignColumnsMembers(n, numParts, v);
    InterColumnsMembers(n, numParts, v);
    AssignColumnsSize(n, numParts);
    InterColumnsSize(n, numParts);
  }

  lemma InterColumnsSize(n: nat, numParts: nat)
    ensures |InterColumns(n, numParts)| == n * numParts * (numParts - 1)
  {
    AllPairsSize(numParts);
    var q := |AllPairs(numParts)|;
    calc {
      |InterColumns(n, numParts)|;
      2 * n * q;
      n * (2 * q);
      n * (numParts * (numParts - 1));
      n * numParts * (numParts - 1);
    }
  }

  /** Objective coefficient of a variable, `None` for one never given a
      coefficient: assignments weigh 0, group variables `loadWeight`, and
      every `Xikl` weighs 2 (each one counts both as a write and as a read). */
  function ObjectiveCoef(v: Var, n: nat, numParts: nat, loads: Table, stores: Table, loadWeight: int): Option<int> {
    match v
    case Xij(i, j) => if i < n && j < numParts then Some(0) else None
    case Lpg(gid, p) => if gid in loads.members && p < numParts then Some(loadWeight) else None
    case Lps(gid, p) => if gid in stores.members && p < numParts then Some(loadWeight) else None
    case Xikl(i, k, l) => if i < n && k < l < numParts then Some(2) else None
    case Yikl(_, _, _) => None
  }

  /** The coefficient an objective built by the `setLinearCoef` calls `ts`
      gives `v`: the last call on `v` wins, and `None` when there was none. */
  function CoefOf(ts: seq<Term>, v: Var): Option<int> {
    if ts == [] then None
    else if ts[|ts| - 1].v == v then Some(ts[|ts| - 1].coef)
    else CoefOf(ts[..|ts| - 1], v)
  }

  /** Setting one coefficient `c` for all of `vs` overrides earlier calls on them. */
  lemma {:induction false} CoefOfScaled(ts: seq<Term>, vs: seq<Var>, c: int, v: Var)
    ensures CoefOf(ts + Scaled(vs, c), v) == if v in vs then Some(c) else CoefOf(ts, v)
  {
    if vs == [] {
      assert ts + Scaled(vs, c) == ts;
    } else {
      var init := vs[..|vs| - 1];
      CoefOfScaled(ts, init, c, v);
      ScaledSnoc(init, vs[|vs| - 1], c);
      assert vs == init + [vs[|vs| - 1]];
      var all := ts + Scaled(vs, c);
      assert all[..|all| - 1] == ts + Scaled(init, c);
    }
  }

  /** The group variables of group `gid` in partitions `0 .. m-1` (`lpgMap[gid]` or `lpsMap[gid]`). */
  function GroupVector(gid: int, m: nat, isLoad: bool): (vs: seq<Var>)
    ensures |vs| == m
  {
    if m == 0 then [] else GroupVector(gid, m - 1, isLoad) + [if isLoad then Lpg(gid, m - 1) else Lps(gid, m - 1)]
  }

  /** The group vectors of the keys `ks`, in key order. */
  function GroupVarList(ks: seq<int>, numParts: nat, isLoad: bool): (vs: seq<Var>)
    ensures |vs| == |ks| * numParts
  {
    if ks == [] then [] else GroupVarList(ks[..|ks| - 1], numParts, isLoad) + GroupVector(ks[|ks| - 1], numParts, isLoad)
  }

  lemma {:induction false} GroupVectorMembers(gid: int, m: nat, isLoad: bool, v: Var)
    ensures v in GroupVector(gid, m, isLoad) <==>
      (if isLoad then v.Lpg? else v.Lps?) && v.g == gid && v.p < m
  {
    if m > 0 {
      GroupVectorMembers(gid, m - 1, isLoad, v);
    }
  }

  lemma {:induction false} GroupVarListMembers(ks: seq<int>, numParts: nat, isLoad: bool, v: Var)
    ensures v in GroupVarList(ks, numParts, isLoad) <==>
      (if isLoad then v.Lpg? else v.Lps?) && v.g in ks && v.p < numParts
  {
    if ks != [] {
      var init := ks[..|ks| - 1];
      GroupVarListMembers(init, numParts, isLoad, v);
      GroupVectorMembers(ks[|ks| - 1], numParts, isLoad, v);
      assert ks == init + [ks[|ks| - 1]];
    }
  }

  /** `Xikl(i, k, l)` for each pair `(k, l)` of `ps`, in order. */
  function PairWrites(i: nat, ps: seq<Pair>): (vs: seq<Var>)
    ensures |vs| == |ps|
  {
    if ps == [] then [] else PairWrites(i, ps[..|ps| - 1]) + [Xikl(i, ps[|ps| - 1].0, ps[|ps| - 1].1)]
  }

  /** The objective entries `Xikl(i, k, l)` at coefficient `c` for each pair of `ps`. */
  function PairWriteTerms(i: nat, ps: seq<Pair>, c: int): (ts: seq<Term>)
    ensures |ts| == |ps|
  {
    if ps == [] then [] else PairWriteTerms(i, ps[..|ps| - 1], c) + [Term(Xikl(i, ps[|ps| - 1].0, ps[|ps| - 1].1), c)]
  }

  lemma PairWriteTermsSnoc(i: nat, ps: seq<Pair>, x: Pair, c: int)
    ensures PairWriteTerms(i, ps + [x], c) == PairWriteTerms(i, ps, c) + [Term(Xikl(i, x.0, x.1), c)]
  {
    assert (ps + [x])[..|ps|] == ps;
  }

  lemma {:induction false} PairWriteTermsAppend(i: nat, a: seq<Pair>, b: seq<Pair>, c: int)
    ensures PairWriteTerms(i, a + b, c) == PairWriteTerms(i, a, c) + PairWriteTerms(i, b, c)
  {
    if b == [] {
      assert a + b == a;
    } else {
      var init, x := b[..|b| - 1], b[|b| - 1];
      assert a + b == (a + init) + [x];
      assert b == init + [x];
      PairWriteTermsAppend(i, a, init, c);
      PairWriteTermsSnoc(i, a + init, x, c);
      PairWriteTermsSnoc(i, init, x, c);
    }
  }

  lemma {:induction false} PairWriteTermsScaled(i: nat, ps: seq<Pair>, c: int)
    ensures PairWriteTerms(i, ps, c) == Scaled(PairWrites(i, ps), c)
  {
    if ps != [] {
      var init := ps[..|ps| - 1];
      PairWriteTermsScaled(i, init, c);
      var pr := ps[|ps| - 1];
      ScaledSnoc(PairWrites(i, init), Xikl(i, pr.0, pr.1), c);
    }
  }

  /** The `Xikl` variables of vertices `0 .. n-1`, in the order the objective visits them. */
  function WriteVars(n: nat, numParts: nat): seq<Var> {
    if n == 0 then [] else WriteVars(n - 1, numParts) + PairWrites(n - 1, AllPairs(numParts))
  }

  lemma {:induction false} PairWritesMembers(i: nat, ps: seq<Pair>, v: Var)
    ensures v in PairWrites(i, ps) <==> v.Xikl? && v.i == i && (v.k, v.l) in ps
  {
    if ps != [] {
      var init := ps[..|ps| - 1];
      PairWritesMembers(i, init, v);
      assert ps == init + [ps[|ps| - 1]];
    }
  }

  lemma {:induction false} WriteVarsMembers(n: nat, numParts: nat, v: Var)
    ensures v in WriteVars(n, numParts) <==> v.Xikl? && v.i < n && v.k < v.l < numParts
  {
    if n > 0 {
      var m := n - 1;
      WriteVarsMembers(m, numParts, v);
      PairWritesMembers(m, AllPairs(numParts), v);
      assert WriteVars(n, numParts) == WriteVars(m, numParts) + PairWrites(m, AllPairs(numParts));
      if v.Xikl? {
        AllPairsMembers(numParts, (v.k, v.l));
      }
    }
  }

  /** The objective `addColVars` builds: assignments at 0, then the load and
      the store group vectors at `loadWeight`, then every `Xikl` at 2. */
  function Objective(n: nat, numParts: nat, loads: Table, stores: Table, loadWeight: int): seq<Term> {
    Scaled(AssignColumns(n, numParts), 0)
      + Scaled(GroupVarList(loads.keys, numParts, true), loadWeight)
      + Scaled(GroupVarList(stores.keys, numParts, false), loadWeight)
      + Scaled(WriteVars(n, numParts), 2)
  }

  /** The objective gives exactly the variables with a coefficient their coefficient. */
  lemma ObjectiveMeaning(n: nat, numParts: nat, loads: Table, stores: Table, loadWeight: int, v: Var)
    requires Valid(loads) && Valid(stores)
    ensures CoefOf(Objective(n, numParts, loads, stores, loadWeight), v) == ObjectiveCoef(v, n, numParts, loads, stores, loadWeight)
  {
    var a := Scaled(AssignColumns(n, numParts), 0);
    var b := Scaled(GroupVarList(loads.keys, numParts, true), loadWeight);
    var c := Scaled(GroupVarList(stores.keys, numParts, false), loadWeight);
    CoefOfScaled([], AssignColumns(n, numParts), 0, v);
    assert [] + a == a;
    CoefOfScaled(a, GroupVarList(loads.keys, numParts, true), loadWeight, v);
    CoefOfScaled(a + b, GroupVarList(stores.keys, numParts, false), loadWeight, v);
    CoefOfScaled(a + b + c, WriteVars(n, numParts), 2, v);
    AssignColumnsMembers(n, numParts, v);
    GroupVarListMembers(loads.keys, numParts, true, v);
    GroupVarListMembers(stores.keys, numParts, false, v);
    WriteVarsMembers(n, numParts, v);
  }
}
