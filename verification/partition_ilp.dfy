/** The partitioner object: it reads the graph once, builds the 0-1 ILP family
    by family into its own state, and afterwards reads a solution back to
    validate it and to cut the graph into one sub-graph per partition. The
    solver's values are passed to the reading methods as a `Valuation`. */
module PartitionIlp {
  import opened Wrappers
  import opened Graphs
  import opened Labels
  import opened GroupTable
  import opened Ilp
  import opened Pairs
  import opened Catalogue
  import opened Rows
  import opened Semantics
  import opened Validation
  import opened Extraction
  import Levels
  import Report

  /** The group tables and the load, store and `Vout` counts are those the
      scan of the labels of `g` yields. */
  predicate ScannedFrom(g: Graph, loads: Table, stores: Table, numLoads: nat, numStores: nat, vout: nat) {
    && ScanLabels(g.labels).Some?
    && var s := ScanLabels(g.labels).value;
    && loads == s.loads && stores == s.stores
    && numLoads == s.numLoads && numStores == s.numStores
    && vout == VerticesWithSuccs(g, NumNodes(g))
  }

  class PartitionILP {
    const graph: Graph
    const rSize: int
    const tSize: int
    const numParts: nat
    const loadWeight: int
    const numVertices: nat := NumNodes(graph)
    const numEdges: nat := |graph.edges|

    var loadGroups: Table
    var storeGroups: Table
    var numLoads: nat
    var numStores: nat
    var vout: nat

    // variable and row counters reported by the diagnostics
    var nXij: nat
    var nLp: nat
    var nInPa: nat
    var nUniqCons: nat
    var nCapCons: nat
    var nPrecCons: nat
    var nIntParCons: nat
    var nLdStCons: nat
    var nTransCons: nat

    /** Columns registered with the solver (`varPtr`), the objective as its
        `setLinearCoef` calls in order, and the rows added so far. */
    var columns: seq<Var>
    var objective: seq<Term>
    var rows: seq<Row>

    /** The group tables are ordered maps. */
    ghost predicate Valid()
      reads this`loadGroups, this`storeGroups
    {
      GroupTable.Valid(loadGroups) && GroupTable.Valid(storeGroups)
    }

    constructor (gp: Graph, rsize: int, tsize: int, nPts: nat, loadWt: int)
      ensures graph == gp && rSize == rsize && tSize == tsize && numParts == nPts && loadWeight == loadWt
      ensures numVertices == NumNodes(gp) && numEdges == |gp.edges|
      ensures loadGroups == Empty && storeGroups == Empty
      ensures numLoads == 0 && numStores == 0 && vout == 0
      ensures columns == [] && objective == [] && rows == []
      ensures Valid()
    {
      graph := gp;
      rSize := rsize;
      tSize := tsize;
      numParts := nPts;
      loadWeight := loadWt;
      loadGroups := Empty;
      storeGroups := Empty;
      numLoads := 0;
      numStores := 0;
      vout := 0;
      nXij := 0;
      nLp := 0;
      nInPa := 0;
      nUniqCons := 0;
      nCapCons := 0;
      nPrecCons := 0;
      nIntParCons := 0;
      nLdStCons := 0;
      nTransCons := 0;
      columns := [];
      objective := [];
      rows := [];
    }

    /** The columns `X(i, 0) .. X(i, P-1)` of one vertex and their objective entries. */
    method VertexAssignVars(i: nat) returns (row: seq<Var>, rowObj: seq<Term>)
      ensures row == PartVars(i, numParts) && rowObj == Scaled(row, 0)
    {
      row, rowObj := [], [];
      var j := 0;
      while j < numParts
        invariant j <= numParts
        invariant row == PartVars(i, j) && rowObj == Scaled(row, 0)
      {
        ScaledSnoc(row, Xij(i, j), 0);
        row := row + [Xij(i, j)];
        rowObj := rowObj + [Term(Xij(i, j), 0)];
        j := j + 1;
      }
    }

    /** The assignment columns `X(i, j)`, vertex by vertex, each with objective coefficient 0. */
    method AssignVars() returns (cols: seq<Var>, obj: seq<Term>, count: nat)
      ensures cols == AssignColumns(numVertices, numParts)
      ensures obj == Scaled(cols, 0)
      ensures count == numVertices * numParts
    {
      cols, obj, count := [], [], 0;
      var i := 0;
      while i < numVertices
        invariant i <= numVertices
        invariant cols == AssignColumns(i, numParts) && obj == Scaled(cols, 0)
        invariant count == |cols|
      {
        var row, rowObj := VertexAssignVars(i);
        ScaledAppend(cols, row, 0);
        cols := cols + row;
        obj := obj + rowObj;
        count := count + numParts;
        i := i + 1;
      }
      AssignColumnsSize(numVertices, numParts);
    }

    /** The label scan over the nodes in id order, and the count of vertices
        with a successor; `None` when a marked label has no parsable group id. */
    method ScanNodes() returns (r: Option<Scan>, withSuccs: nat)
      ensures r == ScanLabels(graph.labels)
      ensures r.Some? ==> withSuccs == VerticesWithSuccs(graph, numVertices)
    {
      var labs := graph.labels;
      var sc := Scan(Empty, Empty, 0, 0);
      withSuccs := 0;
      var i := 0;
      while i < |labs|
        invariant i <= |labs|
        invariant ScanLabels(labs[..i]) == Some(sc)
        invariant withSuccs == VerticesWithSuccs(graph, i)
      {
        var role := Classify(labs[i]);
        ScanLabelsStep(labs, i);
        if role.None? {
          return None, withSuccs;
        }
        // a load member or a store member is appended to its group
        sc := NodeStep(sc, role.value, i);
        VerticesWithSuccsStep(graph, i);
        if |Succs(graph, i)| > 0 {
          withSuccs := withSuccs + 1;
        }
        i := i + 1;
      }
      assert labs[..i] == labs;
      r := Some(sc);
    }

    /** The objective entries of the group vector of `gid`, one per partition. */
    method GroupVectorVars(gid: int, isLoad: bool) returns (vecObj: seq<Term>)
      ensures vecObj == Scaled(GroupVector(gid, numParts, isLoad), loadWeight)
    {
      vecObj := [];
      var p := 0;
      while p < numParts
        invariant p <= numParts
        invariant vecObj == Scaled(GroupVector(gid, p, isLoad), loadWeight)
      {
        var v := if isLoad then Lpg(gid, p) else Lps(gid, p);
        ScaledSnoc(GroupVector(gid, p, isLoad), v, loadWeight);
        vecObj := vecObj + [Term(v, loadWeight)];
        p := p + 1;
      }
    }

    /** The group vectors of the keys of `t`, in key order, each variable
        with objective coefficient `loadWeight`. */
    method GroupVars(t: Table, isLoad: bool) returns (obj: seq<Term>, count: nat)
      ensures obj == Scaled(GroupVarList(t.keys, numParts, isLoad), loadWeight)
      ensures count == |t.keys| * numParts
    {
      obj, count := [], 0;
      var e := 0;
      while e < |t.keys|
        invariant e <= |t.keys|
        invariant obj == Scaled(GroupVarList(t.keys[..e], numParts, isLoad), loadWeight)
        invariant count == |obj|
      {
        var gid := t.keys[e];
        assert t.keys[..e + 1][..e] == t.keys[..e];
        var vecObj := GroupVectorVars(gid, isLoad);
        ScaledAppend(GroupVarList(t.keys[..e], numParts, isLoad), GroupVector(gid, numParts, isLoad), loadWeight);
        obj := obj + vecObj;
        count := count + numParts;
        e := e + 1;
      }
      assert t.keys[..e] == t.keys;
    }

    /** The columns of the pairs `(k, k+1) .. (k, P-1)` of vertex `i`. */
    method RowPairColumns(i: nat, k: nat) returns (row: seq<Var>)
      ensures row == PairColumns(i, RowPairsUpTo(k, numParts))
    {
      row := [];
      var l := k + 1;
      while l < numParts
        invariant k + 1 <= l && (l <= numParts || l == k + 1)
        invariant row == PairColumns(i, RowPairsUpTo(k, l))
      {
        ghost var before := RowPairsUpTo(k, l);
        assert (before + [(k, l)])[..|before|] == before;
        row := row + [Xikl(i, k, l), Yikl(i, k, l)];
        l := l + 1;
      }
    }

    /** The inter-partition columns of vertex `i`: `Xikl`, `Yikl` for each
        pair `k < l`, in loop order. */
    method VertexPairColumns(i: nat) returns (row: seq<Var>)
      ensures row == PairColumns(i, AllPairs(numParts))
    {
      row := [];
      var k := 0;
      while k + 1 < numParts
        invariant k == 0 || k < numParts
        invariant row == PairColumns(i, PairsBelow(k, numParts))
      {
        var part := RowPairColumns(i, k);
        PairColumnsAppend(i, PairsBelow(k, numParts), RowPairsUpTo(k, numParts));
        row := row + part;
        k := k + 1;
      }
      AllPairsBelow(numParts, k);
    }

    /** The inter-partition columns of every vertex. */
    method InterVars() returns (cols: seq<Var>, count: nat)
      ensures cols == InterColumns(numVertices, numParts)
      ensures count == numVertices * numParts * (numParts - 1)
    {
      cols := [];
      var i := 0;
      while i < numVertices
        invariant i <= numVertices
        invariant cols == InterColumns(i, numParts)
      {
        var row := VertexPairColumns(i);
        cols := cols + row;
        i := i + 1;
      }
      InterColumnsSize(numVertices, numParts);
      count := |cols|;
    }

    /** The read pass of the objective: it marks `(i, p, l)` for every vertex
        `i` and every pair `p < l`. */
    method ReadMarks() returns (marked: set<(nat, nat, nat)>)
      ensures forall x :: x in marked <==> x.0 < numVertices && x.1 < x.2 < numParts
    {
      marked := {};
      var i := 0;
      while i < numVertices
        invariant i <= numVertices
        invariant forall x :: x in marked <==> x.0 < i && x.1 < x.2 < numParts
      {
        var l := 1;
        while l < numParts
          invariant 1 <= l <= numParts || (numParts == 0 && l == 1)
          invariant forall x :: x in marked <==> (x.0 < i && x.1 < x.2 < numParts) || (x.0 == i && x.1 < x.2 < l)
        {
          var p := 0;
          while p < l
            invariant p <= l
            invariant forall x :: x in marked <==>
              (x.0 < i && x.1 < x.2 < numParts) || (x.0 == i && x.1 < x.2 < l) || (x.0 == i && x.2 == l && x.1 < p)
          {
            marked := marked + {(i, p, l)};
            p := p + 1;
          }
          l := l + 1;
        }
        i := i + 1;
      }
    }

    /** The write pass over the pairs `(k, k+1) .. (k, P-1)` of vertex `i`. */
    method RowWriteCoefs(i: nat, k: nat, marked: set<(nat, nat, nat)>) returns (rowObj: seq<Term>)
      requires forall l: nat :: k < l < numParts ==> (i, k, l) in marked
      ensures rowObj == PairWriteTerms(i, RowPairsUpTo(k, numParts), 2)
    {
      rowObj := [];
      var p := k + 1;
      while p < numParts
        invariant k + 1 <= p && (p <= numParts || p == k + 1)
        invariant rowObj == PairWriteTerms(i, RowPairsUpTo(k, p), 2)
      {
        var coef := if (i, k, p) in marked then 2 else 1;
        ghost var before := RowPairsUpTo(k, p);
        assert (before + [(k, p)])[..|before|] == before;
        rowObj := rowObj + [Term(Xikl(i, k, p), coef)];
        p := p + 1;
      }
    }

    /** The write pass for vertex `i`: each `Xikl` gets 2 when its pair is
        marked by the read pass and 1 otherwise. */
    method VertexWriteCoefs(i: nat, marked: set<(nat, nat, nat)>) returns (rowObj: seq<Term>)
      requires forall k: nat, l: nat :: k < l < numParts ==> (i, k, l) in marked
      ensures rowObj == PairWriteTerms(i, AllPairs(numParts), 2)
    {
      rowObj := [];
      var k := 0;
      while k + 1 < numParts
        invariant k == 0 || k < numParts
        invariant rowObj == PairWriteTerms(i, PairsBelow(k, numParts), 2)
      {
        var part := RowWriteCoefs(i, k, marked);
        PairWriteTermsAppend(i, PairsBelow(k, numParts), RowPairsUpTo(k, numParts), 2);
        rowObj := rowObj + part;
        k := k + 1;
      }
      AllPairsBelow(numParts, k);
    }

    /** The objective entries of the `Xikl` variables: after the read pass
        every pair is marked, so every `Xikl` ends up at 2. */
    method WriteReadCoefs() returns (obj: seq<Term>)
      ensures obj == Scaled(WriteVars(numVertices, numParts), 2)
    {
      var marked := ReadMarks();
      obj := [];
      ghost var vs: seq<Var> := [];
      var i := 0;
      while i < numVertices
        invariant i <= numVertices
        invariant vs == WriteVars(i, numParts) && obj == Scaled(vs, 2)
      {
        var rowObj := VertexWriteCoefs(i, marked);
        PairWriteTermsScaled(i, AllPairs(numParts), 2);
        ScaledAppend(vs, PairWrites(i, AllPairs(numParts)), 2);
        vs := vs + PairWrites(i, AllPairs(numParts));
        obj := obj + rowObj;
        i := i + 1;
      }
    }

    /** First loop of `addColVars`: the assignment columns and their objective entries. */
    method AddAssignVars()
      modifies this`columns, this`objective, this`nXij
      ensures columns == old(columns) + AssignColumns(numVertices, numParts)
      ensures objective == old(objective) + Scaled(AssignColumns(numVertices, numParts), 0)
      ensures nXij == numVertices * numParts
    {
      var cols, obj, count := AssignVars();
      columns := columns + cols;
      objective := objective + obj;
      nXij := count;
    }

    /** Second loop of `addColVars`: the load and store groups and `Vout`. */
    method ReadGroups() returns (ok: bool)
      modifies this`loadGroups, this`storeGroups, this`numLoads, this`numStores, this`vout
      ensures ok <==> ScanLabels(graph.labels).Some?
      ensures ok ==> ScannedFrom(graph, loadGroups, storeGroups, numLoads, numStores, vout)
      ensures ok ==> Valid()
    {
      var scan, withSuccs := ScanNodes();
      if scan.None? {
        return false;
      }
      loadGroups, storeGroups := scan.value.loads, scan.value.stores;
      numLoads, numStores := scan.value.numLoads, scan.value.numStores;
      vout := withSuccs;
      ok := true;
    }

    /** The group variables of the tables, loads first, into the objective. */
    method AddGroupVars()
      modifies this`objective, this`nLp
      ensures objective == old(objective)
        + Scaled(GroupVarList(loadGroups.keys, numParts, true), loadWeight)
        + Scaled(GroupVarList(storeGroups.keys, numParts, false), loadWeight)
      ensures nLp == |loadGroups.keys| * numParts + |storeGroups.keys| * numParts
    {
      var loadObj, loadCount := GroupVars(loadGroups, true);
      objective := objective + loadObj;
      var storeObj, storeCount := GroupVars(storeGroups, false);
      objective := objective + storeObj;
      nLp := loadCount + storeCount;
    }

    /** Third loop of `addColVars`: the inter-partition columns. */
    method AddInterVars()
      modifies this`columns, this`nInPa
      ensures columns == old(columns) + InterColumns(numVertices, numParts)
      ensures nInPa == numVertices * numParts * (numParts - 1)
    {
      var cols, count := InterVars();
      columns := columns + cols;
      nInPa := count;
    }

    /** Last loops of `addColVars`: the `Xikl` objective entries. */
    method AddWriteReadCoefs()
      modifies this`objective
      ensures objective == old(objective) + Scaled(WriteVars(numVertices, numParts), 2)
    {
      var obj := WriteReadCoefs();
      objective := objective + obj;
    }

    /** The columns and the objective entries that `addColVars` adds after
        reading the groups. */
    method AddGroupAndInterVars()
      modifies this`columns, this`objective, this`nLp, this`nInPa
      ensures columns == old(columns) + InterColumns(numVertices, numParts)
      ensures objective == old(objective)
        + Scaled(GroupVarList(loadGroups.keys, numParts, true), loadWeight)
        + Scaled(GroupVarList(storeGroups.keys, numParts, false), loadWeight)
        + Scaled(WriteVars(numVertices, numParts), 2)
      ensures nLp == |loadGroups.keys| * numParts + |storeGroups.keys| * numParts
      ensures nInPa == numVertices * numParts * (numParts - 1)
    {
      AddGroupVars();
      AddInterVars();
      AddWriteReadCoefs();
    }

    /** `addColVars`: registers the columns, reads the load and store groups
        from the labels, counts the vertices with successors and builds the
        objective. It fails, like `stoi`, on a marked label without a group
        id. */
    method AddColVars() returns (ok: bool)
      requires columns == [] && objective == []
      modifies this`columns, this`objective, this`loadGroups, this`storeGroups, this`numLoads,
        this`numStores, this`vout, this`nXij, this`nLp, this`nInPa
      ensures ok <==> ScanLabels(graph.labels).Some?
      ensures ok ==> ScannedFrom(graph, loadGroups, storeGroups, numLoads, numStores, vout)
      ensures ok ==> columns == Columns(numVertices, numParts)
      ensures ok ==> objective == Objective(numVertices, numParts, loadGroups, storeGroups, loadWeight)
      ensures ok ==> Valid()
    {
      AddAssignVars();
      ghost var assign := AssignColumns(numVertices, numParts);
      assert columns == assign && objective == Scaled(assign, 0);
      ok := ReadGroups();
      if !ok {
        return;
      }
      ghost var lg, sg, nl, ns, vo := loadGroups, storeGroups, numLoads, numStores, vout;
      assert ScannedFrom(graph, lg, sg, nl, ns, vo) && GroupTable.Valid(lg) && GroupTable.Valid(sg);
      ghost var obj := Objective(numVertices, numParts, lg, sg, loadWeight);
      ghost var cols := Columns(numVertices, numParts);
      AddGroupAndInterVars();
      assert columns == cols && objective == obj;
      assert loadGroups == lg && storeGroups == sg && numLoads == nl && numStores == ns && vout == vo;
    }

    /** `X(i, 0) .. X(i, P-1)`, each with coefficient `c`. */
    method PartTerms(i: nat, c: int) returns (ts: seq<Term>)
      ensures ts == Scaled(PartVars(i, numParts), c)
    {
      ts := [];
      var j := 0;
      while j < numParts
        invariant j <= numParts
        invariant ts == Scaled(PartVars(i, j), c)
      {
        ScaledSnoc(PartVars(i, j), Xij(i, j), c);
        ts := ts + [Term(Xij(i, j), c)];
        j := j + 1;
      }
    }

    /** The uniqueness rows, vertex by vertex. */
    method UniqueCons() returns (rs: seq<Row>)
      ensures rs == UniqueRows(numVertices, numParts)
    {
      rs := [];
      var i := 0;
      while i < numVertices
        invariant i <= numVertices
        invariant rs == UniqueRows(i, numParts)
      {
        var ts := PartTerms(i, 1);
        rs := rs + [Row(ts, Some(1), 1)];
        i := i + 1;
      }
    }

    /** `addUniqueCons`: one row `sum_j X(i, j) = 1` per vertex. */
    method AddUniqueCons()
      modifies this`rows, this`nUniqCons
      ensures rows == old(rows) + UniqueRows(numVertices, numParts)
      ensures nUniqCons == numVertices
    {
      var rs := UniqueCons();
      rows := rows + rs;
      nUniqCons := |rs|;
    }

    /** `X(0, p) .. X(V-1, p)`, each with coefficient 1. */
    method VertexTerms(p: nat) returns (ts: seq<Term>)
      ensures ts == Scaled(VertexVars(numVertices, p), 1)
    {
      ts := [];
      var j := 0;
      while j < numVertices
        invariant j <= numVertices
        invariant ts == Scaled(VertexVars(j, p), 1)
      {
        ScaledSnoc(VertexVars(j, p), Xij(j, p), 1);
        ts := ts + [Term(Xij(j, p), 1)];
        j := j + 1;
      }
    }

    /** The capacity rows, partition by partition. */
    method SizeCons() returns (rs: seq<Row>)
      ensures rs == SizeRows(numVertices, numParts, rSize)
    {
      rs := [];
      var p := 0;
      while p < numParts
        invariant p <= numParts
        invariant rs == SizeRows(numVertices, p, rSize)
      {
        var ts := VertexTerms(p);
        rs := rs + [Row(ts, Some(0), rSize)];
        p := p + 1;
      }
    }

    /** `addSizeCons`: one row `0 <= sum_j X(j, p) <= RSize` per partition. */
    method AddSizeCons()
      modifies this`rows, this`nCapCons
      ensures rows == old(rows) + SizeRows(numVertices, numParts, rSize)
      ensures nCapCons == numParts
    {
      var rs := SizeCons();
      rows := rows + rs;
      nCapCons := |rs|;
    }

    /** `X(i, j)` with coefficient `sign * j` for every partition `j`. */
    method WeightedTerms(i: nat, sign: int) returns (ts: seq<Term>)
      ensures ts == Weighted(i, numParts, sign)
    {
      ts := [];
      var j := 0;
      while j < numParts
        invariant j <= numParts
        invariant ts == Weighted(i, j, sign)
      {
        ts := ts + [Term(Xij(i, j), sign * j)];
        j := j + 1;
      }
    }

    /** The precedence rows, edge by edge. */
    method PrecCons() returns (rs: seq<Row>)
      ensures rs == PrecRows(graph.edges, numParts)
    {
      rs := [];
      var e := 0;
      while e < numEdges
        invariant e <= numEdges
        invariant rs == PrecRows(graph.edges[..e], numParts)
      {
        var edge := graph.edges[e];
        var srcTerms := WeightedTerms(edge.src, 1);
        var dstTerms := WeightedTerms(edge.dst, -1);
        assert graph.edges[..e + 1][..e] == graph.edges[..e];
        rs := rs + [Row(srcTerms + dstTerms, None, 0)];
        e := e + 1;
      }
      assert graph.edges[..e] == graph.edges;
    }

    /** `addEdgePrec`: one precedence row per edge, in edge order. */
    method AddEdgePrec()
      modifies this`rows, this`nPrecCons
      ensures rows == old(rows) + PrecRows(graph.edges, numParts)
      ensures nPrecCons == numEdges
    {
      var rs := PrecCons();
      rows := rows + rs;
      nPrecCons := |rs|;
    }

    /** `X(j, l)` for the successors `j` of a vertex, at coefficient -1 and at 1. */
    method SuccTerms(succ: seq<nat>, l: nat) returns (neg: seq<Term>, pos: seq<Term>)
      ensures neg == Scaled(VarsIn(succ, l), -1) && pos == Scaled(VarsIn(succ, l), 1)
    {
      neg, pos := [], [];
      var s := 0;
      while s < |succ|
        invariant s <= |succ|
        invariant neg == Scaled(VarsIn(succ[..s], l), -1) && pos == Scaled(VarsIn(succ[..s], l), 1)
      {
        assert succ[..s + 1][..s] == succ[..s];
        ScaledSnoc(VarsIn(succ[..s], l), Xij(succ[s], l), -1);
        ScaledSnoc(VarsIn(succ[..s], l), Xij(succ[s], l), 1);
        neg := neg + [Term(Xij(succ[s], l), -1)];
        pos := pos + [Term(Xij(succ[s], l), 1)];
        s := s + 1;
      }
      assert succ[..s] == succ;
    }

    /** The two rows of one partition pair `(k, l)` of vertex `i`. */
    method PairRowsAt(kind: PairKind, i: nat, succ: seq<nat>, k: nat, l: nat) returns (two: seq<Row>)
      ensures two == PairRows(kind, i, succ, (k, l))
    {
      match kind {
        case Pin =>
          two := [Row([Term(Xikl(i, k, l), 1)], Some(0), 0), Row([Term(Yikl(i, k, l), 1)], Some(0), 0)];
        case Link =>
          var neg, pos := SuccTerms(succ, l);
          two := [Row(neg + [Term(Yikl(i, k, l), 1)], None, 0), Row(pos + [Term(Yikl(i, k, l), -|succ|)], None, 0)];
        case And =>
          two := [Row([Term(Xij(i, k), 1), Term(Yikl(i, k, l), 1), Term(Xikl(i, k, l), -1)], None, 1),
                  Row([Term(Xij(i, k), -1), Term(Yikl(i, k, l), -1), Term(Xikl(i, k, l), 2)], None, 0)];
      }
    }

    /** The rows of the pairs `(k, k+1) .. (k, P-1)`: the inner loop of one pass. */
    method RowPass(kind: PairKind, i: nat, succ: seq<nat>, k: nat) returns (rs: seq<Row>)
      ensures rs == OverPairs(kind, i, succ, RowPairsUpTo(k, numParts))
    {
      rs := [];
      var l := k + 1;
      while l < numParts
        invariant k + 1 <= l && (l <= numParts || l == k + 1)
        invariant rs == OverPairs(kind, i, succ, RowPairsUpTo(k, l))
      {
        var two := PairRowsAt(kind, i, succ, k, l);
        RowPairsStep(kind, i, succ, k, l);
        rs := rs + two;
        l := l + 1;
      }
    }

    /** One pass of `addInterPartCons` over the pairs `k < l` of vertex `i`. */
    method PairPass(kind: PairKind, i: nat, succ: seq<nat>) returns (rs: seq<Row>)
      ensures rs == OverPairs(kind, i, succ, AllPairs(numParts))
    {
      rs := [];
      var k := 0;
      while k + 1 < numParts
        invariant k == 0 || k < numParts
        invariant rs == OverPairs(kind, i, succ, PairsBelow(k, numParts))
      {
        var row := RowPass(kind, i, succ, k);
        PairsBelowStep(kind, i, succ, k, numParts);
        rs := rs + row;
        k := k + 1;
      }
      AllPairsBelow(numParts, k);
    }

    /** The inter-partition rows of vertex `i`: pinned to 0 without
        successors, the link and the conjunction rows otherwise. */
    method VertexInterCons(i: nat) returns (rs: seq<Row>)
      ensures rs == VertexInterRows(graph, i, numParts)
    {
      var succ := Succs(graph, i);
      if |succ| == 0 {
        rs := PairPass(Pin, i, succ);
      } else {
        var links := PairPass(Link, i, succ);
        var ands := PairPass(And, i, succ);
        rs := links + ands;
      }
    }

    /** The inter-partition rows, vertex by vertex. */
    method InterPartCons() returns (rs: seq<Row>)
      ensures rs == InterRows(graph, numVertices, numParts)
    {
      rs := [];
      var i := 0;
      while i < numVertices
        invariant i <= numVertices
        invariant rs == InterRows(graph, i, numParts)
      {
        var vrs := VertexInterCons(i);
        InterRowsStep(graph, i, numParts);
        rs := rs + vrs;
        i := i + 1;
      }
    }

    /** `addInterPartCons`: the inter-partition rows of every vertex, two
        per pair without successors and four with; `Rows.InterRowsCount` counts them. */
    method AddInterPartCons()
      modifies this`rows, this`nIntParCons
      ensures rows == old(rows) + InterRows(graph, numVertices, numParts)
      ensures nIntParCons == |InterRows(graph, numVertices, numParts)|
    {
      var rs := InterPartCons();
      rows := rows + rs;
      nIntParCons := |rs|;
    }

    /** `sum c X(m, p)` over the members `m` of a group. */
    method MemberTerms(members: seq<nat>, p: nat, c: int) returns (ts: seq<Term>)
      ensures ts == Scaled(VarsIn(members, p), c)
    {
      ts := [];
      var j := 0;
      while j < |members|
        invariant j <= |members|
        invariant ts == Scaled(VarsIn(members[..j], p), c)
      {
        assert members[..j + 1][..j] == members[..j];
        ScaledSnoc(VarsIn(members[..j], p), Xij(members[j], p), c);
        ts := ts + [Term(Xij(members[j], p), c)];
        j := j + 1;
      }
      assert members[..j] == members;
    }

    /** The reuse rows of one group, partition by partition. */
    method GroupReuseRows(gid: int, members: seq<nat>) returns (rs: seq<Row>)
      ensures rs == GroupRowsUpTo(loadGroups, gid, members, numParts)
    {
      rs := [];
      var p := 0;
      while p < numParts
        invariant p <= numParts
        invariant rs == GroupRowsUpTo(loadGroups, gid, members, p)
      {
        var gv := if gid in loadGroups.members then Lpg(gid, p) else Lps(gid, p);
        var neg := MemberTerms(members, p, -1);
        var pos := MemberTerms(members, p, 1);
        rs := rs + [Row(neg + [Term(gv, 1)], None, 0), Row(pos + [Term(gv, -|members|)], None, 0)];
        p := p + 1;
      }
    }

    /** The reuse rows of every group of the merged load and store table. */
    method LoadStoreReuse() returns (rs: seq<Row>)
      requires Valid()
      ensures rs == GroupRows(loadGroups, storeGroups, numParts)
    {
      var all := InsertBoth(loadGroups, storeGroups);
      rs := [];
      var e := 0;
      while e < |all.keys|
        invariant e <= |all.keys|
        invariant rs == GroupRowsOver(loadGroups, all, all.keys[..e], numParts)
      {
        assert all.keys[..e + 1][..e] == all.keys[..e];
        var gid := all.keys[e];
        var grs := GroupReuseRows(gid, Get(all, gid));
        rs := rs + grs;
        e := e + 1;
      }
      assert all.keys[..e] == all.keys;
    }

    /** `addLoadStoreReuse`: two rows per group and partition tie each group
        variable to the members of the group placed in that partition. */
    method AddLoadStoreReuse()
      requires Valid()
      modifies this`rows, this`nLdStCons
      ensures rows == old(rows) + GroupRows(loadGroups, storeGroups, numParts)
      ensures nLdStCons == |GroupRows(loadGroups, storeGroups, numParts)|
    {
      var rs := LoadStoreReuse();
      rows := rows + rs;
      nLdStCons := |rs|;
    }

    /** The inbound terms of vertex `i` into partition `k`. */
    method InTermsFor(i: nat, k: nat) returns (ts: seq<Term>)
      ensures ts == InTerms(i, k, k)
    {
      ts := [];
      var p := 0;
      while p < k
        invariant p <= k
        invariant ts == InTerms(i, p, k)
      {
        ts := ts + [Term(Xikl(i, p, k), 1)];
        p := p + 1;
      }
    }

    /** The outbound terms of vertex `i` from partition `k`. */
    method OutTermsFor(i: nat, k: nat) returns (ts: seq<Term>)
      ensures ts == OutTerms(i, k, numParts)
    {
      ts := [];
      var p := k + 1;
      while p < numParts
        invariant k + 1 <= p && (p <= numParts || p == k + 1)
        invariant ts == OutTerms(i, k, p)
      {
        ts := ts + [Term(Xikl(i, k, p), 1)];
        p := p + 1;
      }
    }

    /** One group variable of partition `k` per key of `t`. */
    method GroupTermsFor(t: Table, k: nat, isLoad: bool) returns (ts: seq<Term>)
      ensures ts == GroupTerms(t.keys, k, isLoad)
    {
      ts := [];
      var e := 0;
      while e < |t.keys|
        invariant e <= |t.keys|
        invariant ts == GroupTerms(t.keys[..e], k, isLoad)
      {
        assert t.keys[..e + 1][..e] == t.keys[..e];
        var gid := t.keys[e];
        ts := ts + [Term(if isLoad then Lpg(gid, k) else Lps(gid, k), 1)];
        e := e + 1;
      }
      assert t.keys[..e] == t.keys;
    }

    /** The read row of partition `k`. */
    method ReadRowAt(k: nat) returns (r: Row)
      ensures r == ReadRow(numVertices, k, loadGroups, tSize)
    {
      var ts := [];
      var i := 0;
      while i < numVertices
        invariant i <= numVertices
        invariant ts == ReadTerms(i, k)
      {
        var ins := InTermsFor(i, k);
        ts := ts + ins;
        i := i + 1;
      }
      var gs := GroupTermsFor(loadGroups, k, true);
      r := Row(ts + gs, Some(0), tSize);
    }

    /** The write row of partition `k`. */
    method WriteRowAt(k: nat) returns (r: Row)
      ensures r == WriteRow(numVertices, k, numParts, storeGroups, tSize)
    {
      var ts := [];
      var i := 0;
      while i < numVertices
        invariant i <= numVertices
        invariant ts == WriteTerms(i, k, numParts)
      {
        var outs := OutTermsFor(i, k);
        ts := ts + outs;
        i := i + 1;
      }
      var gs := GroupTermsFor(storeGroups, k, false);
      r := Row(ts + gs, Some(0), tSize);
    }

    /** The transaction rows: every partition's reads, then every partition's writes. */
    method TransCons() returns (rs: seq<Row>)
      ensures rs == TransRows(numVertices, numParts, loadGroups, storeGroups, tSize)
    {
      var readRows := [];
      var k := 0;
      while k < numParts
        invariant k <= numParts
        invariant readRows == ReadRows(numVertices, k, loadGroups, tSize)
      {
        var r := ReadRowAt(k);
        readRows := readRows + [r];
        k := k + 1;
      }
      var writeRows := [];
      k := 0;
      while k < numParts
        invariant k <= numParts
        invariant writeRows == WriteRows(numVertices, k, numParts, storeGroups, tSize)
      {
        var w := WriteRowAt(k);
        writeRows := writeRows + [w];
        k := k + 1;
      }
      rs := readRows + writeRows;
    }

    /** `addTransCons`: per partition, the values and load groups read and the
        values and store groups written each fit in `TSize` transactions. */
    method AddTransCons()
      modifies this`rows, this`nTransCons
      ensures rows == old(rows) + TransRows(numVertices, numParts, loadGroups, storeGroups, tSize)
      ensures nTransCons == 2 * numParts
    {
      var rs := TransCons();
      rows := rows + rs;
      nTransCons := |rs|;
    }

    /** `getMapPart`: the first partition whose assignment variable for `v`
        is 1, or -1 when there is none. */
    method GetMapPart(val: Valuation, v: nat) returns (p: int)
      ensures p == MapPart(val, v, numParts)
      ensures p == -1 <==> forall q :: 0 <= q < numParts ==> !val(Xij(v, q))
      ensures p != -1 ==> 0 <= p < numParts && val(Xij(v, p)) && forall q :: 0 <= q < p ==> !val(Xij(v, q))
    {
      FirstPartFromSpec(val, v, 0, numParts);
      var q := 0;
      while q < numParts
        invariant q <= numParts
        invariant FirstPartFrom(val, v, q, numParts) == MapPart(val, v, numParts)
      {
        if val(Xij(v, q)) {
          return q;
        }
        q := q + 1;
      }
      return -1;
    }

    /** The number of partitions whose assignment variable for `i` is 1. */
    method PartCount(val: Valuation, i: nat) returns (count: nat)
      ensures count == Count(PartVars(i, numParts), val)
    {
      count := 0;
      var j := 0;
      while j < numParts
        invariant j <= numParts
        invariant count == Count(PartVars(i, j), val)
      {
        if val(Xij(i, j)) {
          count := count + 1;
        }
        j := j + 1;
      }
    }

    /** The uniqueness check: every vertex lies in exactly one partition. */
    method CheckUniqueness(val: Valuation) returns (ok: bool)
      ensures ok <==> UniquenessOk(val, numVertices, numParts)
    {
      var i := 0;
      while i < numVertices
        invariant i <= numVertices
        invariant UniquenessOk(val, i, numParts)
      {
        var count := PartCount(val, i);
        if count != 1 {
          assert !Placed(val, i, numParts);
          return false;
        }
        i := i + 1;
      }
      return true;
    }

    /** The number of vertices whose assignment variable for `p` is 1. */
    method Occupants(val: Valuation, p: nat) returns (count: nat)
      ensures count == Occupancy(val, numVertices, p)
    {
      count := 0;
      var j := 0;
      while j < numVertices
        invariant j <= numVertices
        invariant count == Count(VertexVars(j, p), val)
      {
        if val(Xij(j, p)) {
          count := count + 1;
        }
        j := j + 1;
      }
    }

    /** The size check: no partition holds more than `RSize` vertices. */
    method CheckCapacity(val: Valuation) returns (ok: bool)
      ensures ok <==> CapacityOk(val, numVertices, numParts, rSize)
    {
      var p := 0;
      while p < numParts
        invariant p <= numParts
        invariant CapacityOk(val, numVertices, p, rSize)
      {
        var count := Occupants(val, p);
        if count > rSize {
          return false;
        }
        p := p + 1;
      }
      return true;
    }

    /** The precedence check: the source of every edge is placed, and no
        later than its destination. */
    method CheckPrecedence(val: Valuation) returns (ok: bool)
      ensures ok <==> PrecedenceOk(val, graph, numParts)
    {
      var e := 0;
      while e < numEdges
        invariant e <= numEdges
        invariant forall k :: 0 <= k < e ==>
          MapPart(val, graph.edges[k].src, numParts) != -1
          && MapPart(val, graph.edges[k].src, numParts) <= MapPart(val, graph.edges[k].dst, numParts)
      {
        var srcPart := GetMapPart(val, graph.edges[e].src);
        if srcPart == -1 {
          return false;
        }
        var destPart := GetMapPart(val, graph.edges[e].dst);
        if srcPart > destPart {
          return false;
        }
        e := e + 1;
      }
      return true;
    }

    /** The crossing check of vertex `v` placed in `k`: every successor in a
        later partition `l` has `Xikl(v, k, l)` set. Alongside, whether some
        successor lies later, the later partitions that hold a successor,
        and the number of such successors. */
    method VertexCrossings(val: Valuation, v: nat, k: nat) returns (ok: bool, later: bool, dests: seq<bool>, outs: nat)
      requires k == MapPart(val, v, numParts)
      ensures ok <==> VertexCrossingOk(val, graph, numParts, v)
      ensures |dests| == numParts
      ensures ok ==> (later <==> LaterSucc(val, graph, numParts, v))
      ensures ok ==> forall l :: 0 <= l < numParts ==> (dests[l] <==> k < l && SuccIn(val, graph, numParts, v, l))
      ensures ok ==> outs == LaterCount(val, Succs(graph, v), numParts, k)
    {
      var succ := Succs(graph, v);
      later, dests, outs := false, seq(numParts, _ => false), 0;
      var s := 0;
      while s < |succ|
        invariant s <= |succ|
        invariant forall t :: 0 <= t < s && MapPart(val, succ[t], numParts) > k ==> val(Xikl(v, k, MapPart(val, succ[t], numParts)))
        invariant outs == LaterCount(val, succ[..s], numParts, k)
        invariant later <==> outs > 0
        invariant dests == FedParts(val, succ[..s], numParts, k)
      {
        assert succ[..s + 1][..s] == succ[..s];
        var l := GetMapPart(val, succ[s]);
        if l > k {
          outs := outs + 1;
          later := true;
          dests := dests[l := true];
          if !val(Xikl(v, k, l)) {
            CrossingMissed(val, graph, numParts, v, s);
            return false, later, dests, outs;
          }
        }
        s := s + 1;
      }
      assert succ[..s] == succ;
      FeedsDone(val, graph, numParts, v);
      return true, later, dests, outs;
    }

    /** One step of the crossing pass: vertex `v`'s crossing check and its
        contribution to the per-partition counts. */
    method VertexCounts(val: Valuation, v: nat, w: seq<nat>, r: seq<nat>, o: seq<nat>)
      returns (ok: bool, w': seq<nat>, r': seq<nat>, o': seq<nat>)
      requires v < numVertices && Placed(val, v, numParts)
      requires CountsUpTo(val, graph, numParts, v, w, r, o)
      ensures ok <==> VertexCrossingOk(val, graph, numParts, v)
      ensures |w'| == numParts && |r'| == numParts && |o'| == numParts
      ensures ok ==> CountsUpTo(val, graph, numParts, v + 1, w', r', o')
    {
      PlacedPart(val, v, numParts);
      var k := GetMapPart(val, v);
      var later, dests, outs;
      ok, later, dests, outs := VertexCrossings(val, v, k);
      if !ok {
        return false, w, r, o;
      }
      w' := w[k := w[k] + if later then 1 else 0];
      o' := o[k := o[k] + outs];
      r' := AddMarks(r, dests);
      CountsUpToStep(val, graph, numParts, v, k, later, dests, outs, w, r, o, w', r', o');
    }

    /** The crossing pass of the validator: the crossing check of every
        vertex, and per partition the values written, the values read and
        the out edges. */
    method CheckCrossings(val: Valuation) returns (ok: bool, writeCount: seq<nat>, readCount: seq<nat>, outEdges: seq<nat>)
      requires UniquenessOk(val, numVertices, numParts)
      ensures ok <==> CrossingOk(val, graph, numParts)
      ensures |writeCount| == numParts && |readCount| == numParts && |outEdges| == numParts
      ensures ok ==> forall p :: 0 <= p < numParts ==>
        && writeCount[p] == WriteCount(val, graph, numParts, numVertices, p)
        && readCount[p] == ReadCount(val, graph, numParts, numVertices, p)
        && outEdges[p] == OutEdgeCount(val, graph, numParts, numVertices, p)
        && writeCount[p] <= outEdges[p]
    {
      writeCount, readCount, outEdges := seq(numParts, _ => 0), seq(numParts, _ => 0), seq(numParts, _ => 0);
      var v := 0;
      while v < numVertices
        invariant v <= numVertices
        invariant forall u :: 0 <= u < v ==> VertexCrossingOk(val, graph, numParts, u)
        invariant CountsUpTo(val, graph, numParts, v, writeCount, readCount, outEdges)
      {
        var vOk;
        vOk, writeCount, readCount, outEdges := VertexCounts(val, v, writeCount, readCount, outEdges);
        if !vOk {
          return false, writeCount, readCount, outEdges;
        }
        v := v + 1;
      }
      forall p | 0 <= p < numParts {
        WritesWithinOutEdges(val, graph, numParts, numVertices, p);
      }
      return true, writeCount, readCount, outEdges;
    }

    /** The in edges of vertex `v` placed in `k`: its predecessors placed
        in an earlier partition, counted with multiplicity. */
    method VertexInEdges(val: Valuation, v: nat, k: nat) returns (ins: nat)
      ensures ins == Report.EarlierCount(val, Preds(graph, v), numParts, k)
    {
      var preds := Preds(graph, v);
      ins := 0;
      var s := 0;
      while s < |preds|
        invariant s <= |preds|
        invariant ins == Report.EarlierCount(val, preds[..s], numParts, k)
      {
        assert preds[..s + 1][..s] == preds[..s];
        var l := GetMapPart(val, preds[s]);
        if l < k {
          ins := ins + 1;
        }
        s := s + 1;
      }
      assert preds[..s] == preds;
    }

    /** The in-edge pass of the validator: per partition, the edges that
        enter it from an earlier partition. */
    method CheckInEdges(val: Valuation) returns (inEdges: seq<nat>)
      requires UniquenessOk(val, numVertices, numParts)
      ensures Report.InCountsUpTo(val, graph, numParts, numVertices, inEdges)
    {
      inEdges := seq(numParts, _ => 0);
      var v := 0;
      while v < numVertices
        invariant v <= numVertices
        invariant Report.InCountsUpTo(val, graph, numParts, v, inEdges)
      {
        PlacedPart(val, v, numParts);
        var k := GetMapPart(val, v);
        var ins := VertexInEdges(val, v, k);
        var inEdges' := inEdges[k := inEdges[k] + ins];
        Report.InCountsStep(val, graph, numParts, v, k, inEdges, inEdges');
        inEdges := inEdges';
        v := v + 1;
      }
    }

    /** The partitions holding some member of a group; fails on an unplaced member. */
    method GroupParts(val: Valuation, members: seq<nat>) returns (ok: bool, marks: seq<bool>)
      ensures ok <==> GroupPlaced(val, members, numParts)
      ensures |marks| == numParts
      ensures ok ==> forall p :: 0 <= p < numParts ==> (marks[p] <==> MemberIn(val, members, numParts, p))
    {
      marks := seq(numParts, _ => false);
      var a := 0;
      while a < |members|
        invariant a <= |members| && |marks| == numParts
        invariant forall b :: 0 <= b < a ==> MapPart(val, members[b], numParts) != -1
        invariant forall p :: 0 <= p < numParts ==> (marks[p] <==> exists b :: 0 <= b < a && MapPart(val, members[b], numParts) == p)
      {
        var p := GetMapPart(val, members[a]);
        if p == -1 {
          return false, marks;
        }
        marks := marks[p := true];
        a := a + 1;
      }
      return true, marks;
    }

    /** The transaction count of one kind of group: per partition, the groups
        with a member placed there. Fails on an unplaced member. */
    method CheckGroups(val: Valuation, t: Table) returns (ok: bool, counts: seq<nat>, trans: nat)
      requires GroupTable.Valid(t)
      ensures ok <==> GroupsPlacedOk(val, t, numParts)
      ensures |counts| == numParts
      ensures ok ==> forall p :: 0 <= p < numParts ==> counts[p] == GroupsIn(val, t, t.keys, numParts, p)
      ensures trans == Levels.Sum(counts)
    {
      counts, trans := seq(numParts, _ => 0), 0;
      Report.SumZero(counts);
      var e := 0;
      while e < |t.keys|
        invariant e <= |t.keys| && |counts| == numParts
        invariant trans == Levels.Sum(counts)
        invariant forall j :: 0 <= j < e ==> GroupPlaced(val, Get(t, t.keys[j]), numParts)
        invariant forall p :: 0 <= p < numParts ==> counts[p] == GroupsIn(val, t, t.keys[..e], numParts, p)
      {
        var gOk, marks := GroupParts(val, Get(t, t.keys[e]));
        if !gOk {
          assert t.keys[e] in t.members;
          return false, counts, trans;
        }
        var counts' := AddMarks(counts, marks);
        Report.SumMarks(counts, counts', marks);
        counts, trans := counts', trans + Report.Marked(marks);
        forall p | 0 <= p < numParts {
          GroupsInStep(val, t, t.keys, numParts, e, p);
        }
        e := e + 1;
      }
      assert t.keys[..e] == t.keys;
      forall gid | gid in t.members
        ensures GroupPlaced(val, t.members[gid], numParts)
      {
        var j :| 0 <= j < |t.keys| && t.keys[j] == gid;
        assert GroupPlaced(val, Get(t, t.keys[j]), numParts);
      }
      return true, counts, trans;
    }

    /** `ValidateSoln`: the validator passes every one of its assertions
        exactly when the solution is a valid partitioning, and then reports
        the per-partition counts and the transaction totals. On a
        well-formed graph the out edges and the in edges it reports add up
        to the same number, the forward edges of the graph. */
    method ValidateSoln(val: Valuation) returns (ok: bool, counts: Report.Counts)
      requires Valid()
      ensures ok <==> ValidSolution(val, graph, numParts, rSize, tSize, loadGroups, storeGroups)
      ensures ok ==> Report.Reports(val, graph, numParts, loadGroups, storeGroups, counts)
      ensures ok && WellFormed(graph) ==>
        && Levels.Sum(counts.outEdges) == Report.Crossing(val, graph.edges, numParts)
        && Levels.Sum(counts.inEdges) == Report.Crossing(val, graph.edges, numParts)
    {
      counts := Report.Counts([], [], [], [], [], [], 0, 0);
      ok := CheckUniqueness(val);
      if !ok {
        return;
      }
      ok := CheckCapacity(val);
      if !ok {
        return;
      }
      ok := CheckPrecedence(val);
      if !ok {
        return;
      }
      var writeCount, readCount, outEdges;
      ok, writeCount, readCount, outEdges := CheckCrossings(val);
      if !ok {
        return;
      }
      var inEdges := CheckInEdges(val);
      var loadsCount, storesCount, loadTrans, storeTrans;
      ok, loadsCount, loadTrans := CheckGroups(val, loadGroups);
      if !ok {
        return;
      }
      ok, storesCount, storeTrans := CheckGroups(val, storeGroups);
      if !ok {
        return;
      }
      var p := 0;
      while p < numParts
        invariant p <= numParts
        invariant forall q :: 0 <= q < p ==>
          && WriteCount(val, graph, numParts, numVertices, q) + GroupsIn(val, storeGroups, storeGroups.keys, numParts, q) <= tSize
          && ReadCount(val, graph, numParts, numVertices, q) + GroupsIn(val, loadGroups, loadGroups.keys, numParts, q) <= tSize
      {
        if writeCount[p] + storesCount[p] > tSize || readCount[p] + loadsCount[p] > tSize {
          return false, counts;
        }
        p := p + 1;
      }
      counts := Report.Counts(writeCount, outEdges, readCount, inEdges, loadsCount, storesCount, loadTrans, storeTrans);
      if WellFormed(graph) {
        Report.InOutBalance(val, graph, numParts, outEdges, inEdges);
      }
      return true, counts;
    }

    /** `getVersPart`: the vertices placed in partition `pid`, in increasing order. */
    method GetVersPart(val: Valuation, pid: nat) returns (nds: seq<nat>)
      ensures nds == VersPart(val, numVertices, pid)
      ensures Increasing(nds)
      ensures forall x: nat :: x in nds <==> x < numVertices && val(Xij(x, pid))
    {
      nds := [];
      var i := 0;
      while i < numVertices
        invariant i <= numVertices
        invariant nds == VersPart(val, i, pid)
      {
        if val(Xij(i, pid)) {
          nds := nds + [i];
        }
        i := i + 1;
      }
      VersPartSpec(val, numVertices, pid);
    }

    /** The nodes of the sub-graph for the vertices `vs`: the map from a
        vertex to its new id and the labels of the new nodes. */
    method PartNodes(vs: seq<nat>) returns (nodeMap: map<nat, nat>, labels: seq<string>)
      requires Increasing(vs) && forall j :: 0 <= j < |vs| ==> vs[j] < |graph.labels|
      ensures labels == PartLabels(graph, vs)
      ensures forall x :: x in nodeMap <==> x in vs
      ensures forall x :: x in nodeMap ==> nodeMap[x] == IndexOf(vs, x)
    {
      nodeMap, labels := map[], [];
      var norm := 0;
      while norm < |vs|
        invariant norm <= |vs|
        invariant labels == PartLabels(graph, vs[..norm])
        invariant forall x :: x in nodeMap <==> x in vs[..norm]
        invariant forall x :: x in nodeMap ==> nodeMap[x] == IndexOf(vs, x)
      {
        IndexOfIncreasing(vs, norm);
        assert vs[..norm + 1] == vs[..norm] + [vs[norm]];
        nodeMap := nodeMap[vs[norm] := norm];
        labels := labels + [graph.labels[vs[norm]]];
        norm := norm + 1;
      }
      assert vs[..norm] == vs;
    }

    /** One edge of the graph visited by the extraction of partition `p`. */
    method PartEdge(val: Valuation, p: nat, vs: seq<nat>, nodeMap: map<nat, nat>, labels: seq<string>, edges: seq<Edge>, ed: Edge)
      returns (labels': seq<string>, edges': seq<Edge>)
      requires forall x :: x in nodeMap <==> x in vs
      requires forall x :: x in nodeMap ==> nodeMap[x] == IndexOf(vs, x)
      ensures Graph(labels', edges') == ClipStep(val, numParts, p, vs, Graph(labels, edges), ed)
    {
      labels', edges' := labels, edges;
      var norm := |labels|;
      var srcFound := ed.src in vs;
      var destFound := ed.dst in vs;
      if srcFound && destFound {
        edges' := edges + [Edge(nodeMap[ed.src], nodeMap[ed.dst], ed.text)];
        return;
      }
      var writeOut := false;
      if srcFound {
        var l := GetMapPart(val, ed.dst);
        writeOut := l > p;
      }
      if writeOut {
        labels' := labels + [PadWrite];
        edges' := edges + [Edge(nodeMap[ed.src], norm, ed.text)];
        return;
      }
      var readIn := false;
      if destFound {
        var l := GetMapPart(val, ed.src);
        readIn := l < p;
      }
      if readIn {
        labels' := labels + [PadRead];
        edges' := edges + [Edge(norm, nodeMap[ed.dst], ed.text)];
      }
    }

    /** The sub-graph of partition `p`: its vertices renumbered in increasing
        id order, then one pass over the edges of the graph. */
    method SavePart(val: Valuation, p: nat) returns (out: Graph)
      ensures out == ClipGraph(val, graph, numParts, p)
    {
      var vs := GetVersPart(val, p);
      VersPartSpec(val, numVertices, p);
      var nodeMap, labels := PartNodes(vs);
      var edges: seq<Edge> := [];
      var e := 0;
      while e < numEdges
        invariant e <= numEdges
        invariant Graph(labels, edges) == ClipEdges(val, graph, numParts, p, vs, graph.edges[..e])
      {
        assert graph.edges[..e + 1][..e] == graph.edges[..e];
        labels, edges := PartEdge(val, p, vs, nodeMap, labels, edges, graph.edges[e]);
        e := e + 1;
      }
      assert graph.edges[..e] == graph.edges;
      out := Graph(labels, edges);
    }

    /** `saveParts`, without the files: one sub-graph per partition. */
    method SaveParts(val: Valuation) returns (parts: seq<Graph>)
      ensures |parts| == numParts
      ensures forall p :: 0 <= p < numParts ==> parts[p] == ClipGraph(val, graph, numParts, p)
    {
      parts := [];
      var p := 0;
      while p < numParts
        invariant p <= numParts && |parts| == p
        invariant forall q :: 0 <= q < p ==> parts[q] == ClipGraph(val, graph, numParts, q)
      {
        var part := SavePart(val, p);
        parts := parts + [part];
        p := p + 1;
      }
    }
  }

  /** The later partitions than `k` holding one of `succ`, as marks. */
  function FedParts(val: Valuation, succ: seq<nat>, numParts: nat, k: int): (m: seq<bool>)
    ensures |m| == numParts
  {
    if succ == [] then seq(numParts, _ => false)
    else
      var m := FedParts(val, succ[..|succ| - 1], numParts, k);
      var l := MapPart(val, succ[|succ| - 1], numParts);
      if 0 <= l < numParts && k < l then m[l := true] else m
  }

  /** Partition `l` is marked exactly when it lies after `k` and holds one of `succ`. */
  lemma {:induction false} FedPartsSpec(val: Valuation, succ: seq<nat>, numParts: nat, k: int, l: nat)
    requires l < numParts
    ensures FedParts(val, succ, numParts, k)[l] <==> k < l && exists t :: 0 <= t < |succ| && MapPart(val, succ[t], numParts) == l
  {
    if succ != [] {
      var m := |succ| - 1;
      FedPartsSpec(val, succ[..m], numParts, k, l);
      if exists t :: 0 <= t < |succ| && MapPart(val, succ[t], numParts) == l {
        var t :| 0 <= t < |succ| && MapPart(val, succ[t], numParts) == l;
        if t < m {
          assert succ[..m][t] == succ[t];
        }
      }
      if exists t :: 0 <= t < m && MapPart(val, succ[..m][t], numParts) == l {
        var t :| 0 <= t < m && MapPart(val, succ[..m][t], numParts) == l;
        assert succ[..m][t] == succ[t];
      }
    }
  }

  /** A positive count of later successors has a witness. */
  lemma {:induction false} LaterCountWitness(val: Valuation, succ: seq<nat>, numParts: nat, k: int)
    requires LaterCount(val, succ, numParts, k) > 0
    ensures exists t :: 0 <= t < |succ| && MapPart(val, succ[t], numParts) > k
  {
    var m := |succ| - 1;
    if MapPart(val, succ[m], numParts) <= k {
      LaterCountWitness(val, succ[..m], numParts, k);
      var t :| 0 <= t < m && MapPart(val, succ[..m][t], numParts) > k;
      assert succ[..m][t] == succ[t];
    }
  }

  /** A later successor whose `Xikl` is unset fails the crossing check of `v`. */
  lemma CrossingMissed(val: Valuation, g: Graph, numParts: nat, v: nat, s: nat)
    requires s < |Succs(g, v)| && MapPart(val, v, numParts) >= 0
    requires var k := MapPart(val, v, numParts); var l := MapPart(val, Succs(g, v)[s], numParts);
      l > k && !val(Xikl(v, k, l))
    ensures !VertexCrossingOk(val, g, numParts, v)
  {
  }

  /** After all successors of `v`, the count of later successors is positive
      exactly when `v` writes, and the marks are the later partitions it feeds. */
  lemma FeedsDone(val: Valuation, g: Graph, numParts: nat, v: nat)
    ensures LaterCount(val, Succs(g, v), numParts, MapPart(val, v, numParts)) > 0 <==> LaterSucc(val, g, numParts, v)
    ensures forall l :: 0 <= l < numParts ==>
      (FedParts(val, Succs(g, v), numParts, MapPart(val, v, numParts))[l] <==> MapPart(val, v, numParts) < l && SuccIn(val, g, numParts, v, l))
  {
    var succ, k := Succs(g, v), MapPart(val, v, numParts);
    if LaterCount(val, succ, numParts, k) > 0 {
      LaterCountWitness(val, succ, numParts, k);
    }
    if LaterSucc(val, g, numParts, v) {
      var t :| 0 <= t < |succ| && MapPart(val, succ[t], numParts) > k;
      LaterCountPositive(val, succ, numParts, k, t);
    }
    forall l | 0 <= l < numParts {
      FedPartsSpec(val, succ, numParts, k, l);
    }
  }

  /** `counts` with one added at every marked position. */
  method AddMarks(counts: seq<nat>, marks: seq<bool>) returns (r: seq<nat>)
    requires |counts| == |marks|
    ensures |r| == |counts|
    ensures forall l :: 0 <= l < |r| ==> r[l] == counts[l] + (if marks[l] then 1 else 0)
  {
    r := counts;
    var l := 0;
    while l < |marks|
      invariant l <= |marks| && |r| == |counts|
      invariant forall j :: 0 <= j < |r| ==> r[j] == counts[j] + (if j < l && marks[j] then 1 else 0)
    {
      if marks[l] {
        r := r[l := r[l] + 1];
      }
      l := l + 1;
    }
  }
}
