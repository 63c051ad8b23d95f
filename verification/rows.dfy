/** The constraint rows of the partitioning ILP, family by family, in the
    order the builders add them. Each family is a function of the graph and
    the parameters; the builder methods of `PartitionIlp` are proved to add
    exactly these rows. */
module Rows {
  import opened Wrappers
  import opened Graphs
  import opened GroupTable
  import opened Ilp
  import opened Pairs
  import opened Catalogue

  /** Uniqueness: every vertex `i < n` lies in exactly one partition,
      `sum_j X(i, j) = 1`. */
  function UniqueRow(i: nat, numParts: nat): Row {
    Row(Scaled(PartVars(i, numParts), 1), Some(1), 1)
  }

  function UniqueRows(n: nat, numParts: nat): (rs: seq<Row>)
    ensures |rs| == n
  {
    if n == 0 then [] else UniqueRows(n - 1, numParts) + [UniqueRow(n - 1, numParts)]
  }

  lemma {:induction false} UniqueRowsIndex(n: nat, numParts: nat, i: nat)
    requires i < n
    ensures UniqueRows(n, numParts)[i] == UniqueRow(i, numParts)
  {
    if i < n - 1 {
      UniqueRowsIndex(n - 1, numParts, i);
    }
  }

  /** `X(0, p) .. X(n-1, p)`. */
  function VertexVars(n: nat, p: nat): (vs: seq<Var>)
    ensures |vs| == n
  {
    if n == 0 then [] else VertexVars(n - 1, p) + [Xij(n - 1, p)]
  }

  /** Capacity: partitions `p < m` hold at most `rSize` vertices,
      `0 <= sum_j X(j, p) <= rSize`. */
  function SizeRow(n: nat, p: nat, rSize: int): Row {
    Row(Scaled(VertexVars(n, p), 1), Some(0), rSize)
  }

  function SizeRows(n: nat, m: nat, rSize: int): (rs: seq<Row>)
    ensures |rs| == m
  {
    if m == 0 then [] else SizeRows(n, m - 1, rSize) + [SizeRow(n, m - 1, rSize)]
  }

  lemma {:induction false} SizeRowsIndex(n: nat, m: nat, rSize: int, p: nat)
    requires p < m
    ensures SizeRows(n, m, rSize)[p] == SizeRow(n, p, rSize)
  {
    if p < m - 1 {
      SizeRowsIndex(n, m - 1, rSize, p);
    }
  }

  /** `X(i, 0), .., X(i, m-1)` with coefficients `0, sign, 2 sign, ..`. */
  function Weighted(i: nat, m: nat, sign: int): (ts: seq<Term>)
    ensures |ts| == m
  {
    if m == 0 then [] else Weighted(i, m - 1, sign) + [Term(Xij(i, m - 1), sign * (m - 1))]
  }

  /** Precedence of one edge: `sum_p p X(src, p) - sum_p p X(dst, p) <= 0`. */
  function PrecRow(e: Edge, numParts: nat): Row {
    Row(Weighted(e.src, numParts, 1) + Weighted(e.dst, numParts, -1), None, 0)
  }

  function PrecRows(es: seq<Edge>, numParts: nat): (rs: seq<Row>)
    ensures |rs| == |es|
  {
    if es == [] then [] else PrecRows(es[..|es| - 1], numParts) + [PrecRow(es[|es| - 1], numParts)]
  }

  lemma {:induction false} PrecRowsIndex(es: seq<Edge>, numParts: nat, k: nat)
    requires k < |es|
    ensures PrecRows(es, numParts)[k] == PrecRow(es[k], numParts)
  {
    if k < |es| - 1 {
      PrecRowsIndex(es[..|es| - 1], numParts, k);
    }
  }

  /** `X(ids[0], p), X(ids[1], p), ..`: the assignment variables of the
      listed vertices (the successors of a vertex, or the members of a
      group) for partition `p`. */
  function VarsIn(ids: seq<nat>, p: nat): (vs: seq<Var>)
    ensures |vs| == |ids|
  {
    if ids == [] then [] else VarsIn(ids[..|ids| - 1], p) + [Xij(ids[|ids| - 1], p)]
  }

  /** The three row shapes written once per partition pair of a vertex. */
  datatype PairKind =
    | Pin   // vertex without successors: `Xikl = 0` and `Yikl = 0`
    | Link  // `Yikl <= sum_succ X(j, l)` and `sum_succ X(j, l) <= |succ| Yikl`
    | And   // `Xik + Yikl - Xikl <= 1` and `-Xik - Yikl + 2 Xikl <= 0`

  function PairRows(kind: PairKind, i: nat, succ: seq<nat>, pr: Pair): (rs: seq<Row>)
    ensures |rs| == 2
  {
    var (k, l) := pr;
    match kind
    case Pin =>
      [Row([Term(Xikl(i, k, l), 1)], Some(0), 0), Row([Term(Yikl(i, k, l), 1)], Some(0), 0)]
    case Link =>
      [Row(Scaled(VarsIn(succ, l), -1) + [Term(Yikl(i, k, l), 1)], None, 0),
       Row(Scaled(VarsIn(succ, l), 1) + [Term(Yikl(i, k, l), -|succ|)], None, 0)]
    case And =>
      [Row([Term(Xij(i, k), 1), Term(Yikl(i, k, l), 1), Term(Xikl(i, k, l), -1)], None, 1),
       Row([Term(Xij(i, k), -1), Term(Yikl(i, k, l), -1), Term(Xikl(i, k, l), 2)], None, 0)]
  }

  /** The parts `f(x)` for the entries `x` of `xs`, one after another. */
  function Flatten<T>(f: T -> seq<Row>, xs: seq<T>): seq<Row> {
    if xs == [] then [] else Flatten(f, xs[..|xs| - 1]) + f(xs[|xs| - 1])
  }

  lemma {:induction false} FlattenSized<T>(f: T -> seq<Row>, xs: seq<T>, c: nat)
    requires forall x :: |f(x)| == c
    ensures |Flatten(f, xs)| == c * |xs|
  {
    if xs != [] {
      FlattenSized(f, xs[..|xs| - 1], c);
      assert c * |xs| == c * (|xs| - 1) + c;
    }
  }

  lemma {:induction false} FlattenAppend<T>(f: T -> seq<Row>, a: seq<T>, b: seq<T>)
    ensures Flatten(f, a + b) == Flatten(f, a) + Flatten(f, b)
    decreases |b|
  {
    if b == [] {
      assert a + b == a;
    } else {
      var b' := b[..|b| - 1];
      assert (a + b)[..|a + b| - 1] == a + b';
      assert (a + b)[|a + b| - 1] == b[|b| - 1];
      FlattenAppend(f, a, b');
    }
  }

  /** The rows of one pass as a family indexed by partition pair. */
  function PairFamily(kind: PairKind, i: nat, succ: seq<nat>): Pair -> seq<Row> {
    (pr: Pair) => PairRows(kind, i, succ, pr)
  }

  /** The rows of the pairs `ps`, pair by pair. */
  function OverPairs(kind: PairKind, i: nat, succ: seq<nat>, ps: seq<Pair>): (rs: seq<Row>)
    ensures |rs| == 2 * |ps|
  {
    FlattenSized(PairFamily(kind, i, succ), ps, 2);
    Flatten(PairFamily(kind, i, succ), ps)
  }

  /** One more pair in a row of the enumeration adds its two rows. */
  lemma RowPairsStep(kind: PairKind, i: nat, succ: seq<nat>, k: nat, l: nat)
    requires k + 1 <= l
    ensures OverPairs(kind, i, succ, RowPairsUpTo(k, l + 1))
      == OverPairs(kind, i, succ, RowPairsUpTo(k, l)) + PairRows(kind, i, succ, (k, l))
  {
    var before := RowPairsUpTo(k, l);
    assert RowPairsUpTo(k, l + 1) == before + [(k, l)];
    assert (before + [(k, l)])[..|before|] == before;
    assert PairFamily(kind, i, succ)((k, l)) == PairRows(kind, i, succ, (k, l));
  }

  /** One more row of the enumeration adds the rows of its pairs. */
  lemma PairsBelowStep(kind: PairKind, i: nat, succ: seq<nat>, k: nat, n: nat)
    ensures OverPairs(kind, i, succ, PairsBelow(k + 1, n))
      == OverPairs(kind, i, succ, PairsBelow(k, n)) + OverPairs(kind, i, succ, RowPairsUpTo(k, n))
  {
    FlattenAppend(PairFamily(kind, i, succ), PairsBelow(k, n), RowPairsUpTo(k, n));
  }

  /** The inter-partition rows of vertex `i`. */
  function VertexInterRows(g: Graph, i: nat, numParts: nat): (rs: seq<Row>)
    ensures |rs| == if |Succs(g, i)| > 0 then 4 * |AllPairs(numParts)| else 2 * |AllPairs(numParts)|
  {
    var succ := Succs(g, i);
    if |succ| == 0 then OverPairs(Pin, i, succ, AllPairs(numParts))
    else OverPairs(Link, i, succ, AllPairs(numParts)) + OverPairs(And, i, succ, AllPairs(numParts))
  }

  /** The parts `f(0), ..., f(n-1)`, one after another. */
  function Concat(f: nat -> seq<Row>, n: nat): seq<Row> {
    if n == 0 then [] else Concat(f, n - 1) + f(n - 1)
  }

  /** The inter-partition rows as a family indexed by vertex. */
  function VertexFamily(g: Graph, numParts: nat): nat -> seq<Row> {
    (i: nat) => VertexInterRows(g, i, numParts)
  }

  /** The inter-partition rows of vertices `0 .. n-1`, vertex by vertex. */
  function InterRows(g: Graph, n: nat, numParts: nat): seq<Row> {
    Concat(VertexFamily(g, numParts), n)
  }

  lemma InterRowsStep(g: Graph, n: nat, numParts: nat)
    ensures InterRows(g, n + 1, numParts) == InterRows(g, n, numParts) + VertexInterRows(g, n, numParts)
  {
    assert VertexFamily(g, numParts)(n) == VertexInterRows(g, n, numParts);
  }

  lemma {:induction false} InterRowsSized(g: Graph, n: nat, numParts: nat)
    ensures |InterRows(g, n, numParts)| == RowTotal(g, n, |AllPairs(numParts)|)
  {
    if n > 0 {
      var m := n - 1;
      InterRowsSized(g, m, numParts);
      InterRowsGrow(g, m, n, numParts);
    }
  }

  lemma InterRowsGrow(g: Graph, m: nat, n: nat, numParts: nat)
    requires n == m + 1
    ensures |InterRows(g, n, numParts)| == |InterRows(g, m, numParts)| + |VertexInterRows(g, m, numParts)|
    ensures RowTotal(g, n, |AllPairs(numParts)|) == RowTotal(g, m, |AllPairs(numParts)|) + |VertexInterRows(g, m, numParts)|
  {
    InterRowsStep(g, m, numParts);
  }

  /** The group variable of `gid` in the merged table: the load vector wins
      on an id used by both kinds, as `std::map::insert` keeps the first entry. */
  function GroupVar(loads: Table, gid: int, p: nat): Var {
    if gid in loads.members then Lpg(gid, p) else Lps(gid, p)
  }

  /** The two rows tying the group variable of `gid` in partition `p` to the
      group's members: `L <= sum X(m, p)` and `sum X(m, p) <= |members| L`. */
  function GroupPartRows(loads: Table, gid: int, members: seq<nat>, p: nat): (rs: seq<Row>)
    ensures |rs| == 2
  {
    [Row(Scaled(VarsIn(members, p), -1) + [Term(GroupVar(loads, gid, p), 1)], None, 0),
     Row(Scaled(VarsIn(members, p), 1) + [Term(GroupVar(loads, gid, p), -|members|)], None, 0)]
  }

  function GroupRowsUpTo(loads: Table, gid: int, members: seq<nat>, m: nat): (rs: seq<Row>)
    ensures |rs| == 2 * m
  {
    if m == 0 then [] else GroupRowsUpTo(loads, gid, members, m - 1) + GroupPartRows(loads, gid, members, m - 1)
  }

  /** Group rows over the keys `ks` of the merged table `all`. */
  function GroupRowsOver(loads: Table, all: Table, ks: seq<int>, numParts: nat): (rs: seq<Row>)
    ensures |rs| == 2 * numParts * |ks|
  {
    if ks == [] then []
    else
      var gid := ks[|ks| - 1];
      GroupRowsOver(loads, all, ks[..|ks| - 1], numParts) + GroupRowsUpTo(loads, gid, Get(all, gid), numParts)
  }

  /** Load/store reuse rows for every group of the merged table. */
  function GroupRows(loads: Table, stores: Table, numParts: nat): seq<Row>
    requires Valid(loads) && Valid(stores)
  {
    var all := InsertBoth(loads, stores);
    GroupRowsOver(loads, all, all.keys, numParts)
  }

  /** `Xikl(i, 0, k), .., Xikl(i, m-1, k)`: vertex `i` writing into `k` from an earlier partition. */
  function InTerms(i: nat, m: nat, k: nat): (ts: seq<Term>)
    ensures |ts| == m
  {
    if m == 0 then [] else InTerms(i, m - 1, k) + [Term(Xikl(i, m - 1, k), 1)]
  }

  function ReadTerms(n: nat, k: nat): seq<Term> {
    if n == 0 then [] else ReadTerms(n - 1, k) + InTerms(n - 1, k, k)
  }

  /** `Xikl(i, k, k+1), .., Xikl(i, k, m-1)`: vertex `i` of `k` writing to a later partition. */
  function OutTerms(i: nat, k: nat, m: nat): (ts: seq<Term>)
    ensures |ts| == if m <= k + 1 then 0 else m - k - 1
  {
    if m <= k + 1 then [] else OutTerms(i, k, m - 1) + [Term(Xikl(i, k, m - 1), 1)]
  }

  function WriteTerms(n: nat, k: nat, numParts: nat): seq<Term> {
    if n == 0 then [] else WriteTerms(n - 1, k, numParts) + OutTerms(n - 1, k, numParts)
  }

  /** `L(gid, k)` for every key, load variables when `isLoad`, store variables otherwise. */
  function GroupTerms(ks: seq<int>, k: nat, isLoad: bool): (ts: seq<Term>)
    ensures |ts| == |ks|
  {
    if ks == [] then []
    else
      var gid := ks[|ks| - 1];
      GroupTerms(ks[..|ks| - 1], k, isLoad) + [Term(if isLoad then Lpg(gid, k) else Lps(gid, k), 1)]
  }

  /** Reads of partition `k`: values arriving from earlier partitions plus load groups read in `k`. */
  function ReadRow(n: nat, k: nat, loads: Table, tSize: int): Row {
    Row(ReadTerms(n, k) + GroupTerms(loads.keys, k, true), Some(0), tSize)
  }

  /** Writes of partition `k`: values leaving for later partitions plus store groups written from `k`. */
  function WriteRow(n: nat, k: nat, numParts: nat, stores: Table, tSize: int): Row {
    Row(WriteTerms(n, k, numParts) + GroupTerms(stores.keys, k, false), Some(0), tSize)
  }

  function ReadRows(n: nat, m: nat, loads: Table, tSize: int): (rs: seq<Row>)
    ensures |rs| == m
  {
    if m == 0 then [] else ReadRows(n, m - 1, loads, tSize) + [ReadRow(n, m - 1, loads, tSize)]
  }

  function WriteRows(n: nat, m: nat, numParts: nat, stores: Table, tSize: int): (rs: seq<Row>)
    ensures |rs| == m
  {
    if m == 0 then [] else WriteRows(n, m - 1, numParts, stores, tSize) + [WriteRow(n, m - 1, numParts, stores, tSize)]
  }

  lemma {:induction false} ReadRowsIndex(n: nat, m: nat, loads: Table, tSize: int, k: nat)
    requires k < m
    ensures ReadRows(n, m, loads, tSize)[k] == ReadRow(n, k, loads, tSize)
  {
    if k < m - 1 {
      ReadRowsIndex(n, m - 1, loads, tSize, k);
    }
  }

  lemma {:induction false} WriteRowsIndex(n: nat, m: nat, numParts: nat, stores: Table, tSize: int, k: nat)
    requires k < m
    ensures WriteRows(n, m, numParts, stores, tSize)[k] == WriteRow(n, k, numParts, stores, tSize)
  {
    if k < m - 1 {
      WriteRowsIndex(n, m - 1, numParts, stores, tSize, k);
    }
  }

  /** Transaction rows: all read rows, then all write rows. */
  function TransRows(n: nat, numParts: nat, loads: Table, stores: Table, tSize: int): (rs: seq<Row>)
    ensures |rs| == 2 * numParts
  {
    ReadRows(n, numParts, loads, tSize) + WriteRows(n, numParts, numParts, stores, tSize)
  }

  /** The whole model in the order the driver builds it. */
  function ModelRows(g: Graph, numParts: nat, rSize: int, tSize: int, loads: Table, stores: Table): seq<Row>
    requires Valid(loads) && Valid(stores)
  {
    var n := NumNodes(g);
    UniqueRows(n, numParts) + SizeRows(n, numParts, rSize) + PrecRows(g.edges, numParts)
      + InterRows(g, n, numParts) + GroupRows(loads, stores, numParts)
      + TransRows(n, numParts, loads, stores, tSize)
  }

  /** A vertex without successors gets two rows per pair, one with
      successors four: `P (P - 1) (V + Vout)` inter-partition rows. */
  lemma InterRowsCount(g: Graph, n: nat, numParts: nat)
    ensures |InterRows(g, n, numParts)| == numParts * (numParts - 1) * (n + VerticesWithSuccs(g, n))
  {
    AllPairsSize(numParts);
    InterRowsSized(g, n, numParts);
    RowTotalClosedForm(g, n, |AllPairs(numParts)|, numParts * (numParts - 1));
  }

  /** Rows added for vertices `0 .. n-1` when every vertex has `c` pairs. */
  function RowTotal(g: Graph, n: nat, c: nat): nat {
    if n == 0 then 0 else RowTotal(g, n - 1, c) + (if |Succs(g, n - 1)| > 0 then 4 * c else 2 * c)
  }

  lemma {:induction false} RowTotalClosedForm(g: Graph, n: nat, c: nat, q: int)
    requires 2 * c == q
    ensures RowTotal(g, n, c) == q * (n + VerticesWithSuccs(g, n))
  {
    if n > 0 {
      RowTotalClosedForm(g, n - 1, c, q);
      var extra := if |Succs(g, n - 1)| > 0 then 1 else 0;
      assert RowTotal(g, n, c) == q * (n - 1 + VerticesWithSuccs(g, n - 1)) + q * (1 + extra);
      DistributeSum(q, n - 1 + VerticesWithSuccs(g, n - 1), 1 + extra);
    }
  }

  lemma DistributeSum(q: int, a: int, b: int)
    ensures q * a + q * b == q * (a + b)
  {
  }
}
