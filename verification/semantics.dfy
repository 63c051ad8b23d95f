/** What each row family means for a 0/1 solution: the linear rows are
    translated back into statements about where vertices are placed. */
module Semantics {
  import opened Wrappers
  import opened Graphs
  import opened GroupTable
  import opened Ilp
  import opened Pairs
  import opened Catalogue
  import opened Rows

  /** First partition `q` with `p <= q < numParts` that holds vertex `i`, or
      -1 (`getMapPart` scans the partitions upwards from 0). */
  function FirstPartFrom(val: Valuation, i: nat, p: nat, numParts: nat): (r: int)
    ensures r == -1 || p <= r < numParts
    decreases numParts - p
  {
    if p >= numParts then -1
    else if val(Xij(i, p)) then p
    else FirstPartFrom(val, i, p + 1, numParts)
  }

  /** The scan finds the first set assignment variable, and -1 exactly when none is set. */
  lemma {:induction false} FirstPartFromSpec(val: Valuation, i: nat, p: nat, numParts: nat)
    ensures var r := FirstPartFrom(val, i, p, numParts);
      && (r >= 0 ==> val(Xij(i, r)) && forall q :: p <= q < r ==> !val(Xij(i, q)))
      && (r == -1 <==> forall q :: p <= q < numParts ==> !val(Xij(i, q)))
    decreases numParts - p
  {
    if p < numParts && !val(Xij(i, p)) {
      FirstPartFromSpec(val, i, p + 1, numParts);
    }
  }

  /** The partition of vertex `i` as the validator and the extraction read it. */
  function MapPart(val: Valuation, i: nat, numParts: nat): int {
    FirstPartFrom(val, i, 0, numParts)
  }

  /** Vertex `i` lies in exactly one partition below `numParts`. */
  predicate Placed(val: Valuation, i: nat, numParts: nat) {
    Count(PartVars(i, numParts), val) == 1
  }

  lemma {:induction false} PartVarsIndex(i: nat, m: nat, t: nat)
    requires t < m
    ensures PartVars(i, m)[t] == Xij(i, t)
  {
    if t < m - 1 {
      PartVarsIndex(i, m - 1, t);
    }
  }

  lemma {:induction false} PartCountZero(val: Valuation, i: nat, m: nat)
    ensures Count(PartVars(i, m), val) == 0 <==> forall q :: 0 <= q < m ==> !val(Xij(i, q))
  {
    if m > 0 {
      PartCountZero(val, i, m - 1);
    }
  }

  /** One placement exactly when one assignment variable of the vertex is 1. */
  lemma {:induction false} PlacedIff(val: Valuation, i: nat, m: nat)
    ensures Count(PartVars(i, m), val) == 1 <==>
      exists p :: 0 <= p < m && val(Xij(i, p)) && forall q :: 0 <= q < m && val(Xij(i, q)) ==> q == p
  {
    if m > 0 {
      PlacedIff(val, i, m - 1);
      PartCountZero(val, i, m - 1);
      if Count(PartVars(i, m), val) == 1 {
        if val(Xij(i, m - 1)) {
          assert forall q :: 0 <= q < m && val(Xij(i, q)) ==> q == m - 1;
        } else {
          var p :| 0 <= p < m - 1 && val(Xij(i, p)) && forall q :: 0 <= q < m - 1 && val(Xij(i, q)) ==> q == p;
          assert forall q :: 0 <= q < m && val(Xij(i, q)) ==> q == p;
        }
      }
      if exists p :: 0 <= p < m && val(Xij(i, p)) && forall q :: 0 <= q < m && val(Xij(i, q)) ==> q == p {
        var p :| 0 <= p < m && val(Xij(i, p)) && forall q :: 0 <= q < m && val(Xij(i, q)) ==> q == p;
        if p < m - 1 {
          assert !val(Xij(i, m - 1));
          assert forall q :: 0 <= q < m - 1 && val(Xij(i, q)) ==> q == p;
        } else {
          assert forall q :: 0 <= q < m - 1 ==> !val(Xij(i, q));
        }
      }
    }
  }

  /** For a placed vertex, `MapPart` is its partition and no other
      assignment variable of it is 1. */
  lemma PlacedPart(val: Valuation, i: nat, numParts: nat)
    requires Placed(val, i, numParts)
    ensures 0 <= MapPart(val, i, numParts) < numParts
    ensures forall q :: 0 <= q < numParts ==> (val(Xij(i, q)) <==> q == MapPart(val, i, numParts))
  {
    PlacedIff(val, i, numParts);
    FirstPartFromSpec(val, i, 0, numParts);
  }

  /** The uniqueness row of `i` holds exactly when `i` is placed once. */
  lemma UniqueRowMeaning(val: Valuation, i: nat, numParts: nat)
    ensures Holds(UniqueRow(i, numParts), val) <==> Placed(val, i, numParts)
  {
    EvalScaled(PartVars(i, numParts), 1, val);
  }

  lemma UniqueRowsMeaning(val: Valuation, n: nat, numParts: nat)
    ensures HoldsAll(UniqueRows(n, numParts), val) <==> forall i :: 0 <= i < n ==> Placed(val, i, numParts)
  {
    forall i | 0 <= i < n
      ensures Holds(UniqueRows(n, numParts)[i], val) <==> Placed(val, i, numParts)
    {
      UniqueRowsIndex(n, numParts, i);
      UniqueRowMeaning(val, i, numParts);
    }
  }

  /** Number of vertices below `n` whose assignment variable for `p` is 1. */
  function Occupancy(val: Valuation, n: nat, p: nat): nat {
    Count(VertexVars(n, p), val)
  }

  /** The capacity rows hold exactly when no partition below `m` holds more than `rSize` vertices. */
  lemma SizeRowsMeaning(val: Valuation, n: nat, m: nat, rSize: int)
    ensures HoldsAll(SizeRows(n, m, rSize), val) <==> forall p :: 0 <= p < m ==> Occupancy(val, n, p) <= rSize
  {
    forall p | 0 <= p < m
      ensures Holds(SizeRows(n, m, rSize)[p], val) <==> Occupancy(val, n, p) <= rSize
    {
      SizeRowsIndex(n, m, rSize, p);
      EvalScaled(VertexVars(n, p), 1, val);
    }
  }

  /** For a vertex whose only partition is `p`, the weighted form
      `sum_q sign q X(i, q)` over `q < m` is `sign p` when `p < m`. */
  lemma {:induction false} WeightedValue(val: Valuation, i: nat, m: nat, p: nat, numParts: nat, sign: int)
    requires m <= numParts
    requires forall q :: 0 <= q < numParts ==> (val(Xij(i, q)) <==> q == p)
    ensures Eval(Weighted(i, m, sign), val) == (if p < m then sign * p else 0)
  {
    if m > 0 {
      WeightedValue(val, i, m - 1, p, numParts, sign);
      assert Weighted(i, m, sign)[..m - 1] == Weighted(i, m - 1, sign);
    }
  }

  /** With both ends placed, the precedence row of an edge holds exactly
      when the source's partition is not after the destination's. */
  lemma PrecRowMeaning(val: Valuation, e: Edge, numParts: nat)
    requires Placed(val, e.src, numParts) && Placed(val, e.dst, numParts)
    ensures Holds(PrecRow(e, numParts), val) <==> MapPart(val, e.src, numParts) <= MapPart(val, e.dst, numParts)
  {
    PlacedPart(val, e.src, numParts);
    PlacedPart(val, e.dst, numParts);
    WeightedValue(val, e.src, numParts, MapPart(val, e.src, numParts), numParts, 1);
    WeightedValue(val, e.dst, numParts, MapPart(val, e.dst, numParts), numParts, -1);
    EvalAppend(Weighted(e.src, numParts, 1), Weighted(e.dst, numParts, -1), val);
  }

  lemma PrecRowsMeaning(val: Valuation, es: seq<Edge>, numParts: nat)
    requires forall k :: 0 <= k < |es| ==> Placed(val, es[k].src, numParts) && Placed(val, es[k].dst, numParts)
    ensures HoldsAll(PrecRows(es, numParts), val) <==>
      forall k :: 0 <= k < |es| ==> MapPart(val, es[k].src, numParts) <= MapPart(val, es[k].dst, numParts)
  {
    forall k | 0 <= k < |es|
      ensures Holds(PrecRows(es, numParts)[k], val) <==> MapPart(val, es[k].src, numParts) <= MapPart(val, es[k].dst, numParts)
    {
      PrecRowsIndex(es, numParts, k);
      PrecRowMeaning(val, es[k], numParts);
    }
  }

  lemma {:induction false} VarsInIndex(ids: seq<nat>, p: nat, t: nat)
    requires t < |ids|
    ensures VarsIn(ids, p)[t] == Xij(ids[t], p)
  {
    if t < |ids| - 1 {
      VarsInIndex(ids[..|ids| - 1], p, t);
    }
  }

  /** Some listed vertex is placed in partition `l`. */
  predicate SomeIn(val: Valuation, succ: seq<nat>, l: nat) {
    exists t :: 0 <= t < |succ| && val(Xij(succ[t], l))
  }

  /** Some listed vertex is in partition `p` exactly when their count there is positive. */
  lemma VarsInCount(val: Valuation, ids: seq<nat>, p: nat)
    ensures Count(VarsIn(ids, p), val) > 0 <==> SomeIn(val, ids, p)
    ensures Count(VarsIn(ids, p), val) <= |ids|
  {
    CountPositive(VarsIn(ids, p), val);
    CountBounded(VarsIn(ids, p), val);
    forall t | 0 <= t < |ids| {
      VarsInIndex(ids, p, t);
    }
  }

  /** The two linking rows of a pair hold exactly when `Yikl` is 1 precisely
      if some successor of `i` is placed in `l`. */
  lemma LinkRowsMeaning(val: Valuation, i: nat, succ: seq<nat>, pr: Pair)
    ensures HoldsAll(PairRows(Link, i, succ, pr), val) <==> (val(Yikl(i, pr.0, pr.1)) <==> SomeIn(val, succ, pr.1))
  {
    var (k, l) := pr;
    var vs := VarsIn(succ, l);
    VarsInCount(val, succ, l);
    EvalScaled(vs, -1, val);
    EvalScaled(vs, 1, val);
    EvalAppend(Scaled(vs, -1), [Term(Yikl(i, k, l), 1)], val);
    EvalAppend(Scaled(vs, 1), [Term(Yikl(i, k, l), -|succ|)], val);
    var rs := PairRows(Link, i, succ, pr);
    HoldsAllPair(rs[0], rs[1], val);
    EvalSingle(Term(Yikl(i, k, l), 1), val);
    EvalSingle(Term(Yikl(i, k, l), -|succ|), val);
  }

  /** The two product rows hold exactly when `Xikl` is the conjunction of `Xik` and `Yikl`. */
  lemma AndRowsMeaning(val: Valuation, i: nat, succ: seq<nat>, pr: Pair)
    ensures HoldsAll(PairRows(And, i, succ, pr), val) <==>
      (val(Xikl(i, pr.0, pr.1)) <==> val(Xij(i, pr.0)) && val(Yikl(i, pr.0, pr.1)))
  {
    var (k, l) := pr;
    var rs := PairRows(And, i, succ, pr);
    HoldsAllPair(rs[0], rs[1], val);
    EvalTriple(Term(Xij(i, k), 1), Term(Yikl(i, k, l), 1), Term(Xikl(i, k, l), -1), val);
    EvalTriple(Term(Xij(i, k), -1), Term(Yikl(i, k, l), -1), Term(Xikl(i, k, l), 2), val);
  }

  /** The pinning rows hold exactly when both pair variables are 0. */
  lemma PinRowsMeaning(val: Valuation, i: nat, succ: seq<nat>, pr: Pair)
    ensures HoldsAll(PairRows(Pin, i, succ, pr), val) <==> !val(Xikl(i, pr.0, pr.1)) && !val(Yikl(i, pr.0, pr.1))
  {
    var (k, l) := pr;
    var rs := PairRows(Pin, i, succ, pr);
    HoldsAllPair(rs[0], rs[1], val);
    EvalSingle(Term(Xikl(i, k, l), 1), val);
    EvalSingle(Term(Yikl(i, k, l), 1), val);
  }

  /** When the rows of a family hold, those of the part of each entry do. */
  lemma {:induction false} FlattenHolds<T>(val: Valuation, f: T -> seq<Row>, xs: seq<T>, t: nat)
    requires HoldsAll(Flatten(f, xs), val)
    requires t < |xs|
    ensures HoldsAll(f(xs[t]), val)
  {
    var init := xs[..|xs| - 1];
    HoldsAllAppend(Flatten(f, init), f(xs[|xs| - 1]), val);
    if t < |init| {
      FlattenHolds(val, f, init, t);
      assert init[t] == xs[t];
    }
  }

  /** When the rows of a pass over `ps` hold, those of pair `ps[t]` do. */
  lemma OverPairsHolds(val: Valuation, kind: PairKind, i: nat, succ: seq<nat>, ps: seq<Pair>, t: nat)
    requires HoldsAll(OverPairs(kind, i, succ, ps), val)
    requires t < |ps|
    ensures HoldsAll(PairRows(kind, i, succ, ps[t]), val)
  {
    FlattenHolds(val, PairFamily(kind, i, succ), ps, t);
    assert PairFamily(kind, i, succ)(ps[t]) == PairRows(kind, i, succ, ps[t]);
  }

  /** Under the inter-partition rows of `i`, for every pair `k < l`:
      `Yikl` is 1 exactly when a successor lies in `l`, and `Xikl` exactly
      when moreover `i` lies in `k`. */
  lemma VertexInterMeaning(val: Valuation, g: Graph, i: nat, numParts: nat, k: nat, l: nat)
    requires HoldsAll(VertexInterRows(g, i, numParts), val)
    requires k < l < numParts
    ensures val(Yikl(i, k, l)) <==> SomeIn(val, Succs(g, i), l)
    ensures val(Xikl(i, k, l)) <==> val(Xij(i, k)) && SomeIn(val, Succs(g, i), l)
  {
    var succ := Succs(g, i);
    var ps := AllPairs(numParts);
    AllPairsMembers(numParts, (k, l));
    var t :| 0 <= t < |ps| && ps[t] == (k, l);
    if |succ| == 0 {
      OverPairsHolds(val, Pin, i, succ, ps, t);
      PinRowsMeaning(val, i, succ, (k, l));
    } else {
      HoldsAllAppend(OverPairs(Link, i, succ, ps), OverPairs(And, i, succ, ps), val);
      OverPairsHolds(val, Link, i, succ, ps, t);
      OverPairsHolds(val, And, i, succ, ps, t);
      LinkRowsMeaning(val, i, succ, (k, l));
      AndRowsMeaning(val, i, succ, (k, l));
    }
  }

  /** When the rows of a family hold, those of each of its parts do. */
  lemma {:induction false} ConcatHolds(val: Valuation, f: nat -> seq<Row>, n: nat, i: nat)
    requires HoldsAll(Concat(f, n), val)
    requires i < n
    ensures HoldsAll(f(i), val)
  {
    HoldsAllAppend(Concat(f, n - 1), f(n - 1), val);
    if i < n - 1 {
      ConcatHolds(val, f, n - 1, i);
    }
  }

  lemma InterRowsPrefix(val: Valuation, g: Graph, n: nat, numParts: nat, i: nat)
    requires HoldsAll(InterRows(g, n, numParts), val)
    requires i < n
    ensures HoldsAll(VertexInterRows(g, i, numParts), val)
  {
    ConcatHolds(val, VertexFamily(g, numParts), n, i);
    assert VertexFamily(g, numParts)(i) == VertexInterRows(g, i, numParts);
  }

  /** The two group rows for partition `p` hold exactly when the group
      variable is 1 precisely if a member of the group lies in `p`. */
  lemma GroupPartMeaning(val: Valuation, loads: Table, gid: int, members: seq<nat>, p: nat)
    ensures HoldsAll(GroupPartRows(loads, gid, members, p), val) <==>
      (val(GroupVar(loads, gid, p)) <==> SomeIn(val, members, p))
  {
    var vs := VarsIn(members, p);
    var lv := GroupVar(loads, gid, p);
    VarsInCount(val, members, p);
    EvalScaled(vs, -1, val);
    EvalScaled(vs, 1, val);
    EvalAppend(Scaled(vs, -1), [Term(lv, 1)], val);
    EvalAppend(Scaled(vs, 1), [Term(lv, -|members|)], val);
    var rs := GroupPartRows(loads, gid, members, p);
    HoldsAllPair(rs[0], rs[1], val);
    EvalSingle(Term(lv, 1), val);
    EvalSingle(Term(lv, -|members|), val);
  }

  lemma {:induction false} GroupRowsUpToMeaning(val: Valuation, loads: Table, gid: int, members: seq<nat>, m: nat, p: nat)
    requires HoldsAll(GroupRowsUpTo(loads, gid, members, m), val)
    requires p < m
    ensures val(GroupVar(loads, gid, p)) <==> SomeIn(val, members, p)
  {
    HoldsAllAppend(GroupRowsUpTo(loads, gid, members, m - 1), GroupPartRows(loads, gid, members, m - 1), val);
    if p < m - 1 {
      GroupRowsUpToMeaning(val, loads, gid, members, m - 1, p);
    } else {
      GroupPartMeaning(val, loads, gid, members, p);
    }
  }

  lemma {:induction false} GroupRowsOverMeaning(val: Valuation, loads: Table, all: Table, ks: seq<int>, numParts: nat, gid: int, p: nat)
    requires HoldsAll(GroupRowsOver(loads, all, ks, numParts), val)
    requires gid in ks && p < numParts
    ensures val(GroupVar(loads, gid, p)) <==> SomeIn(val, Get(all, gid), p)
  {
    var last := ks[|ks| - 1];
    HoldsAllAppend(GroupRowsOver(loads, all, ks[..|ks| - 1], numParts), GroupRowsUpTo(loads, last, Get(all, last), numParts), val);
    if gid == last {
      GroupRowsUpToMeaning(val, loads, gid, Get(all, gid), numParts, p);
    } else {
      assert gid in ks[..|ks| - 1] by {
        var t :| 0 <= t < |ks| && ks[t] == gid;
        assert t < |ks| - 1;
        assert ks[..|ks| - 1][t] == gid;
      }
      GroupRowsOverMeaning(val, loads, all, ks[..|ks| - 1], numParts, gid, p);
    }
  }

  /** Under the reuse rows, every load group variable `Lpg(gid, p)` is 1
      exactly when a member of load group `gid` lies in `p`; a store group
      whose id no load group uses gets the same for `Lps(gid, p)`. */
  lemma GroupRowsMeaning(val: Valuation, loads: Table, stores: Table, numParts: nat, gid: int, p: nat)
    requires Valid(loads) && Valid(stores)
    requires HoldsAll(GroupRows(loads, stores, numParts), val)
    requires p < numParts
    ensures gid in loads.members ==> (val(Lpg(gid, p)) <==> SomeIn(val, Get(loads, gid), p))
    ensures gid in stores.members && gid !in loads.members ==> (val(Lps(gid, p)) <==> SomeIn(val, Get(stores, gid), p))
  {
    var all := InsertBoth(loads, stores);
    if gid in all.members {
      GroupRowsOverMeaning(val, loads, all, all.keys, numParts, gid, p);
    }
  }
}
