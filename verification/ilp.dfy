/** The 0-1 integer linear program the partitioner hands to its solver:
    boolean variables, linear rows with a lower and an upper bound, and the
    meaning of a row under an assignment of 0/1 values to the variables. */
module Ilp {
  import opened Wrappers

  /** The variable families of the model.
      `Xij(i, j)`: vertex i is placed in partition j.
      `Yikl(i, k, l)`: some successor of vertex i is placed in partition l.
      `Xikl(i, k, l)`: vertex i is in partition k and some successor of it in l.
      `Lpg(g, p)` / `Lps(g, p)`: load / store group g has a member in partition p. */
  datatype Var =
    | Xij(i: nat, j: nat)
    | Yikl(i: nat, k: nat, l: nat)
    | Xikl(i: nat, k: nat, l: nat)
    | Lpg(g: int, p: nat)
    | Lps(g: int, p: nat)

  datatype Term = Term(v: Var, coef: int)

  /** `lo <= sum of coef * value <= hi`; a `None` lower bound is `-IloInfinity`. */
  datatype Row = Row(terms: seq<Term>, lo: Option<int>, hi: int)

  /** A solution: the 0/1 value of every variable. */
  type Valuation = Var -> bool

  function B(b: bool): int { if b then 1 else 0 }

  /** Value of the linear form `ts` under `val`. */
  function Eval(ts: seq<Term>, val: Valuation): int {
    if ts == [] then 0
    else Eval(ts[..|ts| - 1], val) + ts[|ts| - 1].coef * B(val(ts[|ts| - 1].v))
  }

  predicate Holds(r: Row, val: Valuation) {
    var s := Eval(r.terms, val);
    (r.lo.None? || r.lo.value <= s) && s <= r.hi
  }

  /** Every row of `rs` holds. */
  predicate HoldsAll(rs: seq<Row>, val: Valuation) {
    forall k :: 0 <= k < |rs| ==> Holds(rs[k], val)
  }

  /** A linear form over a concatenation is the sum of the two forms. */
  lemma {:induction false} EvalAppend(a: seq<Term>, b: seq<Term>, val: Valuation)
    ensures Eval(a + b, val) == Eval(a, val) + Eval(b, val)
    decreases |b|
  {
    if b == [] {
      assert a + b == a;
    } else {
      var b' := b[..|b| - 1];
      assert (a + b)[..|a + b| - 1] == a + b';
      assert (a + b)[|a + b| - 1] == b[|b| - 1];
      EvalAppend(a, b', val);
    }
  }

  lemma EvalSingle(a: Term, val: Valuation)
    ensures Eval([a], val) == a.coef * B(val(a.v))
  {
    assert [a][..0] == [];
  }

  lemma EvalTriple(a: Term, b: Term, c: Term, val: Valuation)
    ensures Eval([a, b, c], val) == a.coef * B(val(a.v)) + b.coef * B(val(b.v)) + c.coef * B(val(c.v))
  {
    assert [a, b, c][..2] == [a, b];
    assert [a, b][..1] == [a];
    EvalSingle(a, val);
  }

  /** Appending one row adds exactly that row's condition. */
  lemma HoldsAllSnoc(rs: seq<Row>, r: Row, val: Valuation)
    ensures HoldsAll(rs + [r], val) <==> HoldsAll(rs, val) && Holds(r, val)
  {
    HoldsAllAppend(rs, [r], val);
    assert [r][0] == r;
  }

  /** A row sequence holds exactly when both of its parts hold. */
  lemma HoldsAllAppend(a: seq<Row>, b: seq<Row>, val: Valuation)
    ensures HoldsAll(a + b, val) <==> HoldsAll(a, val) && HoldsAll(b, val)
  {
    if HoldsAll(a, val) && HoldsAll(b, val) {
      forall k | 0 <= k < |a + b|
        ensures Holds((a + b)[k], val)
      {
        if k < |a| {
          assert (a + b)[k] == a[k];
        } else {
          assert (a + b)[k] == b[k - |a|];
        }
      }
    }
    if HoldsAll(a + b, val) {
      forall k | 0 <= k < |a|
        ensures Holds(a[k], val)
      {
        assert (a + b)[k] == a[k];
      }
      forall k | 0 <= k < |b|
        ensures Holds(b[k], val)
      {
        assert (a + b)[|a| + k] == b[k];
      }
    }
  }

  lemma HoldsAllPair(r0: Row, r1: Row, val: Valuation)
    ensures HoldsAll([r0, r1], val) <==> Holds(r0, val) && Holds(r1, val)
  {
    assert [r0, r1][0] == r0 && [r0, r1][1] == r1;
  }

  /** Number of variables of `vs` that are 1 under `val`. */
  function Count(vs: seq<Var>, val: Valuation): nat {
    if vs == [] then 0 else Count(vs[..|vs| - 1], val) + B(val(vs[|vs| - 1]))
  }

  /** Each variable of `vs`, in order, with coefficient `c`. */
  function Scaled(vs: seq<Var>, c: int): (ts: seq<Term>)
    ensures |ts| == |vs|
  {
    if vs == [] then [] else Scaled(vs[..|vs| - 1], c) + [Term(vs[|vs| - 1], c)]
  }

  lemma ScaledSnoc(vs: seq<Var>, v: Var, c: int)
    ensures Scaled(vs + [v], c) == Scaled(vs, c) + [Term(v, c)]
  {
    assert (vs + [v])[..|vs|] == vs;
  }

  lemma {:induction false} ScaledAppend(a: seq<Var>, b: seq<Var>, c: int)
    ensures Scaled(a + b, c) == Scaled(a, c) + Scaled(b, c)
  {
    if b == [] {
      assert a + b == a;
    } else {
      var init := b[..|b| - 1];
      ScaledAppend(a, init, c);
      assert (a + b)[..|a + b| - 1] == a + init;
      assert (a + b)[|a + b| - 1] == b[|b| - 1];
    }
  }

  /** A form with one coefficient `c` is `c` times the number of its variables set to 1. */
  lemma {:induction false} EvalScaled(vs: seq<Var>, c: int, val: Valuation)
    ensures Eval(Scaled(vs, c), val) == c * Count(vs, val)
  {
    if vs != [] {
      var ts := Scaled(vs, c);
      assert ts[..|ts| - 1] == Scaled(vs[..|vs| - 1], c);
      EvalScaled(vs[..|vs| - 1], c, val);
    }
  }

  lemma {:induction false} CountBounded(vs: seq<Var>, val: Valuation)
    ensures Count(vs, val) <= |vs|
  {
    if vs != [] {
      CountBounded(vs[..|vs| - 1], val);
    }
  }

  /** Count is positive exactly when some variable of `vs` is 1. */
  lemma {:induction false} CountPositive(vs: seq<Var>, val: Valuation)
    ensures Count(vs, val) > 0 <==> exists t :: 0 <= t < |vs| && val(vs[t])
  {
    if vs != [] {
      var init := vs[..|vs| - 1];
      CountPositive(init, val);
      if exists t :: 0 <= t < |init| && val(init[t]) {
        var t :| 0 <= t < |init| && val(init[t]);
        assert vs[t] == init[t];
      }
      if exists t :: 0 <= t < |vs| && val(vs[t]) {
        var t :| 0 <= t < |vs| && val(vs[t]);
        if t < |init| {
          assert init[t] == vs[t];
        }
      }
    }
  }
}
