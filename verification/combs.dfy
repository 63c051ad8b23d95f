/** `getCombs(n, k)`: the k-element subsets of `[0, n)`, produced by
    stepping a bitmask of k ones and n - k zeros with
    `std::prev_permutation` and listing the positions of its ones. */
module Combs {
  import opened Wrappers

  /** `c` copies of `b`. */
  function Rep(c: nat, b: bool): (r: seq<bool>)
    ensures |r| == c
  {
    seq(c, i => b)
  }

  /** `std::string::resize(n, 0)`: cut to `n`, or pad with zeros. */
  function Resize(s: seq<bool>, n: nat): (r: seq<bool>)
    ensures |r| == n
  {
    if |s| >= n then s[..n] else s + Rep(n - |s|, false)
  }

  /** Number of ones. */
  function Ones(b: seq<bool>): nat
    decreases |b|
  {
    if b == [] then 0 else (if b[0] then 1 else 0) + Ones(b[1..])
  }

  lemma {:induction false} OnesAppend(a: seq<bool>, b: seq<bool>)
    ensures Ones(a + b) == Ones(a) + Ones(b)
    decreases |a|
  {
    if a != [] {
      assert (a + b)[0] == a[0] && (a + b)[1..] == a[1..] + b;
      OnesAppend(a[1..], b);
    } else {
      assert a + b == b;
    }
  }

  lemma {:induction false} OnesRep(c: nat, b: bool)
    ensures Ones(Rep(c, b)) == if b then c else 0
    decreases c
  {
    if c > 0 {
      assert Rep(c, b)[1..] == Rep(c - 1, b);
      OnesRep(c - 1, b);
    }
  }

  /** `x` put in front of each of `ms`. */
  function Cons(x: bool, ms: seq<seq<bool>>): (r: seq<seq<bool>>)
    ensures |r| == |ms| && forall i :: 0 <= i < |ms| ==> r[i] == [x] + ms[i]
  {
    seq(|ms|, i requires 0 <= i < |ms| => [x] + ms[i])
  }

  /** Every mask of length `n` with `k` ones, in decreasing lexicographic
      order (a one before a zero). */
  function Masks(n: nat, k: nat): seq<seq<bool>>
    requires k <= n
    decreases n
  {
    if k == 0 then [Rep(n, false)]
    else if k == n then [Rep(n, true)]
    else Cons(true, Masks(n - 1, k - 1)) + Cons(false, Masks(n - 1, k))
  }

  /** A run of `c + 1` copies starts with one copy. */
  lemma RepFront(c: nat, c': nat, b: bool, tail: seq<bool>)
    requires c' == c + 1
    ensures Rep(c', b) + tail == [b] + (Rep(c, b) + tail)
  {
    assert Rep(c', b) == [b] + Rep(c, b);
  }

  /** The first mask has its ones in front. */
  lemma {:induction false} MasksFirst(n: nat, k: nat)
    requires k <= n
    ensures |Masks(n, k)| >= 1 && Masks(n, k)[0] == Rep(k, true) + Rep(n - k, false)
    decreases n
  {
    if k == 0 {
      assert Rep(k, true) + Rep(n - k, false) == Rep(n, false);
    } else if k == n {
      assert Rep(k, true) + Rep(n - k, false) == Rep(n, true);
    } else {
      var m, j := n - 1, k - 1;
      MasksFirst(m, j);
      JoinFirst(Masks(m, j), Masks(m, k), j, k, m - j, n - k);
      MasksSplit(n, k, m, j);
    }
  }

  /** The first of the joined list is the first of the first list behind a
      one: with the first list starting with `o` ones and `z` zeros, the
      joined list starts with `o' = o + 1` ones and `z' = z` zeros. */
  lemma JoinFirst(a: seq<seq<bool>>, b: seq<seq<bool>>, o: nat, o': nat, z: nat, z': nat)
    requires |a| >= 1 && a[0] == Rep(o, true) + Rep(z, false) && o' == o + 1 && z' == z
    ensures var ms := Cons(true, a) + Cons(false, b);
      |ms| >= 1 && ms[0] == Rep(o', true) + Rep(z', false)
  {
    var front, back := Cons(true, a), Cons(false, b);
    assert (front + back)[0] == front[0] == [true] + a[0];
    RepFront(o, o', true, Rep(z, false));
  }

  /** The last mask has its ones behind. */
  lemma {:induction false} MasksLast(n: nat, k: nat)
    requires k <= n
    ensures |Masks(n, k)| >= 1 && Masks(n, k)[|Masks(n, k)| - 1] == Rep(n - k, false) + Rep(k, true)
    decreases n, 1
  {
    if k == 0 || k == n {
      MasksLastEnds(n, k);
    } else {
      var m, j := n - 1, k - 1;
      MasksSplit(n, k, m, j);
      MasksLastJoin(n, k, m, Masks(m, j), Masks(m, k), Masks(n, k));
    }
  }

  /** With ones and zeros, the last mask is a zero before the last mask
      with one position fewer: `ms` joins some list `a` with the masks `b`
      of `m = n - 1` positions and `k` ones. */
  lemma {:induction false} MasksLastJoin(n: nat, k: nat, m: nat, a: seq<seq<bool>>, b: seq<seq<bool>>, ms: seq<seq<bool>>)
    requires 0 < k < n && m == n - 1 && b == Masks(m, k)
    requires ms == Cons(true, a) + Cons(false, b)
    ensures |ms| >= 1 && ms[|ms| - 1] == Rep(n - k, false) + Rep(k, true)
    decreases n, 0
  {
    MasksLast(m, k);
    JoinLast(a, b, ms, m - k, n - k, k);
  }

  /** With no ones or no zeros there is one mask. */
  lemma MasksLastEnds(n: nat, k: nat)
    requires k == 0 || k == n
    ensures |Masks(n, k)| >= 1 && Masks(n, k)[|Masks(n, k)| - 1] == Rep(n - k, false) + Rep(k, true)
  {
    var only := Rep(n, k == n);
    assert Rep(n - k, false) + Rep(k, true) == only;
    assert Masks(n, k) == [only];
  }

  /** A zero before the smallest arrangement of `z` zeros and `k` ones is
      the smallest arrangement of `w = z + 1` zeros and `k` ones. */
  lemma ZeroFront(s: seq<bool>, z: nat, w: nat, k: nat)
    requires w == z + 1 && s == Rep(z, false) + Rep(k, true)
    ensures [false] + s == Rep(w, false) + Rep(k, true)
  {
    RepFront(z, w, false, Rep(k, true));
  }

  /** The last of the joined list is the last of the second list behind a
      zero: with the second list ending on `z` zeros and `k` ones, the
      joined list ends on `w = z + 1` zeros and `k` ones. */
  lemma JoinLast(a: seq<seq<bool>>, b: seq<seq<bool>>, ms: seq<seq<bool>>, z: nat, w: nat, k: nat)
    requires |b| >= 1 && b[|b| - 1] == Rep(z, false) + Rep(k, true) && w == z + 1
    requires ms == Cons(true, a) + Cons(false, b)
    ensures |ms| >= 1 && ms[|ms| - 1] == Rep(w, false) + Rep(k, true)
  {
    var front, back := Cons(true, a), Cons(false, b);
    assert ms[|ms| - 1] == back[|back| - 1] == [false] + b[|b| - 1];
    ZeroFront(b[|b| - 1], z, w, k);
  }

  /** Every mask has length `n` and `k` ones. */
  lemma {:induction false} MasksOnes(n: nat, k: nat)
    requires k <= n
    ensures forall i :: 0 <= i < |Masks(n, k)| ==> |Masks(n, k)[i]| == n && Ones(Masks(n, k)[i]) == k
    decreases n
  {
    var ms := Masks(n, k);
    if k == 0 {
      OnesRep(n, false);
    } else if k == n {
      OnesRep(n, true);
    } else {
      var front := Cons(true, Masks(n - 1, k - 1));
      MasksOnes(n - 1, k - 1);
      MasksOnes(n - 1, k);
      forall i | 0 <= i < |ms| ensures |ms[i]| == n && Ones(ms[i]) == k {
        if i < |front| {
          assert ms[i] == [true] + Masks(n - 1, k - 1)[i];
        } else {
          assert ms[i] == [false] + Masks(n - 1, k)[i - |front|];
        }
      }
    }
  }

  lemma {:induction false} OnesBounds(b: seq<bool>)
    ensures Ones(b) <= |b|
    ensures Ones(b) == 0 ==> b == Rep(|b|, false)
    ensures Ones(b) == |b| ==> b == Rep(|b|, true)
    decreases |b|
  {
    if b != [] {
      OnesBounds(b[1..]);
      assert b == [b[0]] + b[1..];
    }
  }

  /** A mask listed in `ms` is listed behind `x` in `Cons(x, ms)`. */
  lemma InCons(x: bool, ms: seq<seq<bool>>, m: seq<bool>)
    requires m in ms
    ensures [x] + m in Cons(x, ms)
  {
    var i :| 0 <= i < |ms| && ms[i] == m;
    assert Cons(x, ms)[i] == [x] + m;
  }

  /** Every mask of length `n` with `k` ones is among the masks. */
  lemma {:induction false} MasksComplete(n: nat, k: nat, m: seq<bool>)
    requires k <= n && |m| == n && Ones(m) == k
    ensures m in Masks(n, k)
    decreases n
  {
    if 0 < k < n {
      var n', k' := n - 1, k - 1;
      var t := m[1..];
      assert m == [m[0]] + t;
      assert Ones(m) == (if m[0] then 1 else 0) + Ones(t);
      OnesBounds(t);
      MasksSplit(n, k, n', k');
      if m[0] {
        MasksComplete(n', k', t);
        InCons(true, Masks(n', k'), t);
      } else {
        MasksComplete(n', k, t);
        InCons(false, Masks(n', k), t);
      }
    } else {
      OnesBounds(m);
    }
  }

  /** No mask is listed twice. */
  lemma {:induction false} MasksDistinct(n: nat, k: nat)
    requires k <= n
    ensures forall i, j :: 0 <= i < j < |Masks(n, k)| ==> Masks(n, k)[i] != Masks(n, k)[j]
    decreases n
  {
    if 0 < k < n {
      MasksDistinct(n - 1, k - 1);
      MasksDistinct(n - 1, k);
      JoinDistinct(Masks(n - 1, k - 1), Masks(n - 1, k));
    }
  }

  /** Lists without repeats, one behind a one and one behind a zero, join without repeats. */
  lemma JoinDistinct(a: seq<seq<bool>>, b: seq<seq<bool>>)
    requires forall i, j :: 0 <= i < j < |a| ==> a[i] != a[j]
    requires forall i, j :: 0 <= i < j < |b| ==> b[i] != b[j]
    ensures var ms := Cons(true, a) + Cons(false, b);
      forall i, j :: 0 <= i < j < |ms| ==> ms[i] != ms[j]
  {
    var front := Cons(true, a);
    var ms := front + Cons(false, b);
    forall i, j | 0 <= i < j < |ms| ensures ms[i] != ms[j] {
      if j < |front| {
        assert ms[i][1..] == a[i] && ms[j][1..] == a[j];
      } else if i >= |front| {
        assert ms[i][1..] == b[i - |front|] && ms[j][1..] == b[j - |front|];
      } else {
        assert ms[i][0] && !ms[j][0];
      }
    }
  }

  // ---------------------------------------------------------------------
  // Stepping the bitmask

  /** A zero, then the largest arrangement of `o` ones and `z` zeros. */
  function Largest(z: nat, o: nat): seq<bool> {
    [false] + (Rep(o, true) + Rep(z, false))
  }

  /** `std::prev_permutation` on a mask: the next smaller arrangement of the
      same ones and zeros in lexicographic order (a zero below a one), or
      `None` when the mask is already the smallest one, zeros first. With
      the tail already smallest, the head must drop from one to zero and
      the tail becomes the largest arrangement of what is left. */
  function PrevPerm(b: seq<bool>): Option<seq<bool>>
    decreases |b|
  {
    if b == [] then None else PrevPermStep(b[0], b[1..], PrevPerm(b[1..]))
  }

  /** One step of `PrevPerm` on head `x` and tail `r`, given the result on the tail. */
  function PrevPermStep(x: bool, r: seq<bool>, tail: Option<seq<bool>>): Option<seq<bool>> {
    if tail.Some? then Some([x] + tail.value)
    else if x && Ones(r) < |r| then Some(Largest(|r| - 1 - Ones(r), Ones(r) + 1))
    else None
  }

  /** A lexicographically smaller arrangement: equal up to a position
      where `c` has a zero and `b` a one. */
  ghost predicate LexBelow(c: seq<bool>, b: seq<bool>) {
    exists i :: 0 <= i < |c| && i < |b| && c[..i] == b[..i] && !c[i] && b[i]
  }

  /** The stepped mask keeps the length and the ones, and is smaller. */
  lemma {:induction false} PrevPermSmaller(b: seq<bool>)
    ensures PrevPerm(b).Some? ==>
      |PrevPerm(b).value| == |b| && Ones(PrevPerm(b).value) == Ones(b) && LexBelow(PrevPerm(b).value, b)
    decreases |b|
  {
    if b != [] {
      PrevPermSmaller(b[1..]);
      if PrevPerm(b[1..]).Some? {
        SmallerKeepHead(b);
      } else if b[0] && Ones(b[1..]) < |b| - 1 {
        SmallerDropHead(b);
      }
    }
  }

  /** When the tail steps, the head stays and the mask is smaller at the same place. */
  lemma SmallerKeepHead(b: seq<bool>)
    requires b != [] && PrevPerm(b[1..]).Some?
    requires var r := PrevPerm(b[1..]).value; |r| == |b| - 1 && Ones(r) == Ones(b[1..]) && LexBelow(r, b[1..])
    ensures PrevPerm(b).Some?
    ensures var c := PrevPerm(b).value; |c| == |b| && Ones(c) == Ones(b) && LexBelow(c, b)
  {
    var r, t := PrevPerm(b[1..]).value, b[1..];
    assert PrevPerm(b) == PrevPermStep(b[0], t, PrevPerm(t)) == Some([b[0]] + r);
    assert b == [b[0]] + t;
    OnesCons(b[0], r);
    OnesCons(b[0], t);
    LexCons(b[0], r, t);
  }

  lemma OnesCons(x: bool, r: seq<bool>)
    ensures Ones([x] + r) == (if x then 1 else 0) + Ones(r)
  {
    assert ([x] + r)[1..] == r;
  }

  /** The same head keeps a smaller tail smaller. */
  lemma LexCons(x: bool, r: seq<bool>, t: seq<bool>)
    requires LexBelow(r, t)
    ensures LexBelow([x] + r, [x] + t)
  {
    var i :| 0 <= i < |r| && i < |t| && r[..i] == t[..i] && !r[i] && t[i];
    var c, d := [x] + r, [x] + t;
    assert c[..i + 1] == [x] + r[..i] && d[..i + 1] == [x] + t[..i];
    assert c[i + 1] == r[i] && d[i + 1] == t[i];
  }

  /** When the tail is smallest, the head drops from one to zero. */
  lemma SmallerDropHead(b: seq<bool>)
    requires b != [] && PrevPerm(b[1..]).None? && b[0] && Ones(b[1..]) < |b| - 1
    ensures PrevPerm(b).Some?
    ensures var c := PrevPerm(b).value; |c| == |b| && Ones(c) == Ones(b) && LexBelow(c, b)
  {
    var t := b[1..];
    var o := Ones(t);
    var c := Largest(|t| - 1 - o, o + 1);
    assert PrevPerm(b) == PrevPermStep(b[0], t, None) == Some(c);
    OnesLargest(|t| - 1 - o, o + 1);
    assert Ones(b) == 1 + o;
    assert c[..0] == b[..0] && !c[0];
  }

  /** The largest arrangement behind a zero has its `o` ones. */
  lemma OnesLargest(z: nat, o: nat)
    ensures |Largest(z, o)| == z + o + 1 && Ones(Largest(z, o)) == o
  {
    var tail := Rep(o, true) + Rep(z, false);
    OnesCons(false, tail);
    OnesAppend(Rep(o, true), Rep(z, false));
    OnesRep(o, true);
    OnesRep(z, false);
  }

  /** The smallest arrangement, zeros first, has no predecessor. */
  lemma {:induction false} Smallest(z: nat, o: nat)
    ensures PrevPerm(Rep(z, false) + Rep(o, true)) == None
    decreases z + o
  {
    var b := Rep(z, false) + Rep(o, true);
    if z > 0 {
      assert b[1..] == Rep(z - 1, false) + Rep(o, true);
      Smallest(z - 1, o);
    } else if o > 0 {
      assert b == Rep(o, true);
      assert b[1..] == Rep(0, false) + Rep(o - 1, true);
      Smallest(0, o - 1);
      OnesRep(o - 1, true);
    }
  }

  /** `PrevPerm` on a mask with head `x` and tail `r`. */
  lemma PrevPermCons(x: bool, r: seq<bool>)
    ensures PrevPerm([x] + r) == PrevPermStep(x, r, PrevPerm(r))
  {
    assert ([x] + r)[1..] == r;
  }

  /** Stepping mask `j` of `ms` yields mask `j + 1`, or nothing after the
      last one. */
  ghost predicate Linked(ms: seq<seq<bool>>, j: nat)
    requires j < |ms|
  {
    PrevPerm(ms[j]) == if j + 1 < |ms| then Some(ms[j + 1]) else None
  }

  /** Stepping each mask of `ms` from mask `i` on yields the next one,
      and stepping the last one reports that there is none. */
  ghost predicate ChainFrom(ms: seq<seq<bool>>, i: nat)
    decreases |ms| - i
  {
    i < |ms| ==> Linked(ms, i) && ChainFrom(ms, i + 1)
  }

  /** Stepping each mask of `ms` yields the next one, and stepping the
      last one reports that there is none. */
  ghost predicate Chain(ms: seq<seq<bool>>) {
    ChainFrom(ms, 0)
  }

  /** Every mask of a chain from mask `i` on is linked to the next. */
  lemma {:induction false} ChainAt(ms: seq<seq<bool>>, i: nat, j: nat)
    requires ChainFrom(ms, i) && i <= j < |ms|
    ensures Linked(ms, j)
    decreases j - i
  {
    if i < j {
      ChainAt(ms, i + 1, j);
    }
  }

  /** Stepping a mask yields the next mask of the list, and stepping the
      last one reports that there is none. */
  lemma {:induction false} MasksStep(n: nat, k: nat)
    requires k <= n
    ensures Chain(Masks(n, k))
    decreases n, 1
  {
    if k == 0 || k == n {
      Single(n - k, k);
    } else {
      JoinMasks(n, k);
    }
  }

  /** The chains of the masks behind a leading one and behind a leading
      zero join into the chain of all masks. */
  lemma {:induction false} JoinMasks(n: nat, k: nat)
    requires 0 < k < n
    ensures Chain(Masks(n, k))
    decreases n, 0
  {
    var m, j := n - 1, k - 1;
    MasksStep(m, j);
    MasksStep(m, k);
    MasksAcross(m, j, k);
    ChainJoin(Masks(m, j), Masks(m, k));
    MasksSplit(n, k, m, j);
  }

  /** The masks with a first position and some ones and zeros: those with
      a one in front, then those with a zero in front. */
  lemma MasksSplit(n: nat, k: nat, m: nat, j: nat)
    requires 0 < k < n && m == n - 1 && j == k - 1
    ensures Masks(n, k) == Cons(true, Masks(m, j)) + Cons(false, Masks(m, k))
  {
    assert Masks(m, j) == Masks(n - 1, k - 1) && Masks(m, k) == Masks(n - 1, k);
    assert Masks(n, k) == Cons(true, Masks(n - 1, k - 1)) + Cons(false, Masks(n - 1, k));
  }

  /** The last mask of `j` ones behind a one steps to the first mask of
      `k = j + 1` ones behind a zero, both over `m` positions. */
  lemma MasksAcross(m: nat, j: nat, k: nat)
    requires j < m && k == j + 1
    ensures |Masks(m, j)| >= 1 && |Masks(m, k)| >= 1
    ensures PrevPerm([true] + Masks(m, j)[|Masks(m, j)| - 1]) == Some([false] + Masks(m, k)[0])
  {
    MasksLast(m, j);
    MasksFirst(m, k);
    EndsAcross(Masks(m, j)[|Masks(m, j)| - 1], Masks(m, k)[0], m - j, j, m - k, k);
  }

  /** Two chains joined behind a leading one and a leading zero, where the
      last of the first steps to the first of the second, form a chain. */
  lemma ChainJoin(a: seq<seq<bool>>, b: seq<seq<bool>>)
    requires Chain(a) && Chain(b) && |a| >= 1 && |b| >= 1
    requires PrevPerm([true] + a[|a| - 1]) == Some([false] + b[0])
    ensures Chain(Cons(true, a) + Cons(false, b))
  {
    JoinFrom(a, b, Cons(true, a) + Cons(false, b), 0);
  }

  /** The joined list is a chain from each of its masks on. */
  lemma {:induction false} JoinFrom(a: seq<seq<bool>>, b: seq<seq<bool>>, ms: seq<seq<bool>>, i: nat)
    requires Chain(a) && Chain(b) && |a| >= 1 && |b| >= 1
    requires PrevPerm([true] + a[|a| - 1]) == Some([false] + b[0])
    requires ms == Cons(true, a) + Cons(false, b) && i <= |ms|
    ensures ChainFrom(ms, i)
    decreases |ms| - i
  {
    if i < |ms| {
      JoinFrom(a, b, ms, i + 1);
      JoinLinked(a, b, ms, i);
    }
  }

  /** Mask `j` of the joined list is linked to the next: inside either half
      by the chain of that half, and across by the step from the last of
      the first half to the first of the second. */
  lemma JoinLinked(a: seq<seq<bool>>, b: seq<seq<bool>>, ms: seq<seq<bool>>, j: nat)
    requires Chain(a) && Chain(b) && |a| >= 1 && |b| >= 1
    requires PrevPerm([true] + a[|a| - 1]) == Some([false] + b[0])
    requires ms == Cons(true, a) + Cons(false, b) && j < |ms|
    ensures Linked(ms, j)
  {
    if j + 1 < |a| {
      ChainAt(a, 0, j);
      assert ms[j] == [true] + a[j] && ms[j + 1] == [true] + a[j + 1];
      PrevPermCons(true, a[j]);
    } else if j + 1 == |a| {
      assert ms[j] == [true] + a[j] && ms[j + 1] == [false] + b[0];
    } else {
      var i := j - |a|;
      ChainAt(b, 0, i);
      assert ms[j] == [false] + b[i];
      PrevPermCons(false, b[i]);
      if j + 1 < |ms| {
        assert ms[j + 1] == [false] + b[i + 1];
      }
    }
  }

  /** The smallest arrangement of `z'` zeros and `o` ones behind a one
      steps to the largest arrangement of `o'` ones and `z` zeros behind a
      zero, where `z' = z + 1` and `o' = o + 1`. */
  lemma EndsAcross(last: seq<bool>, first: seq<bool>, z': nat, o: nat, z: nat, o': nat)
    requires z' == z + 1 && o' == o + 1
    requires last == Rep(z', false) + Rep(o, true)
    requires first == Rep(o', true) + Rep(z, false)
    ensures PrevPerm([true] + last) == Some([false] + first)
  {
    StepAcross(z', o, z, o');
  }

  /** With no ones or no zeros there is a single mask, which has no
      predecessor. */
  lemma Single(z: nat, o: nat)
    requires z == 0 || o == 0
    ensures Chain(Masks(z + o, o))
  {
    Smallest(z, o);
    var m := Rep(z, false) + Rep(o, true);
    if o == 0 {
      assert m == Rep(z, false);
    } else {
      assert m == Rep(o, true);
    }
    assert Masks(z + o, o) == [m];
    assert Linked([m], 0);
  }

  /** From the smallest arrangement behind a one to the largest behind a
      zero. */
  lemma StepAcross(z: nat, o: nat, z': nat, o': nat)
    requires z == z' + 1 && o' == o + 1
    ensures PrevPerm([true] + (Rep(z, false) + Rep(o, true))) == Some(Largest(z', o'))
  {
    var last := Rep(z, false) + Rep(o, true);
    OnesSmallest(z, o);
    Smallest(z, o);
    PrevPermCons(true, last);
  }

  lemma OnesSmallest(z: nat, o: nat)
    ensures Ones(Rep(z, false) + Rep(o, true)) == o
  {
    OnesAppend(Rep(z, false), Rep(o, true));
    OnesRep(z, false);
    OnesRep(o, true);
  }

  // ---------------------------------------------------------------------
  // From masks to split points

  /** Strictly increasing. */
  predicate Increasing(c: seq<nat>) {
    forall i, j :: 0 <= i < j < |c| ==> c[i] < c[j]
  }

  /** The positions of the ones of `mask`, from left to right. */
  function Positions(mask: seq<bool>): (ps: seq<nat>)
    ensures Increasing(ps)
    ensures forall i :: 0 <= i < |ps| ==> ps[i] < |mask| && mask[ps[i]]
    ensures forall i :: 0 <= i < |mask| && mask[i] ==> i in ps
    decreases |mask|
  {
    if mask == [] then []
    else
      var last := |mask| - 1;
      var front := mask[..last];
      assert forall i :: 0 <= i < last ==> front[i] == mask[i];
      Positions(front) + (if mask[last] then [last] else [])
  }

  /** One position per one. */
  lemma {:induction false} PositionsCount(mask: seq<bool>)
    ensures |Positions(mask)| == Ones(mask)
    decreases |mask|
  {
    if mask != [] {
      var last := |mask| - 1;
      PositionsCount(mask[..last]);
      assert mask == mask[..last] + [mask[last]];
      OnesAppend(mask[..last], [mask[last]]);
      assert [mask[last]][1..] == [];
    }
  }

  /** Two increasing sequences with the same elements are equal. */
  lemma {:induction false} IncreasingUnique(c: seq<nat>, d: seq<nat>)
    requires Increasing(c) && Increasing(d)
    requires forall x :: x in c <==> x in d
    ensures c == d
    decreases |c|
  {
    if c != [] {
      assert c[0] in d;
    }
    if d != [] {
      assert d[0] in c;
    }
    if c != [] {
      assert c[0] == d[0] by {
        assert c[0] in d && d[0] in c;
      }
      forall x ensures x in c[1..] <==> x in d[1..] {
        if x in c[1..] {
          assert x in d && x != d[0];
        }
        if x in d[1..] {
          assert x in c && x != c[0];
        }
      }
      IncreasingUnique(c[1..], d[1..]);
      assert c == [c[0]] + c[1..] && d == [d[0]] + d[1..];
    }
  }

  /** Every increasing sequence of positions below `n` lists the ones of a
      mask of length `n`. */
  lemma PositionsOf(c: seq<nat>, n: nat)
    requires Increasing(c) && forall i :: 0 <= i < |c| ==> c[i] < n
    ensures |seq(n, i => i in c)| == n && Positions(seq(n, i => i in c)) == c
  {
    var mask := seq(n, i => i in c);
    IncreasingUnique(Positions(mask), c);
  }

  /** The split points of each mask. */
  function PositionsAll(ms: seq<seq<bool>>): (cs: seq<seq<nat>>)
    ensures |cs| == |ms| && forall i :: 0 <= i < |ms| ==> cs[i] == Positions(ms[i])
  {
    seq(|ms|, i requires 0 <= i < |ms| => Positions(ms[i]))
  }

  /** The k-element subsets of `[0, n)`, each as its increasing list of
      elements, in the order `getCombs` lists them. */
  function Combs(n: nat, k: nat): seq<seq<nat>>
    requires k <= n
  {
    PositionsAll(Masks(n, k))
  }

  /** The masks of length `n` with `k` ones, each exactly once. */
  ghost predicate AllMasks(ms: seq<seq<bool>>, n: nat, k: nat) {
    && (forall i :: 0 <= i < |ms| ==> |ms[i]| == n && Ones(ms[i]) == k)
    && (forall i, j :: 0 <= i < j < |ms| ==> ms[i] != ms[j])
    && (forall m: seq<bool> :: |m| == n && Ones(m) == k ==> m in ms)
  }

  lemma MasksAll(n: nat, k: nat)
    requires k <= n
    ensures AllMasks(Masks(n, k), n, k)
  {
    MasksOnes(n, k);
    MasksDistinct(n, k);
    forall m: seq<bool> | |m| == n && Ones(m) == k ensures m in Masks(n, k) {
      MasksComplete(n, k, m);
    }
  }

  /** Increasing, `k` long and below `n`: a k-element subset of `[0, n)`. */
  predicate Subset(c: seq<nat>, n: nat, k: nat) {
    Increasing(c) && |c| == k && forall x :: 0 <= x < |c| ==> c[x] < n
  }

  /** The split points of masks of length `n` with `k` ones are k-element
      subsets of `[0, n)`. */
  lemma PositionsAllShape(ms: seq<seq<bool>>, n: nat, k: nat)
    requires forall i :: 0 <= i < |ms| ==> |ms[i]| == n && Ones(ms[i]) == k
    ensures forall i :: 0 <= i < |ms| ==> Subset(PositionsAll(ms)[i], n, k)
  {
    forall i | 0 <= i < |ms| ensures Subset(PositionsAll(ms)[i], n, k) {
      PositionsCount(ms[i]);
    }
  }

  /** Masks of one length with the same split points are equal. */
  lemma PositionsInjective(m1: seq<bool>, m2: seq<bool>)
    requires |m1| == |m2| && Positions(m1) == Positions(m2)
    ensures m1 == m2
  {
    forall x | 0 <= x < |m1| ensures m1[x] == m2[x] {
      if m1[x] {
        assert x in Positions(m2);
      }
      if m2[x] {
        assert x in Positions(m1);
      }
    }
  }

  /** Distinct masks of one length have distinct split points. */
  lemma PositionsAllDistinct(ms: seq<seq<bool>>, n: nat)
    requires forall i :: 0 <= i < |ms| ==> |ms[i]| == n
    requires forall i, j :: 0 <= i < j < |ms| ==> ms[i] != ms[j]
    ensures forall i, j :: 0 <= i < j < |ms| ==> PositionsAll(ms)[i] != PositionsAll(ms)[j]
  {
    forall i, j | 0 <= i < j < |ms| ensures PositionsAll(ms)[i] != PositionsAll(ms)[j] {
      if Positions(ms[i]) == Positions(ms[j]) {
        PositionsInjective(ms[i], ms[j]);
      }
    }
  }

  /** When every mask of length `n` with `k` ones is listed, every
      k-element subset of `[0, n)` is among their split points. */
  lemma PositionsAllComplete(ms: seq<seq<bool>>, n: nat, k: nat)
    requires forall m: seq<bool> :: |m| == n && Ones(m) == k ==> m in ms
    ensures forall c: seq<nat> :: Subset(c, n, k) ==> c in PositionsAll(ms)
  {
    var cs := PositionsAll(ms);
    forall c: seq<nat> | Subset(c, n, k) ensures c in cs {
      var m := seq(n, i => i in c);
      PositionsOf(c, n);
      PositionsCount(m);
      assert m in ms;
      var i :| 0 <= i < |ms| && ms[i] == m;
      assert cs[i] == c;
    }
  }

  /** The first subset listed is the `k` smallest positions. */
  lemma CombsFirst(n: nat, k: nat)
    requires k <= n
    ensures |Combs(n, k)| >= 1 && Combs(n, k)[0] == seq(k, i => i)
  {
    MasksFirst(n, k);
    var m := Masks(n, k)[0];
    var r: seq<nat> := seq(k, i => i);
    forall x: nat ensures x in Positions(m) <==> x in r {
      if x < k {
        assert m[x] && r[x] == x;
      }
    }
    IncreasingUnique(Positions(m), r);
  }

  /** Each k-element subset of `[0, n)` is listed exactly once. */
  lemma CombsSubsets(n: nat, k: nat)
    requires k <= n
    ensures forall i :: 0 <= i < |Combs(n, k)| ==> Subset(Combs(n, k)[i], n, k)
    ensures forall i, j :: 0 <= i < j < |Combs(n, k)| ==> Combs(n, k)[i] != Combs(n, k)[j]
    ensures forall c: seq<nat> :: Subset(c, n, k) ==> c in Combs(n, k)
  {
    var ms := Masks(n, k);
    MasksAll(n, k);
    PositionsAllShape(ms, n, k);
    PositionsAllDistinct(ms, n);
    PositionsAllComplete(ms, n, k);
  }

  // ---------------------------------------------------------------------
  // getCombs

  /** The loop over the mask that collects the positions of its ones. */
  method Splits(mask: seq<bool>) returns (splits: seq<nat>)
    ensures splits == Positions(mask)
  {
    splits := [];
    for i := 0 to |mask|
      invariant splits == Positions(mask[..i])
    {
      assert mask[..i + 1][..i] == mask[..i];
      if mask[i] {
        splits := splits + [i];
      }
    }
    assert mask[..|mask|] == mask;
  }

  /** `k` ones resized to `n`: the first mask, with `min(k, n)` ones. */
  lemma ResizeOnes(n: nat, k: nat)
    ensures var k' := if k <= n then k else n;
      k' <= n && |Masks(n, k')| >= 1 && Resize(Rep(k, true), n) == Masks(n, k')[0]
  {
    var k' := if k <= n then k else n;
    MasksFirst(n, k');
    if k <= n {
      assert Resize(Rep(k, true), n) == Rep(k, true) + Rep(n - k, false);
    } else {
      assert Resize(Rep(k, true), n) == Rep(n, true) + Rep(0, false);
    }
  }

  /** One more mask, one more list of split points. */
  lemma PositionsAllNext(ms: seq<seq<bool>>, j: nat)
    requires j < |ms|
    ensures PositionsAll(ms[..j + 1]) == PositionsAll(ms[..j]) + [Positions(ms[j])]
  {
    assert ms[..j + 1][..j] == ms[..j];
  }

  /** The masks `getCombs(n, k)` steps through, from the first one. */
  lemma StepsFrom(n: nat, k: nat) returns (ms: seq<seq<bool>>)
    ensures Chain(ms) && |ms| >= 1 && ms[0] == Resize(Rep(k, true), n)
    ensures PositionsAll(ms) == Combs(n, if k <= n then k else n)
  {
    var k' := if k <= n then k else n;
    ms := Masks(n, k');
    ResizeOnes(n, k);
    MasksStep(n, k');
  }

  /** `getCombs(n, k)`: starting from `k` ones in front (cut to `n`), list
      the positions of the ones of the mask, then step it to the next
      smaller arrangement until there is none. The result lists the
      `min(k, n)`-element subsets of `[0, n)`. */
  method GetCombs(n: nat, k: nat) returns (combs: seq<seq<nat>>)
    ensures combs == Combs(n, if k <= n then k else n)
  {
    var mask := Resize(Rep(k, true), n);
    ghost var ms := StepsFrom(n, k);
    combs := [];
    ghost var j := 0;
    var more := true;
    while more
      invariant 0 <= j <= |ms| && combs == PositionsAll(ms[..j])
      invariant more ==> j < |ms| && mask == ms[j]
      invariant !more ==> j == |ms|
      decreases |ms| - j, more
    {
      var splits := Splits(mask);
      PositionsAllNext(ms, j);
      combs := combs + [splits];
      ChainAt(ms, 0, j);
      var next := PrevPerm(mask);
      j := j + 1;
      if next.Some? {
        mask := next.value;
      } else {
        more := false;
      }
    }
    assert ms[..j] == ms;
  }
}
