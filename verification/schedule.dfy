/** As-soon-as-possible time assignment (`assignTime`): nodes are taken in a
    given order, and each gets the largest time of its predecessors plus a
    delay of its own. Times start out as -1, "unassigned"; meeting an
    unassigned predecessor aborts the program. */
module Schedule {
  import opened Wrappers
  import opened Graphs
  import opened Labels
  import opened Topo

  const Unassigned: int := -1

  /** How a node's own delay is chosen. `Unit`: one step for every node, as
      in the `DFGAnaly` class. `Strided(strideMin)`: as in the free
      functions, a node labelled "load" or "store" whose stride, the integer
      after its first ';', is at least `strideMin` takes no step. */
  datatype Weighting = Unit | Strided(strideMin: int)

  /** The delay of a node labelled `lab`; `None` when its stride does not
      parse (`std::stoi` throws, which ends the program). */
  function Delay(w: Weighting, lab: string): (d: Option<nat>)
    ensures d.Some? ==> d.value <= 1
    ensures w.Unit? ==> d == Some(1)
    ensures d.None? <==> w.Strided? && (Contains(lab, "load") || Contains(lab, "store")) &&
                         Stoi(GroupIdText(lab)).None?
  {
    match w
    case Unit => Some(1)
    case Strided(strideMin) =>
      if Contains(lab, "load") || Contains(lab, "store") then
        match Stoi(GroupIdText(lab))
        case None => None
        case Some(stride) => Some(if stride >= strideMin then 0 else 1)
      else Some(1)
  }

  /** What `assignTime` reads from each node's label: its delay, and
      whether the label contains "load". */
  datatype NodeInfo = NodeInfo(delay: seq<Option<nat>>, isLoad: seq<bool>)

  function Info(g: Graph, w: Weighting): (k: NodeInfo)
    ensures |k.delay| == NumNodes(g) && |k.isLoad| == NumNodes(g)
    ensures forall v :: 0 <= v < NumNodes(g) ==>
      k.delay[v] == Delay(w, g.labels[v]) && (k.isLoad[v] <==> Contains(g.labels[v], "load"))
  {
    NodeInfo(seq(NumNodes(g), v requires 0 <= v < NumNodes(g) => Delay(w, g.labels[v])),
             seq(NumNodes(g), v requires 0 <= v < NumNodes(g) => Contains(g.labels[v], "load")))
  }

  /** `k` describes the nodes of `g`. */
  predicate Fits(g: Graph, k: NodeInfo) {
    |k.delay| == NumNodes(g) && |k.isLoad| == NumNodes(g)
  }

  /** Every node has a delay. */
  predicate DelaysDefined(k: NodeInfo) {
    forall v :: 0 <= v < |k.delay| ==> k.delay[v].Some?
  }

  /** The update `if (max < t) max = t`. */
  function Max2(a: int, b: int): int {
    if a < b then b else a
  }

  /** Every node of `vs` is below `n`. */
  predicate InRange(vs: seq<nat>, n: int) {
    forall i :: 0 <= i < |vs| ==> vs[i] < n
  }

  /** The largest time among the nodes `vs`, and 0 when there are none. */
  function MaxOf(times: seq<int>, vs: seq<nat>): int
    requires InRange(vs, |times|)
  {
    if vs == [] then 0 else Max2(times[vs[0]], MaxOf(times, vs[1..]))
  }

  /** The predecessor loop: `max` is the largest time seen so far; `None`
      when a predecessor is still unassigned. */
  function PredMax(times: seq<int>, preds: seq<nat>, max: int): Option<int>
    requires InRange(preds, |times|)
  {
    if preds == [] then Some(max)
    else if times[preds[0]] == Unassigned then None
    else PredMax(times, preds[1..], Max2(max, times[preds[0]]))
  }

  /** What `assignTime` carries from node to node: the times, the largest
      time so far, and (in the `DFGAnaly` version) the number of "load"
      nodes given time 1. */
  datatype Sched = Sched(times: seq<int>, timeMax: int, loadsAtOne: nat)

  function Init(g: Graph): (s: Sched)
    ensures |s.times| == NumNodes(g)
  {
    Sched(seq(NumNodes(g), _ => Unassigned), 0, 0)
  }

  function PredsOf(g: Graph, v: nat): (ps: seq<nat>)
    requires WellFormed(g) && v < NumNodes(g)
    ensures ps == Preds(g, v)
    ensures InRange(ps, NumNodes(g))
  {
    var ps := Preds(g, v);
    assert InRange(ps, NumNodes(g)) by {
      forall i | 0 <= i < |ps| ensures ps[i] < NumNodes(g) {
        PredsBounded(g, ps[i], v);
      }
    }
    ps
  }

  /** One node `n` of the order. */
  function Step(g: Graph, k: NodeInfo, s: Sched, n: nat): (r: Option<Sched>)
    requires WellFormed(g) && Fits(g, k) && |s.times| == NumNodes(g) && n < NumNodes(g)
    ensures r.Some? ==> |r.value.times| == |s.times|
  {
    match PredMax(s.times, PredsOf(g, n), 0)
    case None => None
    case Some(m) =>
      match k.delay[n]
      case None => None
      case Some(d) => Some(Place(s, n, m + d, k.isLoad[n]))
  }

  /** Node `n`, a "load" node when `isLoad`, gets time `t`. */
  function Place(s: Sched, n: nat, t: int, isLoad: bool): (r: Sched)
    requires n < |s.times|
    ensures |r.times| == |s.times| && r.times[n] == t
    ensures forall v :: 0 <= v < |s.times| && v != n ==> r.times[v] == s.times[v]
  {
    Sched(s.times[n := t], Max2(s.timeMax, t),
          if t == 1 && isLoad then s.loadsAtOne + 1 else s.loadsAtOne)
  }

  /** The rest `order` of the outer loop, from state `s`. */
  function Run(g: Graph, k: NodeInfo, s: Sched, order: seq<nat>): Option<Sched>
    requires WellFormed(g) && Fits(g, k) && |s.times| == NumNodes(g)
    requires InRange(order, NumNodes(g))
    decreases |order|
  {
    if order == [] then Some(s)
    else
      match Step(g, k, s, order[0])
      case None => None
      case Some(s') => Run(g, k, s', order[1..])
  }

  /** `assignTime` over `order`, from all times unassigned. */
  function Schedule(g: Graph, w: Weighting, order: seq<nat>): Option<Sched>
    requires WellFormed(g) && InRange(order, NumNodes(g))
  {
    Run(g, Info(g, w), Init(g), order)
  }

  // ---------------------------------------------------------------------
  // What a schedule means

  /** Node `v`'s time is the largest time of its predecessors, 0 when it
      has none, plus its own delay. */
  ghost predicate Fixed(g: Graph, k: NodeInfo, times: seq<int>, v: nat) {
    v < |times| && v < |k.delay| && InRange(Preds(g, v), |times|) &&
    k.delay[v].Some? && times[v] == MaxOf(times, Preds(g, v)) + k.delay[v].value
  }

  /** `times` is an as-soon-as-possible schedule of `g` with delays `k`. */
  ghost predicate Asap(g: Graph, k: NodeInfo, times: seq<int>) {
    |times| == NumNodes(g) && forall v: nat :: v < |times| ==> Fixed(g, k, times, v)
  }

  /** `m` is the larger of 0 and every time in `times`. */
  ghost predicate IsTimeMax(times: seq<int>, m: int) {
    m >= 0 && (forall v :: 0 <= v < |times| ==> times[v] <= m) &&
    (m == 0 || exists v :: 0 <= v < |times| && times[v] == m)
  }

  /** The nodes labelled "load" whose time is 1. */
  ghost function LoadsAtOne(k: NodeInfo, times: seq<int>): set<nat> {
    set v: nat | v < |times| && times[v] == 1 && v < |k.isLoad| && k.isLoad[v]
  }

  /** Every node of `order` comes after all of its predecessors. */
  ghost predicate PredsFirst(g: Graph, order: seq<nat>) {
    forall i, p :: 0 <= i < |order| && p in Preds(g, order[i]) ==> p in order[..i]
  }

  /** For a node order, predecessors first and edges forward are the same. */
  lemma {:induction false} PredsFirstForward(g: Graph, order: seq<nat>)
    requires WellFormed(g) && IsNodeOrder(g, order)
    ensures PredsFirst(g, order) <==> EdgesForward(g, order)
  {
    if PredsFirst(g, order) {
      forall i, j | 0 <= i < |order| && 0 <= j < |order| && order[j] in Succs(g, order[i])
        ensures i < j
      {
        SuccPredConverse(g, order[i], order[j]);
        assert order[i] in order[..j];
        var q :| 0 <= q < j && order[q] == order[i];
        assert q == i;
      }
    }
    if EdgesForward(g, order) {
      forall i, p | 0 <= i < |order| && p in Preds(g, order[i])
        ensures p in order[..i]
      {
        SuccPredConverse(g, p, order[i]);
        PredsBounded(g, p, order[i]);
        assert p in order;
        var q :| 0 <= q < |order| && order[q] == p;
        assert order[..i][q] == p;
      }
    }
  }

  /** The largest time is at least every time of `vs` and at least 0, and
      it is 0 or one of those times. */
  lemma {:induction false} MaxOfBounds(times: seq<int>, vs: seq<nat>)
    requires InRange(vs, |times|)
    ensures MaxOf(times, vs) >= 0
    ensures forall v :: v in vs ==> times[v] <= MaxOf(times, vs)
    ensures MaxOf(times, vs) == 0 || exists v :: v in vs && times[v] == MaxOf(times, vs)
  {
    if vs != [] {
      MaxOfBounds(times, vs[1..]);
      assert forall v :: v in vs ==> v == vs[0] || v in vs[1..];
    }
  }

  /** The largest time depends only on the times of `vs`. */
  lemma {:induction false} MaxOfAgree(t1: seq<int>, t2: seq<int>, vs: seq<nat>)
    requires InRange(vs, |t1|) && InRange(vs, |t2|)
    requires forall i :: 0 <= i < |vs| ==> t1[vs[i]] == t2[vs[i]]
    ensures MaxOf(t1, vs) == MaxOf(t2, vs)
  {
    if vs != [] {
      MaxOfAgree(t1, t2, vs[1..]);
    }
  }

  /** The predecessor loop aborts exactly when a predecessor is unassigned,
      and otherwise yields the larger of its start and the largest time. */
  lemma {:induction false} PredMaxValue(times: seq<int>, preds: seq<nat>, max: int)
    requires InRange(preds, |times|) && max >= 0
    ensures PredMax(times, preds, max).None? <==>
      exists i :: 0 <= i < |preds| && times[preds[i]] == Unassigned
    ensures PredMax(times, preds, max).Some? ==>
      PredMax(times, preds, max).value == Max2(max, MaxOf(times, preds))
  {
    if preds != [] {
      PredMaxValue(times, preds[1..], Max2(max, times[preds[0]]));
      assert forall i :: 0 < i < |preds| ==> preds[i] == preds[1..][i - 1];
    }
  }

  // ---------------------------------------------------------------------
  // The outer loop

  /** No node occurs twice. */
  ghost predicate Distinct(s: seq<nat>) {
    forall i, j :: 0 <= i < j < |s| ==> s[i] != s[j]
  }

  /** Every node of `vs` has a delay. */
  ghost predicate DelaysOf(k: NodeInfo, vs: seq<nat>) {
    forall i :: 0 <= i < |vs| && vs[i] < |k.delay| ==> k.delay[vs[i]].Some?
  }

  /** Exactly the nodes of `done` have times, and those are not negative. */
  ghost predicate Marked(times: seq<int>, done: seq<nat>) {
    InRange(done, |times|) &&
    (forall v :: 0 <= v < |times| && v !in done ==> times[v] == Unassigned) &&
    (forall i :: 0 <= i < |done| ==> times[done[i]] >= 0)
  }

  /** Every node of `done` follows its predecessors and obeys its equation. */
  ghost predicate Sound(g: Graph, k: NodeInfo, done: seq<nat>, times: seq<int>) {
    PredsFirst(g, done) && forall i :: 0 <= i < |done| ==> Fixed(g, k, times, done[i])
  }

  /** `timeMax` and `loadsAtOne` are what they say. */
  ghost predicate Tallied(k: NodeInfo, s: Sched) {
    IsTimeMax(s.times, s.timeMax) && s.loadsAtOne == |LoadsAtOne(k, s.times)|
  }

  /** The state after the nodes `done`. */
  ghost predicate Scheduled(g: Graph, k: NodeInfo, done: seq<nat>, s: Sched) {
    Fits(g, k) && |s.times| == NumNodes(g) && Marked(s.times, done) &&
    Sound(g, k, done, s.times) && Tallied(k, s)
  }

  lemma InitScheduled(g: Graph, k: NodeInfo)
    requires Fits(g, k)
    ensures Scheduled(g, k, [], Init(g))
  {
    var s := Init(g);
    assert LoadsAtOne(k, s.times) == {} by {
      forall v: nat | v < |s.times| ensures s.times[v] != 1 { }
    }
  }

  /** One step: it succeeds exactly when the predecessors of `n` all have
      times and `n` has a delay, and then `done + [n]` is scheduled. */
  lemma StepKeeps(g: Graph, k: NodeInfo, done: seq<nat>, s: Sched, n: nat)
    requires WellFormed(g) && Scheduled(g, k, done, s) && n < NumNodes(g) && n !in done
    ensures Step(g, k, s, n).Some? <==>
      (forall p :: p in Preds(g, n) ==> p in done) && k.delay[n].Some?
    ensures Step(g, k, s, n).Some? ==> Scheduled(g, k, done + [n], Step(g, k, s, n).value)
  {
    var ps := PredsOf(g, n);
    PredMaxMarked(s.times, done, ps);
    if Step(g, k, s, n).Some? {
      var t := MaxOf(s.times, ps) + k.delay[n].value;
      assert Step(g, k, s, n).value == Place(s, n, t, k.isLoad[n]);
      StepSound(g, k, done, s.times, n, t);
      StepTimeMax(s.times, s.timeMax, n, t);
      StepLoads(k, s.times, n, t);
    }
  }

  /** Over the marked nodes `done`, the predecessor loop succeeds exactly
      when every predecessor is in `done`, with the largest of their times. */
  lemma PredMaxMarked(times: seq<int>, done: seq<nat>, ps: seq<nat>)
    requires Marked(times, done) && InRange(ps, |times|)
    ensures PredMax(times, ps, 0).Some? <==> forall p :: p in ps ==> p in done
    ensures PredMax(times, ps, 0).Some? ==>
      PredMax(times, ps, 0).value == MaxOf(times, ps) && MaxOf(times, ps) >= 0
  {
    PredMaxValue(times, ps, 0);
    MaxOfBounds(times, ps);
    if PredMax(times, ps, 0).None? {
      var i :| 0 <= i < |ps| && times[ps[i]] == Unassigned;
      assert ps[i] in ps && ps[i] !in done;
    } else {
      forall p | p in ps ensures p in done {
        var i :| 0 <= i < |ps| && ps[i] == p;
      }
    }
  }

  /** Giving `n` its time keeps every scheduled node's equation and adds
      the one of `n`. */
  lemma StepSound(g: Graph, k: NodeInfo, done: seq<nat>, times: seq<int>, n: nat, t: int)
    requires WellFormed(g) && Fits(g, k) && |times| == NumNodes(g)
    requires Marked(times, done) && Sound(g, k, done, times) && n < NumNodes(g) && n !in done
    requires forall p :: p in Preds(g, n) ==> p in done
    requires k.delay[n].Some? && MaxOf(times, PredsOf(g, n)) >= 0
    requires t == MaxOf(times, PredsOf(g, n)) + k.delay[n].value
    ensures Marked(times[n := t], done + [n]) && Sound(g, k, done + [n], times[n := t])
  {
    var times' := times[n := t];
    var done' := done + [n];
    forall i | 0 <= i < |done'| ensures times'[done'[i]] >= 0 && Fixed(g, k, times', done'[i]) {
      var v := done'[i];
      var ps := PredsOf(g, v);
      assert forall j :: 0 <= j < |ps| ==> ps[j] in done by {
        if i < |done| {
          forall j | 0 <= j < |ps| ensures ps[j] in done {
            assert ps[j] in done[..i];
            PrefixKeeps(done[..i], done, ps[j]);
          }
        }
      }
      MaxOfAgree(times, times', ps);
    }
    assert PredsFirst(g, done') by {
      forall i, p | 0 <= i < |done'| && p in Preds(g, done'[i]) ensures p in done'[..i] {
        if i < |done| {
          assert done'[..i] == done[..i];
        } else {
          assert done'[..i] == done;
        }
      }
    }
  }

  lemma PrefixKeeps(a: seq<nat>, b: seq<nat>, x: nat)
    requires a <= b && x in a
    ensures x in b
  {
    var i :| 0 <= i < |a| && a[i] == x;
    assert b[i] == x;
  }

  lemma StepTimeMax(times: seq<int>, m: int, n: nat, t: int)
    requires IsTimeMax(times, m) && n < |times| && times[n] == Unassigned && t >= 0
    ensures IsTimeMax(times[n := t], Max2(m, t))
  {
    if Max2(m, t) == t {
      assert times[n := t][n] == t;
    } else if m != 0 {
      var v :| 0 <= v < |times| && times[v] == m;
      assert times[n := t][v] == m;
    }
  }

  lemma StepLoads(k: NodeInfo, times: seq<int>, n: nat, t: int)
    requires n < |times| && n < |k.isLoad| && times[n] == Unassigned
    ensures |LoadsAtOne(k, times[n := t])| ==
      if t == 1 && k.isLoad[n] then |LoadsAtOne(k, times)| + 1 else |LoadsAtOne(k, times)|
  {
    if t == 1 && k.isLoad[n] {
      LoadsGain(k, times, n, t);
    } else {
      LoadsSame(k, times, n, t);
    }
  }

  /** A load placed at time 1 joins the loads at time 1. */
  lemma LoadsGain(k: NodeInfo, times: seq<int>, n: nat, t: int)
    requires n < |times| && n < |k.isLoad| && times[n] == Unassigned && t == 1 && k.isLoad[n]
    ensures LoadsAtOne(k, times[n := t]) == LoadsAtOne(k, times) + {n} && n !in LoadsAtOne(k, times)
  {
    var before, after := LoadsAtOne(k, times), LoadsAtOne(k, times[n := t]);
    forall x ensures x in after <==> x in before + {n} { }
  }

  /** Any other placement leaves the loads at time 1 as they are. */
  lemma LoadsSame(k: NodeInfo, times: seq<int>, n: nat, t: int)
    requires n < |times| && n < |k.isLoad| && times[n] == Unassigned && !(t == 1 && k.isLoad[n])
    ensures LoadsAtOne(k, times[n := t]) == LoadsAtOne(k, times)
  {
    var before, after := LoadsAtOne(k, times), LoadsAtOne(k, times[n := t]);
    forall x ensures x in after <==> x in before { }
  }

  /** The rest of the outer loop succeeds exactly when every node of `rest`
      comes after its predecessors and has a delay; it then leaves the
      whole of `done + rest` scheduled. */
  lemma {:induction false} RunKeeps(g: Graph, k: NodeInfo, done: seq<nat>, s: Sched, rest: seq<nat>)
    requires WellFormed(g) && Scheduled(g, k, done, s) && InRange(rest, NumNodes(g))
    requires Distinct(done + rest)
    ensures Run(g, k, s, rest).Some? <==> PredsFirst(g, done + rest) && DelaysOf(k, rest)
    ensures Run(g, k, s, rest).Some? ==> Scheduled(g, k, done + rest, Run(g, k, s, rest).value)
    decreases |rest|
  {
    if rest == [] {
      assert done + rest == done;
    } else {
      var n := rest[0];
      HeadSplit(g, k, done, rest);
      StepKeeps(g, k, done, s, n);
      if Step(g, k, s, n).Some? {
        RunKeeps(g, k, done + [n], Step(g, k, s, n).value, rest[1..]);
      }
    }
  }

  /** Taking the first node of `rest` over to `done`. */
  lemma HeadSplit(g: Graph, k: NodeInfo, done: seq<nat>, rest: seq<nat>)
    requires rest != [] && Distinct(done + rest)
    ensures rest[0] !in done
    ensures (done + [rest[0]]) + rest[1..] == done + rest
    ensures InRange(rest, NumNodes(g)) ==> InRange(rest[1..], NumNodes(g))
    ensures PredsFirst(g, done + rest) ==> forall p :: p in Preds(g, rest[0]) ==> p in done
    ensures DelaysOf(k, rest) <==>
      (rest[0] < |k.delay| ==> k.delay[rest[0]].Some?) && DelaysOf(k, rest[1..])
  {
    var all := done + rest;
    assert all[|done|] == rest[0];
    assert forall i :: 0 <= i < |done| ==> all[i] == done[i];
    assert all[..|done|] == done;
    assert (done + [rest[0]]) + rest[1..] == all;
    assert forall i :: 0 < i < |rest| ==> rest[i] == rest[1..][i - 1];
  }

  // ---------------------------------------------------------------------
  // The time assignment over a node order

  /** Every node's delay is defined: each "load" or "store" stride parses. */
  predicate StridesParse(g: Graph, w: Weighting) {
    forall v :: 0 <= v < NumNodes(g) ==> Delay(w, g.labels[v]).Some?
  }

  /** The nodes labelled "load" whose time is 1. */
  ghost function LoadNodesAtOne(g: Graph, times: seq<int>): set<nat> {
    set v: nat | v < |times| && times[v] == 1 && v < |g.labels| && Contains(g.labels[v], "load")
  }

  /** Over a node order, the outer loop finishes exactly when every edge
      goes forward along the order and every node has a delay; the times
      are then an as-soon-as-possible schedule. */
  lemma RunOrder(g: Graph, k: NodeInfo, order: seq<nat>)
    requires WellFormed(g) && Fits(g, k) && IsNodeOrder(g, order)
    ensures InRange(order, NumNodes(g))
    ensures Run(g, k, Init(g), order).Some? <==> EdgesForward(g, order) && DelaysDefined(k)
    ensures Run(g, k, Init(g), order).Some? ==>
      Asap(g, k, Run(g, k, Init(g), order).value.times) && Tallied(k, Run(g, k, Init(g), order).value)
  {
    InitScheduled(g, k);
    assert [] + order == order;
    RunKeeps(g, k, [], Init(g), order);
    PredsFirstForward(g, order);
    Covering(g, k, order);
    if Run(g, k, Init(g), order).Some? {
      SoundCovering(g, k, order, Run(g, k, Init(g), order).value.times);
    }
  }

  lemma Covering(g: Graph, k: NodeInfo, order: seq<nat>)
    requires Fits(g, k) && IsNodeOrder(g, order)
    ensures InRange(order, NumNodes(g)) && Distinct(order)
    ensures DelaysOf(k, order) <==> DelaysDefined(k)
  {
    if DelaysOf(k, order) {
      forall v | 0 <= v < |k.delay| ensures k.delay[v].Some? {
        assert v in order;
        var i :| 0 <= i < |order| && order[i] == v;
      }
    }
  }

  lemma SoundCovering(g: Graph, k: NodeInfo, order: seq<nat>, times: seq<int>)
    requires IsNodeOrder(g, order) && |times| == NumNodes(g) && Sound(g, k, order, times)
    ensures Asap(g, k, times)
  {
    forall v: nat | v < |times| ensures Fixed(g, k, times, v) {
      assert v in order;
      var i :| 0 <= i < |order| && order[i] == v;
    }
  }

  /** Over a node order, `assignTime` finishes exactly when every edge goes
      forward along the order and every stride parses; its times are then
      the as-soon-as-possible schedule, `timeMax` is their maximum and
      `loadsAtOne` counts the "load" nodes at time 1. */
  lemma ScheduleMeaning(g: Graph, w: Weighting, order: seq<nat>)
    requires WellFormed(g) && IsNodeOrder(g, order)
    ensures InRange(order, NumNodes(g))
    ensures Schedule(g, w, order).Some? <==> EdgesForward(g, order) && StridesParse(g, w)
    ensures Schedule(g, w, order).Some? ==>
      Asap(g, Info(g, w), Schedule(g, w, order).value.times) &&
      IsTimeMax(Schedule(g, w, order).value.times, Schedule(g, w, order).value.timeMax) &&
      Schedule(g, w, order).value.loadsAtOne == |LoadNodesAtOne(g, Schedule(g, w, order).value.times)|
  {
    var k := Info(g, w);
    RunOrder(g, k, order);
    assert DelaysDefined(k) <==> StridesParse(g, w);
    if Schedule(g, w, order).Some? {
      var r := Schedule(g, w, order).value;
      assert LoadsAtOne(k, r.times) == LoadNodesAtOne(g, r.times);
    }
  }

  // ---------------------------------------------------------------------
  // The loops of `assignTime`

  /** `k` holds node `v`'s delay and load mark as its label gives them. */
  ghost predicate DescribesNode(g: Graph, w: Weighting, k: NodeInfo, v: nat) {
    v < NumNodes(g) ==>
      v < |k.delay| && v < |k.isLoad| &&
      k.delay[v] == Delay(w, g.labels[v]) && (k.isLoad[v] <==> Contains(g.labels[v], "load"))
  }

  /** `k` holds what the labels of `g` give. */
  ghost predicate Describes(g: Graph, w: Weighting, k: NodeInfo) {
    forall v: nat :: DescribesNode(g, w, k, v)
  }

  /** What the loops read from the labels, as a `NodeInfo`. */
  lemma LabelInfo(g: Graph, w: Weighting, order: seq<nat>) returns (k: NodeInfo)
    requires WellFormed(g) && InRange(order, NumNodes(g))
    ensures Fits(g, k) && Describes(g, w, k) && Schedule(g, w, order) == Run(g, k, Init(g), order)
  {
    k := Info(g, w);
    forall v: nat ensures DescribesNode(g, w, k, v) { }
  }

  /** The label branch of `assignTime`: node `n`'s delay (`None` when its
      stride does not parse), and whether its label contains "load". */
  method NodeDelay(g: Graph, w: Weighting, n: nat, ghost k: NodeInfo) returns (delay: Option<nat>, isLoad: bool)
    requires Fits(g, k) && Describes(g, w, k) && n < NumNodes(g)
    ensures delay == k.delay[n] && isLoad == k.isLoad[n]
  {
    assert DescribesNode(g, w, k, n);
    var lab := g.labels[n];
    delay := Delay(w, lab);
    isLoad := Contains(lab, "load");
  }

  /** The outer loop goes on from the state after `order[i]`. */
  lemma RunStep(g: Graph, k: NodeInfo, s: Sched, order: seq<nat>, i: nat)
    requires WellFormed(g) && Fits(g, k) && |s.times| == NumNodes(g)
    requires InRange(order, NumNodes(g)) && i < |order| && Step(g, k, s, order[i]).Some?
    ensures Run(g, k, s, order[i..]) == Run(g, k, Step(g, k, s, order[i]).value, order[i + 1..])
  {
    assert order[i..][0] == order[i] && order[i..][1..] == order[i + 1..];
  }

  /** The outer loop stops at `rest[0]` when its step fails. */
  lemma RunAbort(g: Graph, k: NodeInfo, s: Sched, rest: seq<nat>)
    requires WellFormed(g) && Fits(g, k) && |s.times| == NumNodes(g)
    requires InRange(rest, NumNodes(g)) && rest != [] && Step(g, k, s, rest[0]).None?
    ensures Run(g, k, s, rest) == None
  {
  }

  /** The predecessor loop of `assignTime`: the largest time of `preds`,
      starting from 0, or `None` on meeting an unassigned one (the program
      exits there). */
  method PredTimeMax(timeSt: array<int>, preds: seq<nat>) returns (r: Option<int>)
    requires InRange(preds, timeSt.Length)
    ensures r == PredMax(timeSt[..], preds, 0)
  {
    var max := 0;
    for j := 0 to |preds|
      invariant PredMax(timeSt[..], preds, 0) == PredMax(timeSt[..], preds[j..], max)
    {
      var id := preds[j];
      assert preds[j..][0] == id && preds[j..][1..] == preds[j + 1..];
      if timeSt[id] == Unassigned {
        return None;
      } else if max < timeSt[id] {
        max := timeSt[id];
      }
    }
    assert preds[|preds|..] == [];
    return Some(max);
  }

  /** `timeSt[n] = t`. */
  method SetTime(timeSt: array<int>, n: nat, t: int)
    requires n < timeSt.Length
    modifies timeSt
    ensures timeSt[..] == old(timeSt[..])[n := t]
  {
    timeSt[n] := t;
  }

  /** `assignTime`: `timeSt` starts with every node unassigned; for each
      node of `order`, the predecessor loop takes the largest predecessor
      time (aborting on an unassigned one), the label gives the delay
      (aborting when the stride does not parse), and the running maximum and
      the count of "load" nodes at time 1 are updated. */
  method AssignTime(g: Graph, w: Weighting, order: seq<nat>) returns (r: Option<Sched>)
    requires WellFormed(g) && InRange(order, NumNodes(g))
    ensures r == Schedule(g, w, order)
  {
    ghost var k := LabelInfo(g, w, order);
    r := TimeLoop(g, w, order, k);
  }

  /** The outer loop of `assignTime`, reading the labels as `k` describes
      them. */
  method TimeLoop(g: Graph, w: Weighting, order: seq<nat>, ghost k: NodeInfo) returns (r: Option<Sched>)
    requires WellFormed(g) && InRange(order, NumNodes(g)) && Fits(g, k) && Describes(g, w, k)
    ensures r == Run(g, k, Init(g), order)
  {
    var timeSt := new int[NumNodes(g)](_ => Unassigned);
    var timeMax := 0;
    var loadsAtOne := 0;
    ghost var s := Init(g);
    assert timeSt[..] == s.times;
    for i := 0 to |order|
      invariant timeSt.Length == NumNodes(g) && |s.times| == NumNodes(g)
      invariant timeSt[..] == s.times && timeMax == s.timeMax && loadsAtOne == s.loadsAtOne
      invariant Run(g, k, Init(g), order) == Run(g, k, s, order[i..])
    {
      var ok: bool;
      ok, timeMax, loadsAtOne := Visit(g, w, k, timeSt, order[i], timeMax, loadsAtOne, s);
      if !ok {
        RunAbort(g, k, s, order[i..]);
        return None;
      }
      RunStep(g, k, s, order, i);
      s := Step(g, k, s, order[i]).value;
    }
    r := Some(Sched(timeSt[..], timeMax, loadsAtOne));
    assert order[|order|..] == [];
  }

  /** The body of the outer loop of `assignTime` for node `n`, from the
      state `s` that `timeSt` and the counters hold: `ok` is false where the
      program exits, and otherwise the new state is the step's. */
  method Visit(g: Graph, w: Weighting, ghost k: NodeInfo, timeSt: array<int>, n: nat, timeMax: int, loadsAtOne: nat, ghost s: Sched)
    returns (ok: bool, timeMax': int, loadsAtOne': nat)
    requires WellFormed(g) && Fits(g, k) && Describes(g, w, k) && n < NumNodes(g)
    requires timeSt.Length == NumNodes(g) && timeSt[..] == s.times
    requires timeMax == s.timeMax && loadsAtOne == s.loadsAtOne
    modifies timeSt
    ensures ok <==> Step(g, k, s, n).Some?
    ensures ok ==>
      timeSt[..] == Step(g, k, s, n).value.times && timeMax' == Step(g, k, s, n).value.timeMax &&
      loadsAtOne' == Step(g, k, s, n).value.loadsAtOne
  {
    timeMax', loadsAtOne' := timeMax, loadsAtOne;
    var preds := PredsOf(g, n);
    var found := PredTimeMax(timeSt, preds);
    if found.None? {
      return false, timeMax', loadsAtOne';
    }
    var max := found.value;
    var delay, isLoad := NodeDelay(g, w, n, k);
    if delay.None? {
      return false, timeMax', loadsAtOne';
    }
    SetTime(timeSt, n, max + delay.value);
    if timeSt[n] == 1 && isLoad {
      loadsAtOne' := loadsAtOne' + 1;
    }
    if timeMax' < timeSt[n] {
      timeMax' := timeSt[n];
    }
    ok := true;
  }

  // ---------------------------------------------------------------------
  // What an as-soon-as-possible schedule satisfies

  /** Along every edge `u -> v`, `v` comes at least `v`'s delay after `u`. */
  lemma AsapEdge(g: Graph, k: NodeInfo, times: seq<int>, u: nat, v: nat)
    requires WellFormed(g) && Fits(g, k) && Asap(g, k, times) && u < NumNodes(g) && v in Succs(g, u)
    ensures v < NumNodes(g) && k.delay[v].Some? && times[v] >= times[u] + k.delay[v].value
  {
    SuccsBounded(g, u, v);
    SuccPredConverse(g, u, v);
    assert Fixed(g, k, times, v);
    var ps := Preds(g, v);
    MaxOfBounds(times, ps);
  }

  /** Times agree on the first `j` nodes of a topological order. */
  lemma {:induction false} AsapAgree(g: Graph, k: NodeInfo, t1: seq<int>, t2: seq<int>, order: seq<nat>, j: nat)
    requires WellFormed(g) && Asap(g, k, t1) && Asap(g, k, t2)
    requires IsNodeOrder(g, order) && PredsFirst(g, order) && j <= |order|
    ensures forall i :: 0 <= i < j ==> t1[order[i]] == t2[order[i]]
  {
    if j > 0 {
      AsapAgree(g, k, t1, t2, order, j - 1);
      var v := order[j - 1];
      assert Fixed(g, k, t1, v) && Fixed(g, k, t2, v);
      var ps := Preds(g, v);
      forall q | 0 <= q < |ps| ensures t1[ps[q]] == t2[ps[q]] {
        assert ps[q] in ps;
        var i :| 0 <= i < j - 1 && order[..j - 1][i] == ps[q];
        assert order[i] == ps[q];
      }
      MaxOfAgree(t1, t2, ps);
    }
  }

  /** A graph with a topological order has at most one as-soon-as-possible
      schedule. */
  lemma AsapUnique(g: Graph, k: NodeInfo, t1: seq<int>, t2: seq<int>, order: seq<nat>)
    requires WellFormed(g) && Asap(g, k, t1) && Asap(g, k, t2)
    requires IsNodeOrder(g, order) && EdgesForward(g, order)
    ensures t1 == t2
  {
    PredsFirstForward(g, order);
    AsapAgree(g, k, t1, t2, order, |order|);
    forall v | 0 <= v < |t1| ensures t1[v] == t2[v] {
      assert v in order;
      var i :| 0 <= i < |order| && order[i] == v;
    }
  }

  // ---------------------------------------------------------------------
  // Unit delays: times are walk lengths

  /** Under unit delays every time is at least 1, and exactly 1 for the
      nodes without predecessors. */
  lemma UnitLevels(g: Graph, times: seq<int>, v: nat)
    requires WellFormed(g) && Asap(g, Info(g, Unit), times) && v < NumNodes(g)
    ensures times[v] >= 1
    ensures times[v] == 1 <==> Preds(g, v) == []
  {
    var ps := Preds(g, v);
    assert Fixed(g, Info(g, Unit), times, v);
    MaxOfBounds(times, ps);
    if ps != [] {
      assert ps[0] in ps;
      PredsBounded(g, ps[0], v);
      assert Fixed(g, Info(g, Unit), times, ps[0]);
      MaxOfBounds(times, Preds(g, ps[0]));
    }
  }

  /** Under unit delays the time of a walk's last node is at least the
      time of its first node plus the number of edges. */
  lemma {:induction false} WalkRise(g: Graph, times: seq<int>, w: seq<nat>)
    requires WellFormed(g) && Asap(g, Info(g, Unit), times)
    requires IsWalk(g, w) && w[0] < NumNodes(g)
    ensures w[|w| - 1] < NumNodes(g)
    ensures times[w[|w| - 1]] >= times[w[0]] + |w| - 1
    decreases |w|
  {
    if |w| > 1 {
      var w' := w[..|w| - 1];
      assert IsWalk(g, w') by {
        forall t | 0 <= t < |w'| - 1 ensures w'[t + 1] in Succs(g, w'[t]) {
          assert w[t + 1] in Succs(g, w[t]);
        }
      }
      WalkRise(g, times, w');
      assert w[|w| - 1] in Succs(g, w[|w| - 2]);
      AsapEdge(g, Info(g, Unit), times, w[|w| - 2], w[|w| - 1]);
    }
  }

  /** Under unit delays no walk has more nodes than the time of its last
      node, so none has more than the largest time. */
  lemma WalkBound(g: Graph, times: seq<int>, m: int, w: seq<nat>)
    requires WellFormed(g) && Asap(g, Info(g, Unit), times) && IsTimeMax(times, m)
    requires IsWalk(g, w) && w[0] < NumNodes(g)
    ensures w[|w| - 1] < NumNodes(g) && |w| <= times[w[|w| - 1]] <= m
  {
    WalkRise(g, times, w);
    UnitLevels(g, times, w[0]);
  }

  /** Under unit delays a walk of exactly `times[v]` nodes ends at `v`. */
  lemma {:induction false} LongestWalkTo(g: Graph, times: seq<int>, v: nat) returns (w: seq<nat>)
    requires WellFormed(g) && Asap(g, Info(g, Unit), times) && v < NumNodes(g)
    ensures IsWalk(g, w) && w[0] < NumNodes(g) && w[|w| - 1] == v && |w| == times[v]
    decreases times[v]
  {
    UnitLevels(g, times, v);
    var ps := Preds(g, v);
    if ps == [] {
      w := [v];
    } else {
      assert Fixed(g, Info(g, Unit), times, v);
      MaxOfBounds(times, ps);
      assert ps[0] in ps;
      PredsBounded(g, ps[0], v);
      UnitLevels(g, times, ps[0]);
      var p :| p in ps && times[p] == MaxOf(times, ps);
      PredsBounded(g, p, v);
      UnitLevels(g, times, p);
      var w' := LongestWalkTo(g, times, p);
      SuccPredConverse(g, p, v);
      WalkExtend(g, w', v);
      w := w' + [v];
    }
  }

  /** Under unit delays a graph with an as-soon-as-possible schedule has no
      cycle. */
  lemma UnitAcyclic(g: Graph, times: seq<int>)
    requires WellFormed(g) && Asap(g, Info(g, Unit), times)
    ensures Acyclic(g)
  {
    forall w | IsWalk(g, w) && |w| >= 2 ensures w[0] != w[|w| - 1] {
      assert w[1] in Succs(g, w[0]);
      SuccsInIff(g.edges, w[0], w[1]);
      WalkRise(g, times, w);
    }
  }
}
