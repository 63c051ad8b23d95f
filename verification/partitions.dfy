/** What `partitionDFGnP` looks for: cuts of the time range `[0, m]` into
    consecutive windows of levels, each holding no more nodes than the
    mapping size. The inner loop over the split points of one combination
    is `Fill`; the combinations it accepts are `Accepted`; and `Valid`
    says, independently of the loops, which windows sequences qualify. */
module Partitions {
  import opened Graphs
  import opened Levels
  import opened Combs

  /** `partData`: the nodes of a window and those with a successor after it. */
  datatype PartData = PartData(total: nat, out: nat)

  /** `partDef`: a window `[start, end]` of levels and its counts. */
  datatype Part = Part(start: nat, end: nat, data: PartData)

  /** What `getInterNds(lo, hi)` reports. */
  ghost function Window(g: Graph, times: seq<int>, lo: int, hi: int): (d: PartData)
    ensures d.out <= d.total
  {
    CountOutWithin(g, times, lo, hi, |times|);
    assert times[..|times|] == times;
    PartData(CountIn(times, lo, hi), CountOut(g, times, lo, hi, |times|))
  }

  /** `pData.total > map_size` compares a `uint32_t` with an `int`, so the
      `int` is converted to 32-bit unsigned: a negative size becomes a
      bound near 2^32. */
  function Limit(mapSize: int): (l: nat)
    ensures 0 <= mapSize < 0x1_0000_0000 ==> l == mapSize
    ensures mapSize < 0 && -0x1_0000_0000 <= mapSize ==> l == mapSize + 0x1_0000_0000
  {
    mapSize % 0x1_0000_0000
  }

  /** The inner loop over the split points `bounds`, from level `prev`: one
      part per split point, stopping before the first window whose total
      exceeds `limit`. */
  ghost function Fill(g: Graph, times: seq<int>, bounds: seq<nat>, prev: nat, limit: nat): seq<Part>
    decreases |bounds|
  {
    if bounds == [] then []
    else if Window(g, times, prev, bounds[0]).total > limit then []
    else [Part(prev, bounds[0], Window(g, times, prev, bounds[0]))] + Fill(g, times, bounds[1..], bounds[0] + 1, limit)
  }

  /** The inner loop's run for each combination, its split points
      followed by `m`. */
  ghost function Runs(g: Graph, times: seq<int>, combs: seq<seq<nat>>, m: nat, limit: nat): (rs: seq<seq<Part>>)
    ensures |rs| == |combs|
    ensures forall i :: 0 <= i < |combs| ==> rs[i] == Fill(g, times, combs[i] + [m], 0, limit)
  {
    seq(|combs|, i requires 0 <= i < |combs| => Fill(g, times, combs[i] + [m], 0, limit))
  }

  /** The runs that reached `npart` parts, in order. */
  function Keep(rs: seq<seq<Part>>, npart: nat): seq<seq<Part>>
    decreases |rs|
  {
    if rs == [] then []
    else Keep(rs[..|rs| - 1], npart) + (if |rs[|rs| - 1]| == npart then [rs[|rs| - 1]] else [])
  }

  /** The partitionings the outer loop accepts from `combs`. */
  ghost function Accepted(g: Graph, times: seq<int>, combs: seq<seq<nat>>, m: nat, npart: nat, limit: nat): seq<seq<Part>> {
    Keep(Runs(g, times, combs, m, limit), npart)
  }

  // ---------------------------------------------------------------------
  // The partitionings that qualify

  /** `parts` cuts `[0, m]` into consecutive non-empty windows. */
  ghost predicate Tiling(parts: seq<Part>, m: nat) {
    && |parts| >= 1 && parts[0].start == 0 && parts[|parts| - 1].end == m
    && (forall j :: 0 <= j < |parts| ==> parts[j].start <= parts[j].end)
    && (forall j :: 0 < j < |parts| ==> parts[j].start == parts[j - 1].end + 1)
  }

  /** Every part carries its own window's counts and fits the limit. */
  ghost predicate Fitting(g: Graph, times: seq<int>, parts: seq<Part>, limit: nat) {
    forall j :: 0 <= j < |parts| ==>
      parts[j].data == Window(g, times, parts[j].start, parts[j].end) && parts[j].data.total <= limit
  }

  /** A partitioning into `npart` windows of `[0, m]` that all fit. */
  ghost predicate Valid(g: Graph, times: seq<int>, parts: seq<Part>, npart: nat, m: nat, limit: nat) {
    |parts| == npart && Tiling(parts, m) && Fitting(g, times, parts, limit)
  }

  /** No partitioning is listed twice. */
  ghost predicate NoRepeats(found: seq<seq<Part>>) {
    forall i, j :: 0 <= i < j < |found| ==> found[i] != found[j]
  }

  /** The last level of each part. */
  function Ends(parts: seq<Part>): (e: seq<nat>)
    ensures |e| == |parts| && forall j :: 0 <= j < |parts| ==> e[j] == parts[j].end
  {
    seq(|parts|, j requires 0 <= j < |parts| => parts[j].end)
  }

  /** The inner loop yields at most one part per split point; part `j`
      ends at split point `j` and starts just after the previous one, and
      every part it yields fits. */
  lemma {:induction false} FillShape(g: Graph, times: seq<int>, bounds: seq<nat>, prev: nat, limit: nat)
    ensures |Fill(g, times, bounds, prev, limit)| <= |bounds|
    ensures forall j :: 0 <= j < |Fill(g, times, bounds, prev, limit)| ==>
      Fill(g, times, bounds, prev, limit)[j].end == bounds[j] &&
      Fill(g, times, bounds, prev, limit)[j].start == (if j == 0 then prev else bounds[j - 1] + 1)
    ensures Fitting(g, times, Fill(g, times, bounds, prev, limit), limit)
    decreases |bounds|
  {
    if bounds != [] && Window(g, times, prev, bounds[0]).total <= limit {
      FillShape(g, times, bounds[1..], bounds[0] + 1, limit);
    }
  }

  /** The ends of consecutive windows rise: every later part ends later,
      and part `j` ends at level `j` or after. */
  lemma {:induction false} TilingEnds(parts: seq<Part>, m: nat)
    requires Tiling(parts, m)
    ensures forall i, j :: 0 <= i < j < |parts| ==> parts[i].end < parts[j].end
    ensures forall j :: 0 <= j < |parts| ==> j <= parts[j].end
  {
    forall i, j | 0 <= i < j < |parts| ensures parts[i].end < parts[j].end {
      RiseFrom(parts, m, i, j);
    }
    forall j | 0 <= j < |parts| ensures j <= parts[j].end {
      if j > 0 {
        RiseFrom(parts, m, 0, j);
      }
    }
  }

  lemma {:induction false} RiseFrom(parts: seq<Part>, m: nat, i: nat, j: nat)
    requires Tiling(parts, m) && i < j < |parts|
    ensures parts[i].end + (j - i) <= parts[j].end
    decreases j - i
  {
    if i + 1 < j {
      RiseFrom(parts, m, i, j - 1);
    }
  }

  /** Given the ends of a cut that fits, the inner loop rebuilds it. */
  lemma {:induction false} FillOf(g: Graph, times: seq<int>, parts: seq<Part>, limit: nat)
    requires |parts| >= 1 && Fitting(g, times, parts, limit)
    requires forall j :: 0 < j < |parts| ==> parts[j].start == parts[j - 1].end + 1
    ensures Fill(g, times, Ends(parts), parts[0].start, limit) == parts
    decreases |parts|
  {
    var rest := parts[1..];
    assert Ends(parts)[1..] == Ends(rest);
    if rest == [] {
      assert Fill(g, times, Ends(rest), parts[0].end + 1, limit) == [];
    } else {
      assert Fitting(g, times, rest, limit) by {
        forall j | 0 <= j < |rest| ensures rest[j] == parts[j + 1] { }
      }
      FillOf(g, times, rest, limit);
    }
    assert parts == [parts[0]] + rest;
  }

  /** A combination of `npart - 1` split points below `m` whose inner loop
      reaches `npart` parts gives a valid partitioning. */
  lemma FillValid(g: Graph, times: seq<int>, c: seq<nat>, m: nat, npart: nat, limit: nat)
    requires npart >= 1 && Subset(c, m, npart - 1)
    requires |Fill(g, times, c + [m], 0, limit)| == npart
    ensures Valid(g, times, Fill(g, times, c + [m], 0, limit), npart, m, limit)
    ensures Ends(Fill(g, times, c + [m], 0, limit)) == c + [m]
  {
    var bounds := c + [m];
    var parts := Fill(g, times, bounds, 0, limit);
    FillShape(g, times, bounds, 0, limit);
    forall j | 0 < j < |parts| ensures parts[j].start <= parts[j].end {
      assert bounds[j - 1] < bounds[j] by {
        if j < |c| {
          assert c[j - 1] < c[j];
        }
      }
    }
  }

  /** A valid partitioning is rebuilt from its first `npart - 1` ends,
      which form a combination of `npart - 1` levels below `m`. */
  lemma ValidSplits(g: Graph, times: seq<int>, parts: seq<Part>, npart: nat, m: nat, limit: nat)
    requires Valid(g, times, parts, npart, m, limit)
    ensures npart - 1 <= m
    ensures Subset(Ends(parts)[..npart - 1], m, npart - 1)
    ensures Fill(g, times, Ends(parts)[..npart - 1] + [m], 0, limit) == parts
  {
    TilingEnds(parts, m);
    var c := Ends(parts)[..npart - 1];
    assert c + [m] == Ends(parts);
    FillOf(g, times, parts, limit);
  }

  /** A run of the inner loop that used every split point ends its parts at them. */
  lemma FillEnds(g: Graph, times: seq<int>, bounds: seq<nat>, limit: nat)
    requires |Fill(g, times, bounds, 0, limit)| == |bounds|
    ensures Ends(Fill(g, times, bounds, 0, limit)) == bounds
  {
    FillShape(g, times, bounds, 0, limit);
  }

  lemma AppendCancel(a: seq<nat>, b: seq<nat>, x: nat)
    requires a + [x] == b + [x]
    ensures a == b
  {
    assert a == (a + [x])[..|a|];
    assert b == (b + [x])[..|b|];
  }

  /** The runs of `npart` parts are exactly what is kept. */
  lemma {:induction false} KeepIn(rs: seq<seq<Part>>, npart: nat)
    ensures forall p :: p in Keep(rs, npart) <==> p in rs && |p| == npart
    decreases |rs|
  {
    if rs != [] {
      KeepIn(rs[..|rs| - 1], npart);
      assert rs == rs[..|rs| - 1] + [rs[|rs| - 1]];
    }
  }

  /** When no two runs of `npart` parts are equal, nothing is kept twice. */
  lemma {:induction false} KeepDistinct(rs: seq<seq<Part>>, npart: nat)
    requires forall i, j :: 0 <= i < j < |rs| && |rs[i]| == npart && |rs[j]| == npart ==> rs[i] != rs[j]
    ensures NoRepeats(Keep(rs, npart))
    decreases |rs|
  {
    if rs != [] {
      var last := |rs| - 1;
      var init := rs[..last];
      KeepDistinct(init, npart);
      if |rs[last]| == npart {
        KeepIn(init, npart);
        forall p | p in Keep(init, npart) ensures p != rs[last] {
          var i :| 0 <= i < |init| && init[i] == p;
          assert rs[i] == p;
        }
      }
    }
  }

  /** Distinct combinations of `npart - 1` points give distinct runs of
      `npart` parts. */
  lemma RunsDistinct(g: Graph, times: seq<int>, combs: seq<seq<nat>>, m: nat, npart: nat, limit: nat)
    requires forall i :: 0 <= i < |combs| ==> |combs[i]| + 1 <= npart
    requires forall i, j :: 0 <= i < j < |combs| ==> combs[i] != combs[j]
    ensures var rs := Runs(g, times, combs, m, limit);
      forall i, j :: 0 <= i < j < |rs| && |rs[i]| == npart && |rs[j]| == npart ==> rs[i] != rs[j]
  {
    var rs := Runs(g, times, combs, m, limit);
    forall i, j | 0 <= i < j < |rs| && |rs[i]| == npart && |rs[j]| == npart ensures rs[i] != rs[j] {
      FillShape(g, times, combs[i] + [m], 0, limit);
      FillShape(g, times, combs[j] + [m], 0, limit);
      if rs[i] == rs[j] {
        FillEnds(g, times, combs[i] + [m], limit);
        FillEnds(g, times, combs[j] + [m], limit);
        AppendCancel(combs[i], combs[j], m);
      }
    }
  }

  /** Every accepted partitioning is valid. */
  lemma AcceptedSound(g: Graph, times: seq<int>, m: nat, npart: nat, limit: nat, p: seq<Part>)
    requires npart >= 1
    requires p in Accepted(g, times, Combs.Combs(m, if npart - 1 <= m then npart - 1 else m), m, npart, limit)
    ensures Valid(g, times, p, npart, m, limit)
  {
    var k := if npart - 1 <= m then npart - 1 else m;
    var combs := Combs.Combs(m, k);
    var rs := Runs(g, times, combs, m, limit);
    KeepIn(rs, npart);
    var i :| 0 <= i < |rs| && rs[i] == p;
    CombsSubsets(m, k);
    assert Subset(combs[i], m, k);
    FillShape(g, times, combs[i] + [m], 0, limit);
    FillValid(g, times, combs[i], m, npart, limit);
  }

  /** Every valid partitioning is accepted. */
  lemma AcceptedComplete(g: Graph, times: seq<int>, m: nat, npart: nat, limit: nat, p: seq<Part>)
    requires Valid(g, times, p, npart, m, limit)
    ensures npart >= 1
    ensures p in Accepted(g, times, Combs.Combs(m, if npart - 1 <= m then npart - 1 else m), m, npart, limit)
  {
    ValidSplits(g, times, p, npart, m, limit);
    var combs := Combs.Combs(m, npart - 1);
    var rs := Runs(g, times, combs, m, limit);
    var c := Ends(p)[..npart - 1];
    CombsSubsets(m, npart - 1);
    assert c in combs;
    var i :| 0 <= i < |combs| && combs[i] == c;
    assert rs[i] == p;
    KeepIn(rs, npart);
  }

  /** `partitionDFGnP` lists exactly the valid partitionings of `[0, m]`
      into `npart` windows, each once. */
  lemma AcceptedValid(g: Graph, times: seq<int>, m: nat, npart: nat, limit: nat)
    requires npart >= 1
    ensures var found := Accepted(g, times, Combs.Combs(m, if npart - 1 <= m then npart - 1 else m), m, npart, limit);
      NoRepeats(found) && forall p :: p in found <==> Valid(g, times, p, npart, m, limit)
  {
    var k := if npart - 1 <= m then npart - 1 else m;
    var combs := Combs.Combs(m, k);
    var found := Accepted(g, times, combs, m, npart, limit);
    CombsSubsets(m, k);
    RunsDistinct(g, times, combs, m, npart, limit);
    KeepDistinct(Runs(g, times, combs, m, limit), npart);
    forall p ensures p in found <==> Valid(g, times, p, npart, m, limit) {
      if p in found {
        AcceptedSound(g, times, m, npart, limit, p);
      }
      if Valid(g, times, p, npart, m, limit) {
        AcceptedComplete(g, times, m, npart, limit, p);
      }
    }
  }

  // ---------------------------------------------------------------------
  // The windows of a partitioning hold every node once

  /** The node counts of the parts, added up. */
  function Totals(parts: seq<Part>): nat
    decreases |parts|
  {
    if parts == [] then 0 else Totals(parts[..|parts| - 1]) + parts[|parts| - 1].data.total
  }

  lemma {:induction false} TotalsPrefix(g: Graph, times: seq<int>, parts: seq<Part>, n: nat, limit: nat, m: nat)
    requires Tiling(parts, m) && Fitting(g, times, parts, limit) && 1 <= n <= |parts|
    ensures Totals(parts[..n]) == CountIn(times, 0, parts[n - 1].end)
  {
    if n == 1 {
      assert parts[..1][..0] == [];
    } else {
      TotalsPrefix(g, times, parts, n - 1, limit, m);
      assert parts[..n][..n - 1] == parts[..n - 1];
      CountInSplit(times, 0, parts[n - 2].end, parts[n - 1].end);
    }
  }

  /** When every time lies in `[0, m]`, the parts of a valid partitioning
      together hold every node exactly once. */
  lemma ValidCovers(g: Graph, times: seq<int>, parts: seq<Part>, npart: nat, m: nat, limit: nat)
    requires Valid(g, times, parts, npart, m, limit)
    requires forall v :: 0 <= v < |times| ==> 0 <= times[v] <= m
    ensures Totals(parts) == |times|
  {
    TotalsPrefix(g, times, parts, |parts|, limit, m);
    assert parts[..|parts|] == parts;
    CountInAll(times, 0, m);
  }
}
