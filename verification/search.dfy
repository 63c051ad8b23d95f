/** The driver: it starts from the fewest partitions the capacity allows,
    builds and solves the model for one more partition per attempt, at most
    100 attempts, and on the first solved model cuts the graph into its
    sub-graphs and validates the solution. The solver is a parameter. */
module Search {
  import opened Wrappers
  import opened Graphs
  import opened GroupTable
  import opened Ilp
  import opened Catalogue
  import opened Rows
  import opened Validation
  import opened Extraction
  import opened PartitionIlp

  /** Number of partition counts the driver tries. */
  const Iterations: nat := 100

  /** What the solver is given: the columns, the objective and the rows. */
  datatype Model = Model(columns: seq<Var>, objective: seq<Term>, rows: seq<Row>)

  /** A solver returns an assignment or reports that it found none. */
  type Solver = Model -> Option<Valuation>

  /** An assignment the solver returns satisfies every row of the model. */
  ghost predicate Sound(solver: Solver) {
    forall m :: solver(m).Some? ==> HoldsAll(m.rows, solver(m).value)
  }

  /** The model the partitioner builds for `numParts` partitions. */
  function IlpOf(g: Graph, rSize: int, tSize: int, numParts: nat, loadWt: int): Model
    requires ScanLabels(g.labels).Some?
  {
    var s := ScanLabels(g.labels).value;
    var n := NumNodes(g);
    Model(AssignColumns(n, numParts) + InterColumns(n, numParts),
          Objective(n, numParts, s.loads, s.stores, loadWt),
          ModelRows(g, numParts, rSize, tSize, s.loads, s.stores))
  }

  /** The labels parse and the solver solves the model for `numParts` partitions. */
  predicate Solvable(solver: Solver, g: Graph, rSize: int, tSize: int, numParts: nat, loadWt: int) {
    ScanLabels(g.labels).Some? && solver(IlpOf(g, rSize, tSize, numParts, loadWt)).Some?
  }

  /** No store group shares its id with a load group. */
  predicate DisjointIds(s: Scan) {
    forall gid :: gid in s.stores.members ==> gid !in s.loads.members
  }

  /** `a / b` rounded up. */
  function CeilDiv(a: nat, b: nat): nat
    requires b > 0
  {
    (a + b - 1) / b
  }

  /** The rounded-up quotient is the fewest partitions of size `b` that hold `a` vertices. */
  lemma CeilDivSpec(a: nat, b: nat)
    requires b > 0
    ensures CeilDiv(a, b) * b >= a
    ensures CeilDiv(a, b) == 0 || (CeilDiv(a, b) - 1) * b < a
  {
    var q, r := (a + b - 1) / b, (a + b - 1) % b;
    assert q * b + r == a + b - 1;
    assert q * b - b == (q - 1) * b;
  }

  /** Every member of a scanned group is a node of the graph. */
  lemma ScannedMembersBelow(labs: seq<string>)
    requires ScanLabels(labs).Some?
    ensures MembersBelow(ScanLabels(labs).value.loads, |labs|)
    ensures MembersBelow(ScanLabels(labs).value.stores, |labs|)
  {
    var s := ScanLabels(labs).value;
    forall gid, a | gid in s.loads.members && 0 <= a < |s.loads.members[gid]|
      ensures s.loads.members[gid][a] < |labs|
    {
      ScanMembers(labs, gid, s.loads.members[gid][a]);
    }
    forall gid, a | gid in s.stores.members && 0 <= a < |s.stores.members[gid]|
      ensures s.stores.members[gid][a] < |labs|
    {
      ScanMembers(labs, gid, s.stores.members[gid][a]);
    }
  }

  /** The sub-graphs of a solution, one per partition. */
  function Cut(val: Valuation, g: Graph, numParts: nat): (parts: seq<Graph>)
    ensures |parts| == numParts
  {
    seq(numParts, p requires 0 <= p < numParts => ClipGraph(val, g, numParts, p))
  }

  /** The outcome of one attempt. */
  datatype Attempt = ScanError | Infeasible | Solved(parts: seq<Graph>, validated: bool)

  /** What one iteration of the driver yields: the scan fails, the solver
      finds no solution, or the solution cut into sub-graphs together with
      the validator's verdict on it. */
  function Attempted(solver: Solver, g: Graph, rSize: int, tSize: int, numParts: nat, loadWt: int): Attempt {
    match ScanLabels(g.labels)
    case None => ScanError
    case Some(s) => SolvedAs(solver, IlpOf(g, rSize, tSize, numParts, loadWt), g, numParts, rSize, tSize, s.loads, s.stores)
  }

  /** What the solver's answer on model `m` yields. */
  function SolvedAs(solver: Solver, m: Model, g: Graph, numParts: nat, rSize: int, tSize: int, loads: Table, stores: Table): Attempt {
    match solver(m)
    case None => Infeasible
    case Some(val) => Solved(Cut(val, g, numParts), ValidSolution(val, g, numParts, rSize, tSize, loads, stores))
  }

  /** An attempt solves exactly the solvable models. */
  lemma AttemptSolved(solver: Solver, g: Graph, rSize: int, tSize: int, numParts: nat, loadWt: int)
    ensures Attempted(solver, g, rSize, tSize, numParts, loadWt).ScanError? <==> ScanLabels(g.labels).None?
    ensures Attempted(solver, g, rSize, tSize, numParts, loadWt).Solved? <==> Solvable(solver, g, rSize, tSize, numParts, loadWt)
  {
  }

  /** On a well-formed graph whose load and store groups have distinct ids,
      every solution of a sound solver passes the validator. */
  lemma AttemptValidated(solver: Solver, g: Graph, rSize: int, tSize: int, numParts: nat, loadWt: int)
    requires Sound(solver)
    requires WellFormed(g)
    requires Attempted(solver, g, rSize, tSize, numParts, loadWt).Solved?
    requires DisjointIds(ScanLabels(g.labels).value)
    ensures Attempted(solver, g, rSize, tSize, numParts, loadWt).validated
  {
    var s := ScanLabels(g.labels).value;
    var m := IlpOf(g, rSize, tSize, numParts, loadWt);
    var val := solver(m).value;
    assert HoldsAll(m.rows, val);
    ScannedMembersBelow(g.labels);
    ModelSolutionsValidate(val, g, numParts, rSize, tSize, s.loads, s.stores);
  }

  /** `main`'s calls from `addUniqueCons` to `addTransCons`: every row of the model. */
  method AddRows(ilp: PartitionILP)
    requires ilp.Valid() && ilp.rows == []
    modifies ilp`rows, ilp`nUniqCons, ilp`nCapCons, ilp`nPrecCons, ilp`nIntParCons, ilp`nLdStCons, ilp`nTransCons
    ensures ilp.rows == ModelRows(ilp.graph, ilp.numParts, ilp.rSize, ilp.tSize, ilp.loadGroups, ilp.storeGroups)
  {
    AddVertexRows(ilp);
    AddGroupRows(ilp);
    assert [] + UniqueRows(ilp.numVertices, ilp.numParts) == UniqueRows(ilp.numVertices, ilp.numParts);
  }

  /** `main`'s calls from `addUniqueCons` to `addEdgePrec`: the rows over
      the vertices, the partitions and the edges. */
  method AddVertexRows(ilp: PartitionILP)
    requires ilp.Valid()
    modifies ilp`rows, ilp`nUniqCons, ilp`nCapCons, ilp`nPrecCons
    ensures ilp.rows == old(ilp.rows) + UniqueRows(ilp.numVertices, ilp.numParts)
      + SizeRows(ilp.numVertices, ilp.numParts, ilp.rSize) + PrecRows(ilp.graph.edges, ilp.numParts)
  {
    ilp.AddUniqueCons();
    ilp.AddSizeCons();
    ilp.AddEdgePrec();
  }

  /** `main`'s calls from `addInterPartCons` to `addTransCons`: the rows
      across partitions and over the load and store groups. */
  method AddGroupRows(ilp: PartitionILP)
    requires ilp.Valid()
    modifies ilp`rows, ilp`nIntParCons, ilp`nLdStCons, ilp`nTransCons
    ensures ilp.rows == old(ilp.rows) + InterRows(ilp.graph, ilp.numVertices, ilp.numParts)
      + GroupRows(ilp.loadGroups, ilp.storeGroups, ilp.numParts)
      + TransRows(ilp.numVertices, ilp.numParts, ilp.loadGroups, ilp.storeGroups, ilp.tSize)
  {
    ilp.AddInterPartCons();
    ilp.AddLoadStoreReuse();
    ilp.AddTransCons();
  }

  /** `main`'s calls from `addColVars` to `addTransCons` on a fresh model:
      the whole model, built only when the labels scan. */
  method BuildModel(ilp: PartitionILP) returns (ok: bool)
    requires ilp.columns == [] && ilp.objective == [] && ilp.rows == []
    modifies ilp
    ensures ok <==> ScanLabels(ilp.graph.labels).Some?
    ensures ok ==> ilp.Valid() && ScannedFrom(ilp.graph, ilp.loadGroups, ilp.storeGroups, ilp.numLoads, ilp.numStores, ilp.vout)
    ensures ok ==> ilp.columns == Columns(ilp.numVertices, ilp.numParts)
    ensures ok ==> ilp.objective == Objective(ilp.numVertices, ilp.numParts, ilp.loadGroups, ilp.storeGroups, ilp.loadWeight)
    ensures ok ==> ilp.rows == ModelRows(ilp.graph, ilp.numParts, ilp.rSize, ilp.tSize, ilp.loadGroups, ilp.storeGroups)
  {
    ok := ilp.AddColVars();
    if !ok {
      return;
    }
    ghost var columns, objective := ilp.columns, ilp.objective;
    AddRows(ilp);
    assert ilp.columns == columns && ilp.objective == objective;
  }

  /** `main`'s calls from `solve` to `ValidateSoln` on a built model. */
  method SolveModel(ilp: PartitionILP, solver: Solver) returns (a: Attempt)
    requires ilp.Valid()
    ensures a == SolvedAs(solver, Model(ilp.columns, ilp.objective, ilp.rows), ilp.graph, ilp.numParts,
                          ilp.rSize, ilp.tSize, ilp.loadGroups, ilp.storeGroups)
  {
    var res := solver(Model(ilp.columns, ilp.objective, ilp.rows));
    if res.None? {
      return Infeasible;
    }
    var parts := ilp.SaveParts(res.value);
    var validated, counts := ilp.ValidateSoln(res.value);
    assert parts == Cut(res.value, ilp.graph, ilp.numParts);
    return Solved(parts, validated);
  }

  /** One iteration of the driver: build the model for `numParts`
      partitions, solve it, and on success cut the graph and validate. */
  method TryParts(gp: Graph, rSize: int, tSize: int, numParts: nat, loadWt: int, solver: Solver) returns (a: Attempt)
    ensures a == Attempted(solver, gp, rSize, tSize, numParts, loadWt)
  {
    var ilp := new PartitionILP(gp, rSize, tSize, numParts, loadWt);
    var ok := BuildModel(ilp);
    if !ok {
      return ScanError;
    }
    assert Model(ilp.columns, ilp.objective, ilp.rows) == IlpOf(gp, rSize, tSize, numParts, loadWt);
    a := SolveModel(ilp, solver);
  }

  /** The outcome of the driver. */
  datatype Outcome =
    | Found(iteration: nat, numParts: nat, parts: seq<Graph>, validated: bool)
    | Exhausted
    | Aborted

  /** The attempt of each partition count. */
  function AttemptsOf(solver: Solver, g: Graph, size: int, transLimit: int, loadWt: int): nat -> Attempt {
    (numParts: nat) => Attempted(solver, g, size, transLimit, numParts, loadWt)
  }

  /** The driver from iteration `i` on, trying `numParts` partitions first. */
  function SearchFrom(attempt: nat -> Attempt, numParts: nat, i: nat): Outcome
    decreases Iterations + 1 - i
  {
    if i > Iterations then Exhausted
    else
      match attempt(numParts)
      case ScanError => Aborted
      case Solved(parts, validated) => Found(i, numParts, parts, validated)
      case Infeasible => SearchFrom(attempt, numParts + 1, i + 1)
  }

  /** `attempts` names the attempt of every partition count. */
  ghost predicate Names(attempts: nat -> Attempt, solver: Solver, gp: Graph, size: int, transLimit: int, loadWt: int) {
    forall m: nat {:trigger Attempted(solver, gp, size, transLimit, m, loadWt)} ::
      attempts(m) == Attempted(solver, gp, size, transLimit, m, loadWt)
  }

  /** One iteration of the driver, its outcome read through `attempts`. */
  method Iteration(gp: Graph, size: int, transLimit: int, numParts: nat, loadWt: int, solver: Solver,
                   ghost attempts: nat -> Attempt) returns (a: Attempt)
    requires Names(attempts, solver, gp, size, transLimit, loadWt)
    ensures a == attempts(numParts)
  {
    a := TryParts(gp, size, transLimit, numParts, loadWt, solver);
  }

  /** `main`'s loop over the iterations, trying `start` partitions first;
      `attempts` names what each partition count yields. */
  method SearchLoop(gp: Graph, size: int, transLimit: int, loadWt: int, solver: Solver, start: nat,
                    ghost attempts: nat -> Attempt) returns (out: Outcome)
    requires Names(attempts, solver, gp, size, transLimit, loadWt)
    ensures out == SearchFrom(attempts, start, 1)
  {
    var numParts := start;
    var i := 1;
    while i <= Iterations
      invariant 1 <= i <= Iterations + 1
      invariant SearchFrom(attempts, numParts, i) == SearchFrom(attempts, start, 1)
    {
      var a := Iteration(gp, size, transLimit, numParts, loadWt, solver, attempts);
      match a {
        case ScanError =>
          return Aborted;
        case Solved(parts, validated) =>
          return Found(i, numParts, parts, validated);
        case Infeasible =>
      }
      numParts := numParts + 1;
      i := i + 1;
    }
    return Exhausted;
  }

  /** The driver: from `CeilDiv(V, size)` partitions upwards, at most 100
      attempts, stopping at the first the solver solves. */
  method PartitionSearch(gp: Graph, size: int, transLimit: int, loadWt: int, solver: Solver) returns (out: Outcome)
    requires size > 0
    ensures out == SearchFrom(AttemptsOf(solver, gp, size, transLimit, loadWt), CeilDiv(NumNodes(gp), size), 1)
  {
    out := SearchLoop(gp, size, transLimit, loadWt, solver, CeilDiv(NumNodes(gp), size), AttemptsOf(solver, gp, size, transLimit, loadWt));
  }

  /** A search that finds a solution stops at the first solved count and
      all counts before it were infeasible. */
  lemma {:induction false} SearchFromFound(attempts: nat -> Attempt, numParts: nat, i: nat)
    requires 1 <= i
    requires SearchFrom(attempts, numParts, i).Found?
    ensures var out := SearchFrom(attempts, numParts, i);
      && i <= out.iteration <= Iterations
      && out.numParts == numParts + out.iteration - i
      && attempts(out.numParts) == Solved(out.parts, out.validated)
      && forall m :: numParts <= m < out.numParts ==> attempts(m).Infeasible?
    decreases Iterations + 1 - i
  {
    if attempts(numParts).Infeasible? {
      SearchFromFound(attempts, numParts + 1, i + 1);
    }
  }

  /** An exhausted search found every count it tried infeasible. */
  lemma {:induction false} SearchFromExhausted(attempts: nat -> Attempt, numParts: nat, i: nat)
    requires 1 <= i <= Iterations + 1
    requires SearchFrom(attempts, numParts, i).Exhausted?
    ensures forall m :: numParts <= m < numParts + (Iterations + 1 - i) ==> attempts(m).Infeasible?
    decreases Iterations + 1 - i
  {
    if i <= Iterations {
      SearchFromExhausted(attempts, numParts + 1, i + 1);
    }
  }

  /** When every attempt fails the scan, or none does, the search aborts
      exactly in the first case, provided it tries at least once. */
  lemma {:induction false} SearchFromAborted(attempts: nat -> Attempt, numParts: nat, i: nat, scanFails: bool)
    requires i <= Iterations
    requires forall m :: attempts(m).ScanError? <==> scanFails
    ensures SearchFrom(attempts, numParts, i).Aborted? <==> scanFails
    decreases Iterations + 1 - i
  {
    if attempts(numParts).Infeasible? && i < Iterations {
      SearchFromAborted(attempts, numParts + 1, i + 1, scanFails);
    }
  }

  /** Each attempt of a driver run fails the scan exactly when the labels
      do not scan, and solves exactly the solvable models. */
  lemma AttemptsMeaning(solver: Solver, gp: Graph, size: int, transLimit: int, loadWt: int)
    ensures forall m: nat :: AttemptsOf(solver, gp, size, transLimit, loadWt)(m).ScanError? <==> ScanLabels(gp.labels).None?
    ensures forall m: nat :: AttemptsOf(solver, gp, size, transLimit, loadWt)(m).Solved? <==> Solvable(solver, gp, size, transLimit, m, loadWt)
  {
    forall m: nat
      ensures AttemptsOf(solver, gp, size, transLimit, loadWt)(m).ScanError? <==> ScanLabels(gp.labels).None?
      ensures AttemptsOf(solver, gp, size, transLimit, loadWt)(m).Solved? <==> Solvable(solver, gp, size, transLimit, m, loadWt)
    {
      AttemptSolved(solver, gp, size, transLimit, m, loadWt);
    }
  }

  /** The driver aborts exactly when the labels do not scan. */
  lemma PartitionSearchAborts(gp: Graph, size: int, transLimit: int, loadWt: int, solver: Solver)
    requires size > 0
    ensures SearchFrom(AttemptsOf(solver, gp, size, transLimit, loadWt), CeilDiv(NumNodes(gp), size), 1).Aborted?
      <==> ScanLabels(gp.labels).None?
  {
    AttemptsMeaning(solver, gp, size, transLimit, loadWt);
    SearchFromAborted(AttemptsOf(solver, gp, size, transLimit, loadWt), CeilDiv(NumNodes(gp), size), 1, ScanLabels(gp.labels).None?);
  }

  /** A partition count the driver reports is the first solvable one from
      `CeilDiv(V, size)` on, within 100 attempts, and its sub-graphs are the
      solution cut per partition. */
  lemma PartitionSearchFound(gp: Graph, size: int, transLimit: int, loadWt: int, solver: Solver)
    requires size > 0
    ensures var start := CeilDiv(NumNodes(gp), size);
      var out := SearchFrom(AttemptsOf(solver, gp, size, transLimit, loadWt), start, 1);
      out.Found? ==>
        && 1 <= out.iteration <= Iterations
        && out.numParts == start + out.iteration - 1
        && Solvable(solver, gp, size, transLimit, out.numParts, loadWt)
        && out.parts == Cut(solver(IlpOf(gp, size, transLimit, out.numParts, loadWt)).value, gp, out.numParts)
        && forall m :: start <= m < out.numParts ==> !Solvable(solver, gp, size, transLimit, m, loadWt)
  {
    var start := CeilDiv(NumNodes(gp), size);
    var attempts := AttemptsOf(solver, gp, size, transLimit, loadWt);
    var out := SearchFrom(attempts, start, 1);
    if out.Found? {
      SearchFromFound(attempts, start, 1);
      AttemptsMeaning(solver, gp, size, transLimit, loadWt);
      assert attempts(out.numParts) == Attempted(solver, gp, size, transLimit, out.numParts, loadWt);
    }
  }

  /** When the driver gives up, none of the 100 counts it tried was solvable. */
  lemma PartitionSearchExhausted(gp: Graph, size: int, transLimit: int, loadWt: int, solver: Solver)
    requires size > 0
    ensures var start := CeilDiv(NumNodes(gp), size);
      SearchFrom(AttemptsOf(solver, gp, size, transLimit, loadWt), start, 1).Exhausted? ==>
        forall m :: start <= m < start + Iterations ==> !Solvable(solver, gp, size, transLimit, m, loadWt)
  {
    var start := CeilDiv(NumNodes(gp), size);
    var attempts := AttemptsOf(solver, gp, size, transLimit, loadWt);
    if SearchFrom(attempts, start, 1).Exhausted? {
      SearchFromExhausted(attempts, start, 1);
      forall m | start <= m < start + Iterations
        ensures !Solvable(solver, gp, size, transLimit, m, loadWt)
      {
        assert attempts(m).Infeasible?;
        AttemptSolved(solver, gp, size, transLimit, m, loadWt);
      }
    }
  }

  /** On a well-formed graph whose load and store groups have distinct ids,
      the solution the driver reports with a sound solver passes the validator. */
  lemma PartitionSearchValidated(gp: Graph, size: int, transLimit: int, loadWt: int, solver: Solver)
    requires size > 0
    requires Sound(solver) && WellFormed(gp)
    requires ScanLabels(gp.labels).Some? && DisjointIds(ScanLabels(gp.labels).value)
    ensures SearchFrom(AttemptsOf(solver, gp, size, transLimit, loadWt), CeilDiv(NumNodes(gp), size), 1).Found? ==>
      SearchFrom(AttemptsOf(solver, gp, size, transLimit, loadWt), CeilDiv(NumNodes(gp), size), 1).validated
  {
    var attempts := AttemptsOf(solver, gp, size, transLimit, loadWt);
    var out := SearchFrom(attempts, CeilDiv(NumNodes(gp), size), 1);
    if out.Found? {
      SearchFromFound(attempts, CeilDiv(NumNodes(gp), size), 1);
      AttemptValidated(solver, gp, size, transLimit, out.numParts, loadWt);
    }
  }
}
