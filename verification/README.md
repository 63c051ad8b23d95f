# DFGprop in Dafny

A Dafny model of the partitioning core of DFGprop. DFGprop is a set of tools
that cut a data-flow graph (DFG) of a loop body into pieces small enough to
map onto a spatial accelerator. Each node of the graph is an operation. A
label such as `load;7` or `store;3` marks a memory access and its group (the
integer after the first `;`, which the analysis tools read as a stride).

The project models three parts of the repository:

- **The ILP partitioner** (`CPLEX/partition.cpp`). Class `PartitionILP`
  reads the graph and its load/store groups. It builds a 0-1 integer linear
  program, family by family: vertex-to-partition columns `X_ij`,
  inter-partition columns `X_ikl` and `Y_ikl`, group columns, uniqueness
  rows, size rows, precedence rows, crossing rows, transfer-limit rows and
  group rows. It then reads a solution back to validate it, and it cuts the
  graph into one sub-graph per partition, with scratch-pad nodes for the
  values that cross a cut. The driver `main` starts from the fewest
  partitions the size allows and tries one more per attempt, up to 100
  attempts.
- **The analysis utilities** (`src/DFGUtils.cpp`). These include:
  - a depth-first topological sort;
  - an as-soon-as-possible (ASAP) time assignment, in which a load or store
    whose stride is at least `STRIDE_MIN` takes no step;
  - the critical path length;
  - `getCombs`, which lists combinations with `std::prev_permutation`;
  - `getInterNds`, the window counts;
  - three drivers that cut the levels `[0, timeMax]` of the schedule into
    consecutive windows that each hold at most `map_size` nodes.
- **The `DFGAnaly` class** (`src/DFGAnaly.cpp`). It holds one graph and
  provides the same topological sort, a time assignment in which every node
  takes one step and which counts the loads at time 1, and a critical path
  length that also counts the nodes at each level.

## Layout

One module per file:

| file | module | what it holds |
|---|---|---|
| `wrappers.dfy` | `Wrappers` | `Option` and `Result` |
| `graphs.dfy` | `Graphs` | the graph as labels and an edge sequence; successors, predecessors, walks, acyclicity |
| `labels.dfy` | `Labels` | `std::string::find`, `std::stoi` and the classification of a label into a load or store group |
| `group_table.dfy` | `GroupTable` | the ordered group tables (`std::map<int, std::vector<int>>`) |
| `ilp.dfy` | `Ilp` | variables, terms, rows and their value under a 0/1 valuation |
| `pairs.dfy` | `Pairs` | the partition pairs `(k, l)`, `k < l`, in loop order |
| `catalogue.dfy` | `Catalogue` | the label scan, the columns and the objective |
| `rows.dfy` | `Rows` | every row family as a function of the graph and the parameters |
| `semantics.dfy` | `Semantics` | what each row family means for a 0/1 solution |
| `validation.dfy` | `Validation` | what `validateSoln` checks, and the theorem that every solution of the model passes it |
| `report.dfy` | `Report` | the in edges and transaction totals `validateSoln` prints, and the balance of in edges against out edges |
| `partition_ilp.dfy` | `PartitionIlp` | class `PartitionILP`; its builder methods are proved to add exactly the rows of `Rows` |
| `extraction.dfy` | `Extraction` | the partitions of a solution and the renumbering of their vertices |
| `search.dfy` | `Search` | the driver loop of `main`, with the solver as a parameter |
| `topo.dfy` | `Topo` | the depth-first topological sort over a `visited` array |
| `schedule.dfy` | `Schedule` | the ASAP time assignment, as a function and as an imperative loop |
| `levels.dfy` | `Levels` | node counts per level and per window |
| `combs.dfy` | `Combs` | `getCombs` and the bitmask enumeration behind it |
| `partitions.dfy` | `Partitions` | what `partitionDFGnP` accepts, and the independent definition of a valid partitioning |
| `dfg_utils.dfy` | `DfgUtils` | the free functions of `src/DFGUtils.cpp` |
| `dfg_analy.dfy` | `DfgAnaly` | class `DFGAnaly` |

These are the main results:

- `Validation.ModelSolutionsValidate`: every solution of the model passes
  the validator.
- `Search.PartitionSearchValidated`: when the solver is sound and no id
  names both a load group and a store group, the driver's answer is
  validated.
- `Topo.TopoSort`: the sort lists every node once, and every edge goes
  forward exactly when the graph is acyclic.
- `Schedule.ScheduleMeaning`: the time assignment yields the ASAP schedule.
- `Combs.GetCombs`: `getCombs` lists each k-subset exactly once.
- `Partitions.AcceptedValid` and `DfgUtils.PartitionDFGnP`:
  `partitionDFGnP` lists exactly the valid partitionings, each once.

## Model

| member | source | states |
|---|---|---|
| Graphs.SuccsInIff | CPLEX/partition.cpp:139-145 | a node is among the successors `getSuccessors` lists for `u` exactly when some edge goes from `u` to it |
| Graphs.PredsInIff | src/DFGUtils.cpp:54-63 | a node is among the predecessors `getPredecessors` lists for `v` exactly when some edge goes from it to `v` |
| Graphs.SuccPredConverse | CPLEX/partition.cpp:737-782 | `v` occurs among the successors of `u` exactly as often as `u` occurs among the predecessors of `v`, so the out-edge pass and the in-edge pass of the validator see the same edges with the same multiplicity |
| Graphs.SuccsBounded | CPLEX/partition.cpp:379-381 | in a well-formed graph every successor id is an existing node |
| Graphs.PredsBounded | src/DFGUtils.cpp:54-63 | in a well-formed graph every predecessor id is an existing node |
| Labels.FindChar | CPLEX/partition.cpp:110 | `find(";")` gives the first position of `;` or -1 (`npos` cast to `int`), and no earlier `;` exists |
| Labels.GroupIdText | CPLEX/partition.cpp:110-111 | the text after the first `;` is strictly shorter than the label; without `;` the whole label is handed to `stoi` |
| Labels.SkipSpaces | CPLEX/partition.cpp:111 | `stoi` skips exactly the leading white space |
| Labels.DigitRun | CPLEX/partition.cpp:111 | `stoi` reads the longest run of digits and stops at the first non-digit |
| Labels.NatToString | CPLEX/partition.cpp:92-94 | `to_string` of a natural number is a non-empty digit string whose value is the number |
| Labels.StoiIntToString | CPLEX/partition.cpp:111 | `stoi` reads back every 32-bit value that `to_string` writes |
| Labels.StoiDigits | CPLEX/partition.cpp:111 | `stoi` of a digit string is its value when it fits in 32 bits and an `out_of_range` failure otherwise |
| Labels.StoiNegDigits | CPLEX/partition.cpp:111 | `stoi` of `-digits` is the negated value when it fits in 32 bits and a failure otherwise |
| Labels.MarkersBeforeId | CPLEX/partition.cpp:108-121 | appending `;id` to an operation name neither creates nor removes a "load"/"LOD" or "store"/"STR" marker |
| Labels.ClassifyTagged | CPLEX/partition.cpp:106-137 | a label `op;id` is classified by the markers of `op` with group `id` |
| Labels.ClassifyMissingId | CPLEX/partition.cpp:110-111 | a marked label without a numeric id, bare or followed by an empty `;`, makes `stoi` throw |
| Labels.ClassifyWithoutDelimiter | CPLEX/partition.cpp:110-111 | with no `;` the whole label goes to `stoi`, so a marked label such as "7load" joins group 7 |
| GroupTable.InsertKeySpec | CPLEX/partition.cpp:113-121 | inserting a group id into the sorted key list of a `std::map` keeps it sorted, adds exactly that id and changes nothing when it is already there |
| GroupTable.Add | CPLEX/partition.cpp:113-121 | appending a node to its group (creating the group when absent) changes only that group's member list, which gains the node at the end |
| GroupTable.InsertKeys | CPLEX/partition.cpp:480-486 | `map::insert` of a range gives the sorted union of the key sets |
| GroupTable.InsertBoth | CPLEX/partition.cpp:480-486 | inserting the load map and then the store map keeps every load entry and adds only the store groups whose ids are new |
| Ilp.EvalAppend | CPLEX/partition.cpp:297-303 | the value of a row's linear form over two term lists is the sum of their values |
| Ilp.HoldsAllAppend | CPLEX/partition.cpp:965-973 | the rows added by successive `add*Cons` calls hold together exactly when each batch holds |
| Ilp.EvalScaled | CPLEX/partition.cpp:297-303 | a form whose every coefficient is `c` evaluates to `c` times the number of its variables set to 1 |
| Ilp.CountPositive | CPLEX/partition.cpp:496-499 | that number is positive exactly when some variable of the list is 1 |
| Ilp.CountBounded | CPLEX/partition.cpp:503-508 | at most every variable of a list is 1 |
| Pairs.AllPairsMembers | CPLEX/partition.cpp:211-212 | the nested loops `k < numParts - 1`, `k < l < numParts` visit exactly the pairs `k < l < numParts` |
| Pairs.AllPairsSize | CPLEX/partition.cpp:208-212 | they visit `numParts * (numParts - 1) / 2` pairs |
| Pairs.RowPairsUpTo | CPLEX/partition.cpp:212 | the inner loop visits `numParts - k - 1` pairs |
| Catalogue.ScanLabels | CPLEX/partition.cpp:106-137 | the label scan yields well-formed load and store group tables, or fails |
| Catalogue.ScanLabelsStep | CPLEX/partition.cpp:106-137 | each node extends the scan by what its label makes of it, and a label whose id does not parse makes the whole scan fail |
| Catalogue.ScanFailure | CPLEX/partition.cpp:111-126 | the scan fails exactly when some marked label's id makes `stoi` throw |
| Catalogue.ScanMembers | CPLEX/partition.cpp:113-135 | load group `gid` lists exactly the nodes whose label is a load of `gid`, and store group `gid` exactly the stores of `gid` |
| Catalogue.ScanMembersSorted | CPLEX/partition.cpp:106-119 | every group lists its members in increasing node id order, each below the node count, when the nodes are visited in id order (see "## Left out") |
| Catalogue.ScanCounts | CPLEX/partition.cpp:123-136 | `numLoads` and `numStores` count the nodes classified as loads and as stores |
| Catalogue.NodeStep | CPLEX/partition.cpp:107-137 | one node's step keeps both group tables well formed |
| Catalogue.VerticesWithSuccs | CPLEX/partition.cpp:139-145 | `Vout` counts the vertices with a successor, so it is at most the vertex count |
| Catalogue.AssignColumnsSize | CPLEX/partition.cpp:90-101 | the assignment loop creates `numVertices * numParts` columns |
| Catalogue.AssignColumnsMembers | CPLEX/partition.cpp:90-101 | they are exactly the `X(i, j)` with `i < numVertices` and `j < numParts` |
| Catalogue.InterColumnsMembers | CPLEX/partition.cpp:208-222 | the inter-partition loop creates exactly the `Xikl` and `Yikl` with `i < numVertices` and `k < l < numParts` |
| Catalogue.InterColumnsSize | CPLEX/partition.cpp:208-224 | there are `numVertices * numParts * (numParts - 1)` of them, the value `nInPa` takes |
| Catalogue.ColumnsContents | CPLEX/partition.cpp:97-218 | the columns handed to the solver are exactly the assignment and inter-partition variables, `V P + V P (P - 1)` of them |
| Catalogue.GroupVarListMembers | CPLEX/partition.cpp:152-178 | the group vectors hold exactly `lpg(g, p)` or `lps(g, p)` for every existing group `g` and `p < numParts` |
| Catalogue.CoefOfScaled | CPLEX/partition.cpp:249-253 | a later `setLinearCoef` on a variable overrides an earlier one |
| Catalogue.WriteVarsMembers | CPLEX/partition.cpp:243-258 | the write pass of the objective visits exactly the `Xikl` with `k < l < numParts` |
| Catalogue.ObjectiveMeaning | CPLEX/partition.cpp:86-260 | the objective gives each assignment variable coefficient 0, each group variable `loadWeight`, each `Xikl` 2 (read and write) and every other variable none |
| Rows.UniqueRowsIndex | CPLEX/partition.cpp:296-305 | `addUniqueCons` writes, for each vertex `i`, the row `sum_j X(i, j) = 1` at position `i` |
| Rows.SizeRowsIndex | CPLEX/partition.cpp:310-318 | `addSizeCons` writes, for each partition `p`, the row `0 <= sum_j X(j, p) <= RSize` at position `p` |
| Rows.PrecRowsIndex | CPLEX/partition.cpp:324-344 | `addEdgePrec` writes, for the `k`-th edge, the row `sum_p p X(src, p) - sum_p p X(dst, p) <= 0` at position `k` |
| Rows.VertexInterRows | CPLEX/partition.cpp:352-417 | a vertex without successors gets two rows per partition pair, and one with successors four |
| Rows.InterRowsCount | CPLEX/partition.cpp:350-420 | `addInterPartCons` adds `P (P - 1) (V + Vout)` rows in all |
| Rows.ReadRowsIndex | CPLEX/partition.cpp:428-446 | the `k`-th read row bounds the `Xipk` with `p < k` plus the load group variables of `k` by `[0, TSize]` |
| Rows.WriteRowsIndex | CPLEX/partition.cpp:449-467 | the `k`-th write row bounds the `Xikp` with `p > k` plus the store group variables of `k` by `[0, TSize]` |
| Rows.TransRows | CPLEX/partition.cpp:423-473 | `addTransCons` adds `2 * numParts` rows |
| Rows.GroupRowsOver | CPLEX/partition.cpp:488-514 | `addLoadStoreReuse` adds two rows per group and partition |
| Semantics.FirstPartFromSpec | CPLEX/partition.cpp:656-664 | `getMapPart` returns the first partition whose assignment variable is 1, and -1 exactly when there is none |
| Semantics.PlacedPart | CPLEX/partition.cpp:656-664 | for a vertex placed exactly once, `getMapPart` returns its partition and no other assignment variable is 1 |
| Semantics.PlacedIff | CPLEX/partition.cpp:667-677 | the validator's count of set assignment variables is 1 exactly when one partition holds the vertex |
| Semantics.UniqueRowsMeaning | CPLEX/partition.cpp:296-305 | the uniqueness rows hold exactly when every vertex lies in exactly one partition |
| Semantics.SizeRowsMeaning | CPLEX/partition.cpp:310-318 | the capacity rows hold exactly when no partition holds more than `RSize` vertices |
| Semantics.PrecRowMeaning | CPLEX/partition.cpp:324-344 | with both ends placed, an edge's precedence row holds exactly when the source's partition is not after the destination's |
| Semantics.PrecRowsMeaning | CPLEX/partition.cpp:324-344 | the precedence rows hold exactly when every edge goes forward or stays in its partition |
| Semantics.LinkRowsMeaning | CPLEX/partition.cpp:375-392 | the two linking rows hold exactly when `Yikl` is 1 precisely when some successor of `i` lies in `l` |
| Semantics.AndRowsMeaning | CPLEX/partition.cpp:396-416 | the two product rows hold exactly when `Xikl` is `Xik` and `Yikl` |
| Semantics.PinRowsMeaning | CPLEX/partition.cpp:356-371 | the pinning rows of a vertex without successors hold exactly when `Xikl` and `Yikl` are 0 |
| Semantics.VertexInterMeaning | CPLEX/partition.cpp:352-417 | when a vertex's inter-partition rows hold, `Yikl` says some successor lies in `l` and `Xikl` says moreover that the vertex lies in `k` |
| Semantics.GroupPartMeaning | CPLEX/partition.cpp:491-511 | the two reuse rows of a group and partition hold exactly when the group variable is 1 precisely when some member lies in that partition |
| Semantics.GroupRowsMeaning | CPLEX/partition.cpp:476-517 | when the reuse rows hold, `lpg(g, p)` says some load of `g` lies in `p`, and `lps(g, p)` the same for a store group whose id no load group uses |
| Validation.WritesWithinOutEdges | CPLEX/partition.cpp:741-768 | a partition writes no more values than it has out edges, since each written value leaves along some edge |
| Validation.CountsUpToStep | CPLEX/partition.cpp:741-768 | visiting one vertex adds a write to its partition when some successor lies later, one read to each later partition holding a successor, and its later successors to its out edges |
| Validation.ModelRowsSplit | CPLEX/partition.cpp:965-973 | the model holds exactly when the uniqueness, capacity, precedence, inter-partition, reuse and transaction rows all hold |
| Validation.PrecedenceFromModel | CPLEX/partition.cpp:695-721 | in a solution every edge's source is placed and its partition is not after the destination's |
| Validation.CrossingFromModel | CPLEX/partition.cpp:741-761 | in a solution every value crossing forward from `k` to `l` has `Xikl` set |
| Validation.GroupsPlacedFromModel | CPLEX/partition.cpp:795-822 | in a solution every member of every load and store group is placed |
| Validation.ReadsOfVertex | CPLEX/partition.cpp:428-437 | the read terms of one vertex in the read row of `k` add up to 1 exactly when the vertex lies earlier and feeds `k` |
| Validation.WritesOfVertex | CPLEX/partition.cpp:449-458 | the write terms of one vertex in the write row of `k` add up to at least 1 when the vertex lies in `k` and feeds a later partition |
| Validation.GroupVarsMeaning | CPLEX/partition.cpp:476-517 | in a solution each group variable of partition `k` is 1 exactly when its group has a member in `k` |
| Validation.ReadLimitFromModel | CPLEX/partition.cpp:428-446 | the read row of `p` bounds reads plus load transactions of `p` by `TSize` |
| Validation.WriteLimitFromModel | CPLEX/partition.cpp:449-467 | the write row of `p` bounds writes plus store transactions of `p` by `TSize` |
| Validation.LimitsFromModel | CPLEX/partition.cpp:836-845 | in a solution every partition keeps both transaction limits |
| Validation.ModelSolutionsValidate | CPLEX/partition.cpp:665-850 | every valuation that satisfies all rows of the model passes every assertion of `ValidateSoln` (with load and store group ids disjoint) |
| Report.InCountsStep | CPLEX/partition.cpp:771-781 | counting one more vertex adds its earlier predecessors to the in edges of its own partition and leaves the other partitions alone |
| Report.TotalsCrossing | CPLEX/partition.cpp:737-782 | when every edge joins vertices of the graph, counting later successors vertex by vertex and counting earlier predecessors vertex by vertex both give the number of forward edges |
| Report.OutVectorSum | CPLEX/partition.cpp:737-768 | with every vertex placed, the out edges of all partitions add up to the later successors of all vertices |
| Report.InVectorSum | CPLEX/partition.cpp:770-782 | with every vertex placed, the in edges of all partitions add up to the earlier predecessors of all vertices |
| Report.InOutBalance | CPLEX/partition.cpp:724-782 | on a well-formed graph with every vertex placed, the printed out edges and in edges of all partitions both add up to the number of edges from an earlier partition to a later one |
| Report.SumMarks | CPLEX/partition.cpp:801-808 | adding one transaction to every partition in `partMapd` adds `partMapd.size()` to the sum of the per-partition transactions |
| PartitionIlp.PartitionILP.constructor | CPLEX/partition.cpp:67-80 | the object keeps the graph, `RSize`, `TSize`, `numParts` and `loadWeight`, starts with empty group tables, zero counters and an empty model |
| PartitionIlp.PartitionILP.AssignVars | CPLEX/partition.cpp:89-103 | the assignment loop yields the columns `X(i, j)` vertex by vertex, each at objective coefficient 0, and counts `numVertices * numParts` of them |
| PartitionIlp.PartitionILP.ScanNodes | CPLEX/partition.cpp:106-147 | the node loop yields the label scan of the graph (or its `stoi` failure) and counts the vertices with a successor |
| PartitionIlp.PartitionILP.GroupVars | CPLEX/partition.cpp:152-178 | one group variable per group and partition, in key order, each at objective coefficient `loadWeight`, `groups * numParts` in all |
| PartitionIlp.PartitionILP.InterVars | CPLEX/partition.cpp:206-224 | the `Xikl`, `Yikl` columns of every vertex and pair, `numVertices * numParts * (numParts - 1)` of them |
| PartitionIlp.PartitionILP.ReadMarks | CPLEX/partition.cpp:228-240 | the read pass marks exactly the triples `(i, p, l)` with `i < numVertices` and `p < l < numParts` |
| PartitionIlp.PartitionILP.VertexWriteCoefs | CPLEX/partition.cpp:243-258 | when every pair of the vertex is marked, the write pass sets every `Xikl` of the vertex to 2 |
| PartitionIlp.PartitionILP.WriteReadCoefs | CPLEX/partition.cpp:228-258 | after the read pass every `Xikl` ends at objective coefficient 2 |
| PartitionIlp.PartitionILP.AddAssignVars | CPLEX/partition.cpp:86-103 | appends the assignment columns and their zero objective entries and sets `nXij` |
| PartitionIlp.PartitionILP.ReadGroups | CPLEX/partition.cpp:106-147 | succeeds exactly when every marked label parses, and then holds the scanned group tables, load and store counts and `Vout` |
| PartitionIlp.PartitionILP.AddGroupVars | CPLEX/partition.cpp:150-178 | appends the load group vectors and then the store group vectors at `loadWeight` and sets `nLp` |
| PartitionIlp.PartitionILP.AddInterVars | CPLEX/partition.cpp:204-224 | appends the inter-partition columns and sets `nInPa` |
| PartitionIlp.PartitionILP.AddWriteReadCoefs | CPLEX/partition.cpp:226-258 | appends every `Xikl` to the objective at coefficient 2 |
| PartitionIlp.PartitionILP.AddColVars | CPLEX/partition.cpp:82-261 | fails exactly on an unparsable group id; otherwise the groups are the scanned ones, the columns are `Catalogue.Columns` and the objective is `Catalogue.Objective` (whose meaning `Catalogue.ObjectiveMeaning` states) |
| PartitionIlp.PartitionILP.AddUniqueCons | CPLEX/partition.cpp:296-308 | appends one uniqueness row per vertex and counts `numVertices` rows |
| PartitionIlp.PartitionILP.AddSizeCons | CPLEX/partition.cpp:310-322 | appends one capacity row per partition and counts `numParts` rows |
| PartitionIlp.PartitionILP.AddEdgePrec | CPLEX/partition.cpp:324-348 | appends one precedence row per edge in edge order and counts `numEdges` rows |
| PartitionIlp.PartitionILP.VertexInterCons | CPLEX/partition.cpp:352-417 | the rows of one vertex: pinned to 0 without successors, link and product rows otherwise |
| PartitionIlp.PartitionILP.PairPass | CPLEX/partition.cpp:375-416 | one pass writes the rows of every pair `k < l` in loop order |
| PartitionIlp.PartitionILP.AddInterPartCons | CPLEX/partition.cpp:350-421 | appends the inter-partition rows of every vertex and counts them |
| PartitionIlp.PartitionILP.LoadStoreReuse | CPLEX/partition.cpp:478-515 | the reuse rows of every group of the merged table, where a load group wins an id clash |
| PartitionIlp.PartitionILP.AddLoadStoreReuse | CPLEX/partition.cpp:476-518 | appends the reuse rows and counts them |
| PartitionIlp.PartitionILP.ReadRowAt | CPLEX/partition.cpp:429-446 | the read row of partition `k` over the earlier-partition `Xipk` and the load group variables of `k` |
| PartitionIlp.PartitionILP.WriteRowAt | CPLEX/partition.cpp:450-467 | the write row of partition `k` over the later-partition `Xikp` and the store group variables of `k` |
| PartitionIlp.PartitionILP.AddTransCons | CPLEX/partition.cpp:423-474 | appends every read row and then every write row and counts `2 * numParts` rows |
| PartitionIlp.PartitionILP.GetMapPart | CPLEX/partition.cpp:656-664 | returns the first partition whose assignment variable is 1, and -1 exactly when there is none |
| PartitionIlp.PartitionILP.CheckUniqueness | CPLEX/partition.cpp:667-678 | passes exactly when every vertex lies in exactly one partition |
| PartitionIlp.PartitionILP.CheckCapacity | CPLEX/partition.cpp:680-691 | passes exactly when no partition holds more than `RSize` vertices |
| PartitionIlp.PartitionILP.CheckPrecedence | CPLEX/partition.cpp:693-722 | passes exactly when every edge's source is placed and not after its destination |
| PartitionIlp.PartitionILP.VertexCrossings | CPLEX/partition.cpp:741-763 | the crossing check of one vertex passes exactly when each later successor's `Xikl` is set, and then reports whether it writes, which later partitions it feeds and its later successors |
| PartitionIlp.PartitionILP.VertexCounts | CPLEX/partition.cpp:737-769 | one vertex's step keeps the write, read and out-edge counts equal to their definitions |
| PartitionIlp.PartitionILP.CheckCrossings | CPLEX/partition.cpp:724-769 | passes exactly when every forward crossing has its `Xikl` set, and then gives per partition the writes, reads and out edges, with writes at most out edges |
| PartitionIlp.PartitionILP.GroupParts | CPLEX/partition.cpp:790-801 | fails exactly on an unplaced member, and otherwise marks exactly the partitions holding a member of the group |
| PartitionIlp.PartitionILP.VertexInEdges | CPLEX/partition.cpp:771-781 | one vertex's in edges are its predecessors placed in an earlier partition, one per edge |
| PartitionIlp.PartitionILP.CheckInEdges | CPLEX/partition.cpp:770-782 | gives per partition the edges that enter it from an earlier partition (`Report.InEdgeCount`) |
| PartitionIlp.PartitionILP.CheckGroups | CPLEX/partition.cpp:787-830 | fails exactly on an unplaced member, and otherwise counts per partition the groups with a member there; the running total of `partMapd` sizes (`loadTrans`, `storeTrans`) is the sum of those counts |
| PartitionIlp.PartitionILP.ValidateSoln | CPLEX/partition.cpp:665-850 | passes every assertion exactly when the solution is a valid partitioning (`Validation.ValidSolution`); then the counts it prints are the writes, out edges, reads, in edges and load and store transactions per partition and the transaction totals (`Report.Reports`), and on a well-formed graph the out edges and the in edges of all partitions both add up to the forward edges |
| PartitionIlp.PartitionILP.GetVersPart | CPLEX/partition.cpp:852-862 | lists exactly the vertices placed in `pid`, in increasing order |
| PartitionIlp.PartitionILP.PartNodes | CPLEX/partition.cpp:881-889 | renumbers the partition's vertices by their rank and copies their labels |
| PartitionIlp.PartitionILP.PartEdge | CPLEX/partition.cpp:892-920 | one edge is copied inside the partition, becomes an edge to a new `sc_pad_write` node when it leaves forward, becomes one from a new `sc_pad_read` node when it arrives from earlier, and is otherwise dropped |
| PartitionIlp.PartitionILP.SavePart | CPLEX/partition.cpp:876-924 | builds the sub-graph `Extraction.ClipGraph` of one partition |
| PartitionIlp.PartitionILP.SaveParts | CPLEX/partition.cpp:864-927 | builds one sub-graph per partition |
| Extraction.VersPartSpec | CPLEX/partition.cpp:852-862 | the vertex list of partition `p` holds exactly the vertices whose variable for `p` is set, each once, in increasing order |
| Extraction.PartsSplitVertices | CPLEX/partition.cpp:864-927 | when every vertex is placed once, each vertex is in the list of its own partition and of no other |
| Extraction.IndexOf | CPLEX/partition.cpp:881-887 | the position of the first occurrence, and the list length exactly when the entry is absent |
| Extraction.IndexOfIncreasing | CPLEX/partition.cpp:881-887 | in a list without repetitions, the normalized id of an entry is its index |
| Extraction.ClipShape | CPLEX/partition.cpp:879-921 | a sub-graph starts with the labels of its vertices, every further node is a scratch pad, and every edge joins two of its nodes |
| Extraction.ClipCounts | CPLEX/partition.cpp:892-920 | a sub-graph has one edge per kept graph edge and one scratch-pad node per crossing edge |
| Extraction.ClipSound | CPLEX/partition.cpp:892-920 | every edge of a sub-graph stands for a graph edge with the same label, whose missing end lies in a later or an earlier partition |
| Extraction.ClipComplete | CPLEX/partition.cpp:892-920 | every graph edge that is inside, leaves forward or arrives from earlier is carried by an edge of the sub-graph |
| Search.CeilDivSpec | CPLEX/partition.cpp:955 | the first partition count tried is the fewest partitions of `size` vertices that hold all vertices |
| Search.ScannedMembersBelow | CPLEX/partition.cpp:106-137 | every member of a scanned group is a node of the graph |
| Search.AttemptSolved | CPLEX/partition.cpp:964-977 | an attempt fails the scan exactly when a label does not parse, and is solved exactly when the solver solves its model |
| Search.AttemptValidated | CPLEX/partition.cpp:975-977 | with a sound solver, on a well-formed graph whose load and store ids differ, every solution passes the validator |
| Search.AddRows | CPLEX/partition.cpp:966-973 | `main`'s calls from `addUniqueCons` to `addTransCons` append every row of the model in that order |
| Search.AddVertexRows | CPLEX/partition.cpp:966-968 | the calls from `addUniqueCons` to `addEdgePrec` append the uniqueness, capacity and precedence rows in that order |
| Search.AddGroupRows | CPLEX/partition.cpp:971-973 | the calls from `addInterPartCons` to `addTransCons` append the inter-partition, reuse and transaction rows in that order |
| Search.BuildModel | CPLEX/partition.cpp:965-973 | building a fresh model succeeds exactly when the labels scan, and then gives the scanned groups and the whole model: columns, objective and rows |
| Search.SolveModel | CPLEX/partition.cpp:975-977 | a built model's attempt is the solver's answer, cut into sub-graphs and validated |
| Search.TryParts | CPLEX/partition.cpp:960-986 | one iteration of the driver yields the attempt for its partition count |
| Search.Iteration | CPLEX/partition.cpp:960-986 | one iteration of the loop yields the attempt named for its partition count |
| Search.SearchLoop | CPLEX/partition.cpp:959-987 | the loop from iteration 1 is the driver's search |
| Search.PartitionSearch | CPLEX/partition.cpp:955-987 | the driver searches from `ceil(V / size)` partitions upwards |
| Search.SearchFromFound | CPLEX/partition.cpp:959-987 | a search that finds a solution stops at the first solved count, and every count before it was infeasible |
| Search.SearchFromExhausted | CPLEX/partition.cpp:959-987 | a search that runs out of iterations found every count it tried infeasible |
| Search.SearchFromAborted | CPLEX/partition.cpp:959-987 | a search aborts exactly when the labels fail to scan |
| Search.AttemptsMeaning | CPLEX/partition.cpp:964-977 | each attempt fails the scan exactly when the labels do not scan, and solves exactly the solvable models |
| Search.PartitionSearchAborts | CPLEX/partition.cpp:106-137 | the driver aborts exactly when the labels do not scan |
| Search.PartitionSearchFound | CPLEX/partition.cpp:955-987 | a found result is at iteration `i` with `ceil(V / size) + i - 1` partitions, is solvable, is the solution cut per partition, and no smaller count tried was solvable |
| Search.PartitionSearchExhausted | CPLEX/partition.cpp:959-987 | when the driver gives up, none of the 100 counts it tried was solvable |
| Search.PartitionSearchValidated | CPLEX/partition.cpp:955-987 | with a sound solver, on a well-formed graph whose load and store ids differ, the reported solution passes the validator |
| Topo.TopoSortHelper | src/DFGUtils.cpp:8-19 | the recursive visit marks nodes, pushes only newly visited ones and ends with `node` pushed; on an acyclic graph every pushed node has all its successors pushed before it |
| Topo.VisitSucc | src/DFGUtils.cpp:12-17 | one successor is visited unless it already was, and the visit's bookkeeping advances by that successor |
| Topo.FinishVisit | src/DFGUtils.cpp:18 | pushing `node` at the end of its visit keeps the stack of distinct visited nodes, finished on an acyclic graph |
| Topo.BackEdgeStacked | src/DFGUtils.cpp:12-17 | on an acyclic graph a successor that is already visited has already been pushed |
| Topo.TopoSort | src/DFGUtils.cpp:21-42 | the popped stack lists every node exactly once, and every edge goes forward along it exactly when the graph has no cycle |
| Topo.ForwardOrderAcyclic | src/DFGUtils.cpp:21-42 | a node order that keeps every edge forward rules out cycles |
| Topo.PoppedOrder | src/DFGUtils.cpp:36-39 | popping a full stack of distinct nodes lists every node once, with every edge forward when the stack is finished |
| Schedule.Delay | src/DFGUtils.cpp:64-84 | a node takes one step or none; with unit delays always one; the delay is undefined exactly when a "load" or "store" label's stride makes `stoi` throw |
| Schedule.Info | src/DFGUtils.cpp:53-84 | each node's delay and "load" mark are read from its label |
| Schedule.Place | src/DFGUtils.cpp:67-83 | `timeSt[n] = t` changes the time of `n` alone |
| Schedule.PredMaxValue | src/DFGUtils.cpp:54-63 | the predecessor loop exits exactly when some predecessor is still -1, and otherwise yields the largest predecessor time (0 for none) |
| Schedule.MaxOfBounds | src/DFGUtils.cpp:52-62 | that largest time is at least 0 and every predecessor time, and is 0 or one of them |
| Schedule.PredsFirstForward | src/DFGUtils.cpp:49-63 | along a node order, visiting predecessors first is the same as every edge going forward |
| Schedule.StepKeeps | src/DFGUtils.cpp:49-89 | one node's step succeeds exactly when its predecessors are timed and its delay is defined, and then keeps every timed node's equation, the largest time and the load count |
| Schedule.StepSound | src/DFGUtils.cpp:64-84 | giving `n` the largest predecessor time plus its delay keeps the equations of the timed nodes and adds that of `n` |
| Schedule.StepTimeMax | src/DFGUtils.cpp:86-88 | `if (timeMax < t) timeMax = t` keeps `timeMax` the largest time |
| Schedule.StepLoads | src/DFGAnaly.cpp:87-89 | the load counter grows exactly when a "load" node gets time 1 |
| Schedule.RunKeeps | src/DFGUtils.cpp:49-89 | the rest of the outer loop finishes exactly when predecessors come first and every delay is defined, and then every node visited is scheduled |
| Schedule.RunOrder | src/DFGUtils.cpp:43-92 | over a node order the loop finishes exactly when every edge goes forward and every delay is defined, and gives an as-soon-as-possible schedule with its maximum and load count |
| Schedule.ScheduleMeaning | src/DFGUtils.cpp:43-92 | `assignTime` over a node order finishes exactly when every edge goes forward and every stride parses, and its times are then the as-soon-as-possible schedule, `timeMax` their maximum and the load counter the number of "load" nodes at time 1 |
| Schedule.LabelInfo | src/DFGUtils.cpp:53-84 | what the loop reads from the labels describes every node, and running on it is `assignTime` |
| Schedule.NodeDelay | src/DFGUtils.cpp:64-84 | the label branch yields the node's delay (none when its stride does not parse) and its "load" mark |
| Schedule.PredTimeMax | src/DFGUtils.cpp:52-63 | the predecessor loop over the time array is `PredMax`: the largest predecessor time, or nothing at an unassigned predecessor |
| Schedule.SetTime | src/DFGUtils.cpp:67 | `timeSt[n] = t` changes entry `n` of the array and nothing else |
| Schedule.Visit | src/DFGUtils.cpp:50-88 | one node of the outer loop succeeds exactly when its step does, and then leaves the array, `timeMax` and the load counter as the step says |
| Schedule.TimeLoop | src/DFGUtils.cpp:49-89 | the outer loop over `order` is the run of the steps from all times -1 |
| Schedule.AssignTime | src/DFGUtils.cpp:43-92 | `assignTime` is `Schedule`, whose meaning `ScheduleMeaning` states |
| Schedule.AsapEdge | src/DFGUtils.cpp:54-84 | along every edge `u -> v` of a schedule, `v` comes at least its delay after `u` |
| Schedule.AsapUnique | src/DFGUtils.cpp:43-92 | a graph with a topological order has one as-soon-as-possible schedule, whichever order computed it |
| Schedule.UnitLevels | src/DFGAnaly.cpp:86 | with unit delays every time is at least 1, and exactly 1 for the nodes without predecessors |
| Schedule.WalkBound | src/DFGAnaly.cpp:86-93 | with unit delays no walk has more nodes than the time of its last node, so none has more than `timeMax` |
| Schedule.LongestWalkTo | src/DFGAnaly.cpp:86 | with unit delays some walk of exactly `times[v]` nodes ends at `v` |
| Schedule.UnitAcyclic | src/DFGAnaly.cpp:55-86 | with unit delays a graph with an as-soon-as-possible schedule has no cycle |
| Levels.CountInSize | src/DFGUtils.cpp:204-205 | the count of a window is the number of nodes timed in it |
| Levels.CountInSplit | src/DFGUtils.cpp:279-285 | the windows `[lo, mid]` and `[mid + 1, hi]` split `[lo, hi]` |
| Levels.CountInAll | src/DFGUtils.cpp:279-285 | a window holding every time counts every node, and an empty window none |
| Levels.LevelCounts | src/DFGAnaly.cpp:122-124 | the count at level `i` is `std::count` of `i` over the times, for every level `0 .. timeMax` |
| Levels.LevelPrefixSum | src/DFGUtils.cpp:281-283 | the running sum of the level counts up to `j - 1` is the count of the window `[0, j - 1]` |
| Levels.LevelsSum | src/DFGUtils.cpp:104-107 | when every time lies in `[0, m]`, the level counts add up to the number of nodes |
| Levels.CountOutSize | src/DFGUtils.cpp:204-221 | the out count of a window is the number of its nodes with a successor timed after it |
| Levels.CountOutWithin | src/DFGUtils.cpp:208-219 | only nodes of the window count as leaving it, so `out <= total` |
| Combs.Rep | src/DFGUtils.cpp:181 | `std::string bitmask(k, 1)` is `k` ones |
| Combs.Resize | src/DFGUtils.cpp:182 | `resize(n, 0)` gives length `n` |
| Combs.ResizeOnes | src/DFGUtils.cpp:181-182 | `k` ones resized to `n` is the first mask with `min(k, n)` ones |
| Combs.MasksFirst | src/DFGUtils.cpp:181-182 | the first mask has its ones in front |
| Combs.MasksLast | src/DFGUtils.cpp:196 | the last mask has its ones behind, where `prev_permutation` stops |
| Combs.MasksOnes | src/DFGUtils.cpp:185-196 | every mask has length `n` and `k` ones |
| Combs.MasksComplete | src/DFGUtils.cpp:185-196 | every mask of length `n` with `k` ones is listed |
| Combs.MasksDistinct | src/DFGUtils.cpp:185-196 | no mask is listed twice |
| Combs.PrevPermSmaller | src/DFGUtils.cpp:196 | `prev_permutation` keeps the length and the ones and gives a lexicographically smaller mask |
| Combs.Smallest | src/DFGUtils.cpp:196 | `prev_permutation` reports false on the smallest arrangement, zeros first |
| Combs.MasksStep | src/DFGUtils.cpp:185-196 | `prev_permutation` steps every mask to the next one listed, and reports false after the last |
| Combs.Positions | src/DFGUtils.cpp:186-193 | the split points of a mask are the positions of its ones, increasing |
| Combs.PositionsCount | src/DFGUtils.cpp:186-193 | a mask has one split point per one |
| Combs.PositionsOf | src/DFGUtils.cpp:186-193 | every increasing list of positions below `n` is the split points of some mask of length `n` |
| Combs.PositionsAllShape | src/DFGUtils.cpp:186-193 | masks of length `n` with `k` ones give `k`-element subsets of `[0, n)` |
| Combs.PositionsAllDistinct | src/DFGUtils.cpp:186-193 | distinct masks give distinct split-point lists |
| Combs.PositionsAllComplete | src/DFGUtils.cpp:186-193 | when every mask is listed, every `k`-element subset is among the split-point lists |
| Combs.MasksAll | src/DFGUtils.cpp:181-196 | the masks are all of length `n` with `k` ones, all distinct, and every such mask is listed |
| Combs.PositionsInjective | src/DFGUtils.cpp:186-193 | masks of one length with the same split points are equal |
| Combs.CombsFirst | src/DFGUtils.cpp:179-199 | the first combination listed is `0 .. k - 1` |
| Combs.CombsSubsets | src/DFGUtils.cpp:179-199 | the combinations are exactly the `k`-element subsets of `[0, n)`, each once, as increasing lists |
| Combs.Splits | src/DFGUtils.cpp:186-193 | the inner loop collects the split points of the mask |
| Combs.StepsFrom | src/DFGUtils.cpp:181-196 | the masks the loop steps through from the first one give, as split points, the combinations |
| Combs.GetCombs | src/DFGUtils.cpp:179-199 | `getCombs(n, k)` lists `Combs(n, min(k, n))` |
| DfgAnaly.LongestWalk | src/DFGAnaly.cpp:118-127 | with unit delays `timeMax` is the critical path length in nodes: no walk is longer and, when there is a node, some walk is that long |
| DfgAnaly.UnitLevelCounts | src/DFGAnaly.cpp:122-124 | with unit delays level 0 is empty and the counts of levels `0 .. timeMax` add up to the number of nodes |
| DfgAnaly.CountLevels | src/DFGAnaly.cpp:122-124 | the printing loop counts the nodes at every level `0 .. timeMax` |
| DfgAnaly.DFGAnaly.constructor | src/DFGAnaly.cpp:4-6 | the object holds the graph it is given |
| DfgAnaly.DFGAnaly.TopoSort | src/DFGAnaly.cpp:7-41 | the member `topoSort` lists every node once, with every edge forward exactly when the graph has no cycle |
| DfgAnaly.DFGAnaly.AssignTime | src/DFGAnaly.cpp:42-98 | one step per node; over a node order it finishes exactly when every edge goes forward, and gives the as-soon-as-possible schedule, its maximum and the number of "load" nodes at time 1 |
| DfgAnaly.DFGAnaly.CriticalPathLen | src/DFGAnaly.cpp:118-127 | defined exactly on acyclic graphs; the length is the number of nodes of a longest walk, and the level counts add up to the nodes with level 0 empty |
| Partitions.Window | src/DFGUtils.cpp:201-225 | a window's `out` count never exceeds its `total` |
| Partitions.Limit | src/DFGUtils.cpp:239 | `pData.total > map_size` compares against `map_size` converted to `uint32_t`: a negative size wraps to a bound near 2^32 |
| Partitions.FillShape | src/DFGUtils.cpp:233-249 | the inner loop yields at most one part per split point; part `j` ends at split `j` and starts after the previous one; every part holds its window's counts and fits the limit |
| Partitions.TilingEnds | src/DFGUtils.cpp:244-247 | the ends of consecutive windows rise, so part `j` ends at level `j` or later |
| Partitions.FillOf | src/DFGUtils.cpp:233-249 | given the ends of a cut that fits, the inner loop rebuilds it |
| Partitions.FillValid | src/DFGUtils.cpp:232-252 | a combination of `npart - 1` splits whose inner loop reaches `npart` parts gives a valid partitioning of `[0, timeMax]` |
| Partitions.ValidSplits | src/DFGUtils.cpp:232-252 | every valid partitioning comes from the combination of its first `npart - 1` ends |
| Partitions.FillEnds | src/DFGUtils.cpp:236-249 | a run that used every split point ends its parts at them |
| Partitions.KeepIn | src/DFGUtils.cpp:252 | the runs kept are exactly those with `npart` parts |
| Partitions.KeepDistinct | src/DFGUtils.cpp:252 | when no two runs of `npart` parts are equal, nothing is kept twice |
| Partitions.RunsDistinct | src/DFGUtils.cpp:233-249 | distinct combinations give distinct runs of `npart` parts |
| Partitions.AcceptedSound | src/DFGUtils.cpp:232-261 | every partitioning `partitionDFGnP` prints is valid |
| Partitions.AcceptedComplete | src/DFGUtils.cpp:232-261 | every valid partitioning is printed |
| Partitions.AcceptedValid | src/DFGUtils.cpp:227-263 | `partitionDFGnP` prints exactly the valid partitionings into `npart` windows, each once |
| Partitions.TotalsPrefix | src/DFGUtils.cpp:244-247 | the totals of the first parts add up to the nodes timed up to the last part's end |
| Partitions.ValidCovers | src/DFGUtils.cpp:227-263 | when every time lies in `[0, timeMax]`, the totals of a valid partitioning add up to the number of nodes |
| DfgUtils.TimeNodes | src/DFGUtils.cpp:228-231 | `topoSort` then `assignTime` finish exactly on acyclic graphs whose strides parse, and give the as-soon-as-possible schedule and its maximum |
| DfgUtils.SameSchedule | src/DFGUtils.cpp:266-268 | two as-soon-as-possible schedules of a graph with a topological order agree, and so do their maxima, so every call of `partitionDFGnP` from `partitionDFGVar` sees the same schedule |
| DfgUtils.CriticalPathLen | src/DFGUtils.cpp:112-117 | defined exactly on acyclic graphs whose strides parse, and then the maximum of the as-soon-as-possible schedule |
| DfgUtils.LeavesAfter | src/DFGUtils.cpp:209-216 | the successor loop finds exactly whether the node has a successor timed after `end` |
| DfgUtils.GetInterNds | src/DFGUtils.cpp:201-225 | counts the nodes timed in `[start, end]` and those of them with a successor after `end` |
| DfgUtils.PartsOf | src/DFGUtils.cpp:234-249 | the inner loop over the split points is `Fill`, stopping at the first window that does not fit |
| DfgUtils.CutsOf | src/DFGUtils.cpp:233-261 | the outer loop keeps the runs of `npart` parts in order and counts them |
| DfgUtils.FittingCuts | src/DFGUtils.cpp:232-261 | over the combinations of `npart - 1` split levels below `timeMax`, the cuts kept are exactly the valid ones into `npart` windows, each once, and the count is their number |
| DfgUtils.PartitionDFGnP | src/DFGUtils.cpp:227-263 | defined exactly on acyclic graphs whose strides parse; the count is the number of printed partitionings, which are exactly the valid ones into `npart` windows, each once |
| DfgUtils.NoCutNext | src/DFGUtils.cpp:266-272 | a count `n` with no fitting cut extends the range `2 .. n - 1` of counts that have none |
| DfgUtils.PartitionDFGVar | src/DFGUtils.cpp:265-273 | stops exactly where the schedule does; on success with `n` windows (2 to 4) some cut into `n` windows fits and no smaller count from 2 has one; otherwise none of 2, 3, 4 has one |
| DfgUtils.SplitSides | src/DFGUtils.cpp:283-285 | the two sides of a split hold every node |
| DfgUtils.AsapBounds | src/DFGUtils.cpp:43-92 | the times of a schedule lie between 0 and `timeMax` |
| DfgUtils.SplitLines | src/DFGUtils.cpp:279-286 | for every level `s`, the first side counts the nodes timed up to `s`, the second the rest, together every node, and the intermediate count is that of the window `[0, s]` |
| DfgUtils.PartitionDFG | src/DFGUtils.cpp:275-288 | defined exactly where the schedule is, and then one line per level as `SplitLines` states |

## Left out

- Reading the DOT input, `toDOT`, `mkdir`, the log file `cplex.log` and `exportModel("test.lp")` (`CPLEX/partition.cpp:864-927,941-957`). This is file I/O. The sub-graphs that `saveParts` would write are returned as values instead.
- Console output. Where a result is only printed, the model returns it: `found` and `applicableParts` of `partitionDFGnP`, the `lines` of `partitionDFG`, the level counts of `criticalPathLen`, the count of loads at time 1, and the per-partition counts and transaction totals of `validateSoln`. The total cost `loadWeight * (storeTrans + loadTrans)` that `validateSoln` prints follows from the returned totals and is not returned separately.
- `printVarCons`, `printStats` and the solution statistics in `solve` (`CPLEX/partition.cpp:520-598,613-626`). These only print. So do `getBasicProps` (`src/DFGUtils.cpp:119-177`) and the command-line handling of both `main` functions.
- `getParallelism` (`src/DFGUtils.cpp:93-110`, `src/DFGAnaly.cpp:99-116`). It is a floating-point ratio of nodes to critical path length, and floating point is not modelled.
- The timing with `std::chrono` in `main` is left out. Clocks are not modelled.
- The CPLEX solver itself. The driver takes the solver as a function parameter. The main theorems assume only that it is sound, that is, every assignment it returns satisfies every row of the model. Exceptions inside `solve` and the solver's optimisation goal are not modelled.
- `compareEqual` with its 1e-5 tolerance (`CPLEX/partition.cpp:647-652`). Solution values are modelled as booleans, so a value compares equal to 1 exactly when it is true.
- `addEdgesCons` (`CPLEX/partition.cpp:263-290`). `main` does not call it; the call is commented out at line 970.
- `IloRange::setLinearCoef` keeps the last coefficient set for a variable in a row. The model adds one term per call. The two differ only when a variable is set twice in one row. That happens with duplicate edges, and with a self-loop `u -> u`, whose precedence row sets each `X(u, p)` first to `p` and then to `-p`: the source keeps `-p`, so the row reads `sum of -p * X(u, p) <= 0`, while the model's terms cancel to `0 <= 0`. Both hold for every 0/1 solution, so the rows are equivalent.
- `std::map::insert` in `allLSMap` and `allLSGroups` keeps the first entry on a clash of group ids. The model's union lets the load group win too. The validation theorems assume that load ids and store ids are disjoint, as the source comment at `CPLEX/partition.cpp:63` intends.
- Labels without `;`. Such a label is classified by parsing the whole label, as the code does (`find` returns `npos`, so `pos + 1` is 0). For example, `7load` is load group 7, although one could expect a parse error there.
- `std::stoi` is modelled on the decimal forms it accepts, within the `int32` range. A throw from `stoi`, and the `exit(-1)` on an unassigned predecessor, end the program; the model returns `None` or `Stopped` (in `Search`, `ScanError`/`Aborted`).
- Fixed-width integers (`uint32_t`, `int32_t`, `int`) are modelled as unbounded integers, which is correct for graphs with fewer than 2^31 nodes and levels. The exception is `Partitions.Limit`, which models the unsigned conversion of `map_size` in `pData.total > map_size`. The sentinel `-1` of the `uint32_t` time table in `src/DFGUtils.cpp` is `Unassigned`.
- `STRIDE_MIN` is defined in a header that is not part of this model. It is a parameter `strideMin`.
- The stride-dependent delays in `src/DFGAnaly.cpp:65-85` are commented out in the source. The `DFGAnaly` model therefore gives every node one step.
- The assignTime of `src/DFGUtils.cpp` has no load counter. The shared `Schedule.AssignTime` also computes the count of loads at time 1, which the utilities' drivers ignore.
- The `assert(...)` calls of `validateSoln` (`CPLEX/partition.cpp:676-846`). In the source, a failed assert aborts the program, and with `NDEBUG` it is skipped. The model returns `ok == false` at the first failing check instead, and `PartitionIlp.PartitionILP.ValidateSoln` states that `ok` holds exactly when every assertion holds.
- `Vout`, a field of `PartitionILP` (`CPLEX/partition.cpp:44`), is never initialised: the constructor (`CPLEX/partition.cpp:66-79`) does not set it, and `addColVars` only increments it (`CPLEX/partition.cpp:139-145`). Only `printVarCons` reads it. The model starts it at 0.
- `PartitionIlp.PartitionILP.AddColVars`: its ensures does not restate the counters `nXij`, `nLp` and `nInPa`. The sub-methods it calls state them.
- `Search.PartitionSearch`: requires `size > 0`. With `size <= 0` the source's `ceil(float(V) / float(size))` is infinite or negative and its conversion to `int` is undefined.
- `Search.CeilDivSpec`: states the exact rounded-up quotient. The source computes it in `float`, which may round differently for counts above 2^24.
- `DfgUtils.PartitionDFGnP`: requires `npart >= 1`. With `npart < 1`, `getCombs(timeMax, npart - 1)` builds a string of negative size, which throws.
- The `DAG` class, `Node` and `Edge` (`Graph.h`, `Edge.h`) are not part of this model. The graph is a value made of node labels and an edge sequence. `getSuccessors` and `getPredecessors` list one entry per edge, in edge order. The node list `nodeBegin()..nodeEnd()` that `addColVars` walks (`CPLEX/partition.cpp:106`) is taken to be in id order. That order only decides the order of the members within a group, and so the order of the terms in the reuse rows. It does not change what any row means.
- `std::prev_permutation` is modelled as the function `Combs.PrevPerm` on boolean masks, with a zero written `false`. Only masks of zeros and ones are needed.
