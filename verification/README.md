# Verified models of the arch-com compiler's algorithmic cores

arch-com compiles a hardware description language. This project models the parts of it whose correctness is a
mathematical claim, and proves that claim for all inputs and all runs:

* **The staged datapath compiler** (`FpIr`, `FpOps`, `FpEval`, `Linearize`, `StagedPlan`, `StagedRender`,
  `StagedEmit`, `StagedTop`, `StagedCorrect`, `StagedRun`, `LeafSchedule`, `StagedCompile`). Bit-vector expressions
  are a store of nodes whose operands have smaller ids; a node's id plays the part of its shared pointer. The
  interpreter, with its memo, its short-circuiting and its 128-bit host arithmetic, is proved against a direct
  definition, and every value against the arithmetic of the operation. The emitted module is a netlist: per stage a
  list of blocking assignments, and a register layer between stages. Main result: on every clocked run the netlist
  computes the interpreter's value of the function, `stages - 1` cycles late; `StagedCompile` states it of whatever
  the renderer accepts.
* **Combinational code analysis** (`Graph`, `Tarjan`, `TarjanSteps`, `TarjanScc`, `TarjanRun`, `Kahn`, `CombCode`,
  `CombDeps`, `FoldScan`, `FoldSound`, `FoldFilter`, `FoldWays`, `FoldExact`, `FoldGraph`). Comb blocks get a
  blocking-assignment meaning, and the analyses are proved sound against it: the strongly connected components, the
  instance order, the per-output dependencies, and the filter that drops false cycles, with the exact conditions under
  which the last two hold.
* **Number formats** (`FpRound`, `FpDouble`, `FpEncode`, `Grids`, `Ladder`, `LadderPolicy`, `BlockQuant`). Rounding a
  double to a narrow format, the E4M3 and all-finite encoders, and block quantization by comparing with thresholds,
  end to end. Magnitudes are exact, and so is every product the emitted comparisons form, which is proved.
* **The block dot product** (`DotSchedule`, `StagedDot`, `StagedDotEmit`). The pairwise summation order and its
  delay-balanced pipeline, over arbitrary add, multiply and widen operations.
* **The thread runtime** (`Barrier`, `Scheduler`). The spin barrier as a system of atomic steps; the coroutine
  scheduler as a class.
* **Construct equations** (`FifoIr`, `Fifo`, `Arbiter`, `CreditChannel`). FIFO, LIFO, arbiter and credit-channel
  next-state equations against a queue, a stack, first-from-start fairness and conservation.

`BitVec`, `Sets` and `Wrappers` hold shared arithmetic and result types. `dafny verify dfyconfig.toml` checks everything.

## Findings

Claims of the source or its comments that do not hold as stated. The first four have a concrete failing input and an
exact condition; where comment and code differ, the model follows the code.

* **False-cycle filter.** The comments of `is_fold_artifact` and `scan_assignments_inner` (src/comb_graph.rs:1448-1507,
  2020-2076) argue that judging data reads by the union of the branches' assignments is sound. It is not:
  `if c { y = 1 }  x = y;  y = x` is accepted, although with `c = 0` the final `x` is the old `y`
  (`FoldFilter.ShippedFilterUnsound`). What the filter accepts is stated exactly, for all code, by what the code reads
  (`FoldExact.FalseCycleExactly`); judged by the intersection, it would refuse a component exactly when some way through
  the code reads a member before assigning it (`StrictExactly`). On loop-free code the filter is sound on every component
  without such an early read (`ShippedSoundWithoutEarlyReads`), and what it accepts beyond the strict reading is exactly
  the components with one (`ShippedExcess`). An early read can still be harmless, so no such condition is exact for final
  values (`EarlyReadMayBeHarmless`).
* **Loop ranges.** `collect_comb_deps` does not look at a loop's range (src/comb_graph.rs:764-766), so an input that
  only sets a trip count is missing from an output's dependencies (`CombDeps.LoopRangeIsMissed`). With the ranges counted
  the dependencies are complete without exception (`FullNonInterference`); those computed are complete for every output
  to which counting the ranges would add no input (`NonInterference`), in particular when it would add no signal at all,
  which is when every range that feeds the output's upstream is already upstream (`CoveredExactly`). A missing input can
  still be harmless (`RangeMayBeHarmless`).
* **Full-width rounding.** With 52 mantissa bits `round_f64_to_narrow` returns before its overflow test
  (src/fp_lit.rs:117-121), although its assertion admits 52. `FpEncode.RoundF64ToNarrow` states exactly which finite
  inputs come out right: those up to the magnitude of the infinity code, and -2^(3 * 2^(expBits-1)), whose overlong
  exponent field falls on the sign bit (`AbsorbedIs`: at most nine exponent bits). Without mantissa bits, which the
  assertion also admits, a NaN packs as infinity, because its mantissa bit is masked away (src/fp_lit.rs:57-77). The
  comment there says the sign of a NaN is dropped; the code keeps it, and so does the model.
* **Bit-vector FIFO occupancy.** At the pointer width the generated checks use (src/construct_formal_ir.rs:501-502) the
  occupancy term (src/construct_formal_ir.rs:1005-1010) wraps for some depths, three being the first: a full FIFO is not
  seen as full. `Fifo.BvStepExact` and `BvRunExact` give the exact depths, over single cycles and over whole runs from
  reset; the generated sanity query holds at all depths (`SanityHolds`) and so does not see it.
* **Gate weights.** The comment in `gate_weight` gives comparisons the width of their operands (src/fp_ir.rs:954-960),
  but the width passed to it is the comparison's own, which is one (`LeafSchedule.GateWeights`).
* **Instance cycles.** The documentation of `analyze_module` promises an error on a cycle (src/comb_graph.rs:997-1005);
  the code never returns one and falls back to declaration order, and so does the model.

## Model

| member | source | states |
|---|---|---|
| FpEval.SextIsSigned | src/fp_ir.rs:527-534 | the host's sign extension by or-ing a complemented mask is the two's-complement reading at every width from 1 to 128 |
| FpEval.WordBinIsMeaning | src/fp_ir.rs:577-605 | wrapping 128-bit host arithmetic followed by a mask is arithmetic modulo 2^w, and shifts past the width give zero |
| FpEval.WordOpIsMeaning | src/fp_ir.rs:569-631 | every operator as the host computes it is its bit-vector meaning, concatenation by shift-or and signed compares included |
| FpOps.BitwiseBits | src/fp_ir.rs:589-591 | each bit of an and, or and exclusive or is the product, the union and the sum modulo two of the operands' bits |
| FpOps.BitwiseSums | src/fp_ir.rs:589-591 | two numbers add up to their or plus their and, and to their exclusive or plus twice their and |
| FpOps.BinMeans | src/fp_ir.rs:583-612 | sums and differences up to one wrap, the remainder of a product or a left shift, the quotient of a right shift, and the connectives bit by bit |
| FpOps.MeaningHolds | src/fp_ir.rs:565-631 | every operation by arithmetic on its operands: fields as quotient and remainder, complement, orders of the numbers and of their signed readings |
| FpOps.ExtractUndoesConcat | src/fp_ir.rs:565-568 | extracting either part of a concatenation gives it back |
| FpEval.EvalFits | src/fp_ir.rs:541-547 | whatever the interpreter decides fits the node's width, for every program and well-typed environment |
| FpEval.EvalGo | src/fp_ir.rs:553-660 | the memoised evaluator returns the unmemoised definition's value at every depth and leaves a memo that stays true; it terminates on every call graph |
| FpEval.EvalIte | src/fp_ir.rs:632-638 | only the chosen arm is evaluated, and an undecidable other arm does not matter |
| FpEval.EvalCall | src/fp_ir.rs:639-656 | a call beyond the depth budget, to an unknown callee or with the wrong arity or widths is undecided; otherwise it is the callee's value on the arguments |
| FpEval.ValueHolds | src/fp_ir.rs:553-660 | a decided value is what the operation's arithmetic makes of the values below it |
| FpEval.CallExactly | src/fp_ir.rs:639-656 | a call is decided exactly when it is within 64 frames, finds its first function of that name, binds arguments of the right number and widths, and the body is decided there; then it has the body's value |
| FpEval.EvalBv | src/fp_ir.rs:548-551 | the entry point returns the definition's value, within the node's width, and that value is what the operation's arithmetic makes of the values below |
| Linearize.VisitLinearizes | src/fp_ir.rs:260-297 | the order lists every reachable compound node exactly once, operands before users and the root last |
| Linearize.Lin.Go | src/fp_ir.rs:265-290 | the recursive walk over ids and order computes that order from any state it has reached |
| Linearize.Run | src/fp_ir.rs:260-264 | the whole linearization is such an order, and is determined by the body |
| Linearize.ResolvedEvaluates | src/fp_ir.rs:536-547 | an expression whose variables and calls resolve always has a value |
| Linearize.ValueIsStep | src/fp_ir.rs:569-656 | in a resolved expression a node's value is its operation on its operands' values: short-circuiting cannot be observed |
| Linearize.TempsAreValues | src/fp_ir.rs:350-394 | running the temporaries in order gives each the interpreter's value of its node |
| Linearize.LinearizationPreservesMeaning | src/fp_ir.rs:350-394 | reading the body after running its temporaries gives what the interpreter gives, for every resolved body and environment |
| StagedPlan.StageOf | src/pipelined_ops.rs:110-120 | the stage found is the one whose cut points enclose the temporary |
| StagedPlan.DefInStage | src/fp_ir.rs:853-884 | a temporary listed in a stage is defined by that stage |
| StagedRender.StagedCtx.Resolve | src/fp_ir.rs:846-895 | an operand resolves exactly when the stage reading it can see it, to the name it has there, and its last use is recorded |
| StagedRender.StagedCtx.Rhs | src/fp_ir.rs:900-928 | a right-hand side renders exactly when all its operands resolve, to the node's operation on them |
| StagedEmit.Liveness | src/fp_ir.rs:1152-1190 | the first pass succeeds exactly on acceptable plans and leaves each value's last reading stage |
| StagedEmit.Comb | src/fp_ir.rs:1216-1240 | a stage's block assigns its temporaries, callee before call, from names of that stage |
| StagedEmit.Layer | src/fp_ir.rs:1242-1289 | a register layer loads exactly the inputs and temporaries some later stage reads |
| StagedEmit.Emit | src/fp_ir.rs:1192-1294 | rendering succeeds exactly when every operand is defined by the stage that reads it, and yields the plan's netlist |
| StagedTop.ChecksAreExact | src/fp_ir.rs:1050-1150 | the structural checks accept exactly the well-formed plans: one matching call or none, and cuts that cover both functions |
| StagedTop.RenderStaged | src/fp_ir.rs:1050-1294 | renders exactly the well-formed plans with resolvable operands; whatever it renders is the plan's netlist |
| StagedCorrect.LocatedValue | src/fp_ir.rs:846-895 | what an operand is located as carries the operand's interpreted value, through the inlined callee's parameters too |
| StagedCorrect.TempValue | src/fp_ir.rs:900-928 | the inlined call copies the callee's result; every other temporary applies its node's operation |
| StagedCorrect.SourceBefore | src/fp_ir.rs:1192-1240 | whatever an assignment reads is listed before it |
| StagedRun.CombRuns | src/fp_ir.rs:1216-1240 | a stage's block never reads a name that is missing or not yet assigned |
| StagedRun.LoadsRun | src/fp_ir.rs:1242-1289 | each register layer loads every carried value and disturbs no other layer |
| StagedRun.RunOk | src/fp_ir.rs:1192-1294 | in every cycle of every run layer k holds the values of the inputs of k cycles ago |
| StagedRun.PipelinePreservesMeaning | src/fp_ir.rs:1050-1294 | on every run with a new input each cycle and any power-up contents the output is defined, and from cycle stages-1 on equals the interpreted body on the inputs stages-1 cycles ago |
| StagedCompile.NetlistPipelines | src/fp_ir.rs:1050-1294 | a plan's netlist pipelines its function for every store the function is linked in, every run and every power-up state |
| StagedCompile.CompileStaged | src/fp_ir.rs:1050-1294 | checks, rendering and clocked run composed: exactly the acceptable schedules are rendered, and whatever is rendered outputs the function's interpreted value stages-1 cycles late on every run |
| StagedCompile.CompileLeaf | src/fp_ir.rs:1012-1045 | deriving a schedule and rendering with it succeeds exactly for call-free functions with at least as many nodes as stages, and the result pipelines the function |
| LeafSchedule.DepthIsBound | src/fp_ir.rs:978-1010 | no operand path weighs more than a node's depth |
| LeafSchedule.DepthIsReached | src/fp_ir.rs:978-1010 | some operand path weighs exactly a node's depth |
| LeafSchedule.GateWeights | src/fp_ir.rs:935-973 | wiring is free, a gate weighs a one-bit adder, a carry chain its width, a multiplication or call two additions, a shift the levels of its barrel, a comparison one |
| LeafSchedule.RootIsDeepest | src/fp_ir.rs:978-1010 | no node of an expression is deeper than its root |
| LeafSchedule.NodeGateDepths | src/fp_ir.rs:978-1010 | the forward pass computes that depth for every linearized node |
| LeafSchedule.DeriveLeafSchedule | src/fp_ir.rs:1012-1045 | succeeds exactly for call-free bodies with at least as many nodes as stages, with strictly increasing cuts from zero to the number of nodes, each at its target weight where room allows |
| LeafSchedule.LeafScheduleAccepted | src/fp_ir.rs:1012-1045 | every such schedule is accepted by the staged renderer |
| Graph.ReachTrans | src/comb_graph.rs:2296-2377 | reachability composes |
| Tarjan.VisitKeeps | src/comb_graph.rs:2318-2332 | a first visit keeps the invariant of the search |
| TarjanSteps.AdvanceKeeps | src/comb_graph.rs:2333-2350 | moving past an edge keeps it |
| TarjanSteps.LowerKeeps | src/comb_graph.rs:2344-2372 | lowering a low link to the number of a stacked node the frame reaches keeps it |
| TarjanSteps.CloseKeeps | src/comb_graph.rs:2351-2375 | returning to the parent frame with its low link merged keeps it |
| TarjanScc.EmitKeeps | src/comb_graph.rs:2355-2368 | popping the stack down to a root emits a maximal strongly connected component and keeps the invariant |
| TarjanRun.TarjanSccs | src/comb_graph.rs:2298-2377 | for every adjacency list the result is the maximal strongly connected components, each node in exactly one, every edge leading into the same or an earlier emitted component |
| Kahn.WireSources | src/comb_graph.rs:1026-1038 | a wire's source is the last output connection to it, in instance and connection order |
| Kahn.BuildGraph | src/comb_graph.rs:1040-1085 | an edge exactly from the combinational output that last drives a wire to each other instance whose combinational logic reads it, stored once, with exact in-degrees |
| Kahn.Sort | src/comb_graph.rs:1087-1099 | the popped nodes follow all their producers, and exactly the nodes whose producers were all popped are popped |
| Kahn.ClosedHasCycle | src/comb_graph.rs:1101-1103 | nodes that all still wait for each other contain a cycle |
| Kahn.AnalyzeModule | src/comb_graph.rs:1005-1136 | from the connections of the instances: the order is a permutation; fewer than all are popped exactly when the dependencies have a cycle, and then it is the declaration order, otherwise producers precede consumers |
| CombCode.EvalAgrees | src/comb_graph.rs:66-170 | an expression's value depends on its collected identifiers only |
| CombCode.IdentsNeeded | src/comb_graph.rs:66-170 | each collected identifier is needed: some expression of the same shape follows it |
| CombCode.LoopRuns | src/comb_graph.rs:764-766 | a loop runs its body for each value below its range in order, and not at all for none |
| CombCode.ExecAgrees | src/comb_graph.rs:724-770 | runs of a block that agree on a set of signals closed under what is read for them, the ranges of the loops that assign them included, keep agreeing on it, through different branches and trip counts |
| CombDeps.CollectCombDeps | src/comb_graph.rs:724-770 | adds to each assigned name exactly what its assignments read: values, target indices and every enclosing condition |
| CombDeps.DirectDeps | src/comb_graph.rs:510-527 | the direct map has exactly the driven names, each with everything any item reads for it |
| CombDeps.InputsOf | src/comb_graph.rs:534-560 | the worklist finds exactly the inputs reached backwards without passing another input |
| CombDeps.PerOutputCombDeps | src/comb_graph.rs:483-563 | one entry per output, with exactly those inputs; undriven outputs get none |
| CombDeps.FullNonInterference | src/comb_graph.rs:466-483 | two runs agreeing on all non-inputs and on the inputs upstream of an output, loop ranges counted, give it the same value, for every order and number of evaluations of the items |
| CombDeps.NonInterference | src/comb_graph.rs:466-483 | the same for the computed dependencies of every output to which the ranges add no input |
| CombDeps.CoveredExactly | src/comb_graph.rs:764-766 | counting the ranges adds no signal upstream of an output exactly when every range read for a signal upstream is upstream already |
| CombDeps.CoveredAddsNoInput | src/comb_graph.rs:764-766 | then it adds no input, so the computed dependencies are complete for that output |
| CombDeps.RangeMayBeHarmless | src/comb_graph.rs:764-766 | an input read only in a range can be missing although the output never follows it, so no condition on reads is exact for values |
| CombDeps.LoopRangeIsMissed | src/comb_graph.rs:764-766 | an input read only in a loop range is not a dependency although the output follows it |
| FoldScan.ScanNested | src/comb_graph.rs:2034-2076 | along the whole walk definitely assigned names are established and established names possibly assigned |
| FoldWays.RunIsChoice | src/comb_graph.rs:1998-2032 | every run of loop-free code assigns what one choice of arms assigns |
| FoldWays.WrittenExactly | src/comb_graph.rs:2034-2050 | a name is definitely assigned exactly when every choice of arms assigns it, loops skipped or entered |
| FoldWays.GroundedExactly | src/comb_graph.rs:2051-2055 | a name is established for conditions exactly when every choice of arms assigns it with each loop body taken once |
| FoldScan.EverIsAssigned | src/comb_graph.rs:2041-2076 | the possibly assigned names are exactly those some path may assign |
| FoldScan.DataflowBounds | src/comb_graph.rs:2077-2268 | for a whole block: definitely assigned within what any run writes, within possibly assigned |
| FoldSound.BlockEdgesAreReads | src/comb_graph.rs:2088-2152 | between different signals there is an edge exactly where some assignment reads one for the other, as in the dependency analysis |
| FoldSound.ConditionEdge | src/comb_graph.rs:2138-2149 | every condition around an assignment gives an edge, grounded only if it was established when the condition was met |
| FoldSound.WalkAgrees | src/comb_graph.rs:2077-2268 | states that agree upstream of a settled set and on its assigned members keep doing so through any loop-free code |
| FoldFilter.StrictFilterSound | src/comb_graph.rs:1448-1507 | with data reads judged by definite assignment, an accepted component's assigned signals end with values independent of what its signals held before |
| FoldExact.UngroundedExactly | src/comb_graph.rs:2088-2268 | for all code and both readings: an edge is ungrounded exactly when, loop bodies taken once, a condition around an assignment to its target reads its source early, or an assignment does, strictly along some way, as shipped with no assignment to the source before |
| FoldExact.SelfEdgeExactly | src/comb_graph.rs:2110-2124 | a signal has an edge to itself exactly when an assignment to it, or a condition around one, reads it along some way before it is assigned |
| FoldExact.StrictExactly | src/comb_graph.rs:1491-1507 | judged by definite assignment, a set of signals is refused exactly for an early read among its members, in all code |
| FoldExact.ShippedExactly | src/comb_graph.rs:1491-1507 | as shipped, a set is taken for an artifact exactly when a member is read for a member and none is read early as the filter judges it, in all code |
| FoldExact.FalseCycleExactly | src/comb_graph.rs:1448-1507 | components and filter together, stated by what the code reads and without the graph |
| FoldExact.ShippedExcess | src/comb_graph.rs:2056-2087 | of the components the filter accepts, the strict reading accepts exactly those without an early read |
| FoldExact.ShippedSoundWithoutEarlyReads | src/comb_graph.rs:1448-1507 | on branching code too, a component without an early read ends, where every choice assigns, with values independent of its initial ones |
| FoldExact.EarlyReadMayBeHarmless | src/comb_graph.rs:1448-1507 | a refused component with an early read whose final values never depend on its initial ones: the condition cannot be exact for values |
| FoldFilter.StraightFilterSound | src/comb_graph.rs:1448-1507 | the filter as it is, on straight-line code: the final values of an accepted component do not depend on its initial ones |
| FoldFilter.StrictAcceptsFewer | src/comb_graph.rs:1491-1507 | what the strict reading accepts the filter accepts |
| FoldFilter.ShippedFilterUnsound | src/comb_graph.rs:2041-2070 | on branching code an accepted component can carry its initial value to the end |
| FoldGraph.GraphBuilder.AddEdgeGrounded | src/comb_graph.rs:1448-1456 | a repeated edge is stored once and stays grounded only if every occurrence was |
| FoldGraph.GraphBuilder.Intern | src/comb_graph.rs:1411-1422 | names and node ids determine each other, and old ids stay |
| FoldGraph.GraphBuilder.ScanAssignments | src/comb_graph.rs:2077-2268 | the walk over mutable sets and the mutable graph yields the specified sets and edges |
| FoldGraph.GraphBuilder.IsFoldArtifact | src/comb_graph.rs:1491-1507 | true exactly when the component has an inner edge and all its inner edges are grounded |
| FoldGraph.NamedComponent | src/comb_graph.rs:1306-1327 | components of the numbered graph are components of the graph over names |
| FoldGraph.FoldArtifacts | src/comb_graph.rs:1305-1327 | graph, component search and filter together return exactly the false cycles of the code |
| FpRound.MagMonotone | src/fp_lit.rs:31-39 | larger codes stand for larger magnitudes, across subnormals and binades |
| FpRound.NearestUnique | src/fp_lit.rs:31-45 | at most one code is nearest under the tie rule of IEEE 754-2019: the even significand, or without mantissa bits the larger magnitude |
| FpDouble.FieldsOf | src/fp_lit.rs:49-52 | any sign, exponent and mantissa fields are read back from the pattern they make |
| FpDouble.Decoded | src/fp_lit.rs:49-52 | every 64-bit pattern is its three fields side by side, the sign set exactly in the upper half |
| FpDouble.ValueOf | src/fp_lit.rs:88-97 | the value the fields spell, with and without the leading one, and which patterns are finite |
| FpDouble.PowerPattern | src/fp_lit.rs:88-97 | the patterns of the powers of two and of the smallest double |
| FpDouble.PatternsOrder | src/fp_lit.rs:88-97 | positive patterns order as what they stand for |
| FpRound.RoundedIsNearest | src/fp_lit.rs:126-157 | the kept bits, round bit, sticky bits and parity give the nearest code, through the carry into the next binade and into infinity |
| FpRound.LosslessIsNearest | src/fp_lit.rs:117-121 | without dropped bits the fields spell the value's own code, one of the format's exactly up to 2^(bias+1) |
| FpRound.TinyIsZero | src/fp_lit.rs:122-127 | a value that would lose 64 bits or more is nearest to zero |
| FpEncode.RoundF64ToNarrow | src/fp_lit.rs:45-158 | for every finite double and every format whose sign bit fits the word, mantissa widths 0 to 52: the result is the sign and the nearest code exactly unless the width is 52 and an overflow is missed, the one absorbed negative value excepted; infinities and NaNs as packed |
| FpEncode.WideIsAbsorbed | src/fp_lit.rs:117-121 | past the infinity code's magnitude the full-width result is right for that one value alone, and for no other |
| FpEncode.AbsorbedIs | src/fp_lit.rs:117-121 | the value is -2^(3 * 2^(expBits-1)), which a double reaches for at most nine exponent bits |
| FpEncode.InfinityFrom | src/fp_lit.rs:154-156 | the answer is infinity exactly from half a unit above the largest finite value |
| FpEncode.F64ToE4m3Bits | src/fp_lit.rs:182-223 | nearest-even on the OCP grid up to 448, and nothing exactly when the magnitude exceeds 464 or the input is not finite |
| Grids.ValueOf | src/fp_block.rs:504-508 | exponent and mantissa fields weigh what the code they form stands for |
| Grids.FormatGrid | src/fp_block.rs:482-512 | listing the fields in order without the reserved codes gives the code's magnitude at its index |
| Grids.AllFiniteMagnitudes | src/fp_lit.rs:320-339 | the encoder's own enumeration, by fractions of leading powers of two, lists the same magnitudes as the grid of the format without reserved codes |
| Grids.ScaleGrid | src/fp_block.rs:174-193 | the spelled-out UE4M3 grid is the 4-bit exponent, 3-bit mantissa grid without its NaN code |
| Grids.GridAscending | src/fp_block.rs:482-512 | every format's grid is strictly ascending |
| Ladder.ElemLadder | src/fp_block.rs:526-560 | the rungs are the midpoints of the format's grid, strict at even codes, then the overflow boundary if there is one |
| Ladder.Climb | src/fp_block.rs:1343-1356 | the emitted comparisons, by the target's own products of scale and threshold, select the last rung that fires |
| Ladder.LadderIsNearest | src/fp_block.rs:515-560 | on any ascending grid and any positive scale the ladder's code is the nearest to the value over the scale, ties to even, saturating at the top |
| Ladder.NearestUnique | src/fp_block.rs:515-527 | no two codes are nearest |
| LadderPolicy.SearchNearest | src/fp_lit.rs:368-376 | the exhaustive search returns the nearest magnitude, ties to even |
| LadderPolicy.AllFiniteBits | src/fp_lit.rs:341-378 | on every double: nothing exactly for a value that is not finite or from half a step above the top on, otherwise the sign bit over the nearest code |
| LadderPolicy.PowerTestExact | src/fp_block.rs:604-609 | the whole-logarithm test finds exactly the grid values that are powers of two |
| LadderPolicy.ScaleLadder | src/fp_block.rs:562-634 | the codes of the grid's powers of two in order, and the thresholds of each policy, from code one on |
| LadderPolicy.ScaleIsChosen | src/fp_block.rs:582-634 | exact picks the nonzero scale nearest to the block maximum over the element maximum, floor the largest power of two not exceeding it, ceil the smallest reaching it or the largest there is |
| BlockQuant.BoundaryIsMid | src/fp_block.rs:547-557 | the overflow boundary is the midpoint between the largest finite code and the reserved one above it |
| BlockQuant.NoFiniteScale | src/fp_block.rs:106-126 | the NaN scale is the code after the last finite scale, and the all-zero block's scale is zero |
| BlockQuant.ProductFitsFp32 | src/fp_block.rs:239-245 | every product of a UE4M3 scale with an element threshold is an FP32 value, for every format with at most six exponent and nine mantissa bits |
| BlockQuant.ScaleThresholdsFit | src/fp_block.rs:562-572 | every threshold of the scale ladder is an FP32 value |
| BlockQuant.MaxFinites | src/fp_format.rs:104-203 | the tabled largest values of the five element formats are the tops of their grids |
| BlockQuant.E2m1Table | src/fp_lit.rs:269-305 | the E2M1 encoder's magnitude table is the format's grid, and its overflow limit the grid's boundary |
| BlockQuant.ElementOf | src/fp_block.rs:1340-1371 | an element gets its input's sign and the code nearest to the quotient by the scale, or the format's overflow answer exactly from the boundary on |
| BlockQuant.Quantize | src/fp_block.rs:1255-1378 | the whole conversion: the NaN and zero scales exactly for non-finite and all-zero blocks; otherwise the policy's scale for the largest magnitude, and every element rounded once to nearest |
| BlockQuant.LadderIsEncoder | src/fp_lit.rs:341-378 | at scale one the ladder of an all-finite format gives the encoder's code |
| BlockQuant.LadderIsRounder | src/fp_lit.rs:45-158 | at scale one the ladder of a format with an infinity gives the generic rounder's code, and its overflow rung fires exactly when the rounder answers infinity |
| DotSchedule.DotAdds | src/fp_block.rs:418-459 | n-1 additions forming the balanced tree: adjacent pairs in rounds, a lone last value untouched; leaves in order; every temporary but the last read exactly once; depth the ceiling of log2 n |
| DotSchedule.ScheduleIsPairSum | src/fp_block.rs:418-436 | for any addition, associative or not, the last temporary is the balanced sum of the products |
| DotSchedule.PairwiseIsRunningSum | src/fp_block.rs:418-436 | for an associative operator the pairwise order gives the left-to-right sum |
| BitVec.Clog2IsCeiling | src/construct_formal_ir.rs:1041-1047 | clog2 is the ceiling of the base-two logarithm |
| StagedDot.DotLevels | src/fp_block.rs:725-744 | each level lists exactly the additions of its depth, in order, and there are as many levels as the tree is deep |
| StagedDot.RegisterHolds | src/fp_block.rs:759-931 | on every run a well-timed register holds its content for the inputs of as many cycles ago as its age |
| StagedDot.StagedDotIsDot | src/fp_block.rs:759-931 | a well-timed module outputs the unstaged dot product of the inputs latency-1 cycles ago, in every cycle from then on, whatever the registers held at first |
| StagedDot.DotIs | src/fp_block.rs:662-735 | the unstaged result for any operations: the balanced sum, times one scale, times the other |
| StagedDot.ExactDot | src/fp_block.rs:662-668 | with exact operations it is the product of the scales and the sum of the products |
| StagedDotEmit.OperandFacts | src/fp_block.rs:832-840 | a value consumed at a level was produced below it and by no earlier level consumed, so it needs no second delay chain |
| StagedDotEmit.CarryOn | src/fp_block.rs:876-890 | a delay chain makes a value exactly as old as the level that reads it, in registers not declared before |
| StagedDotEmit.DelayCarried | src/fp_block.rs:843-890 | after delay balancing every carried operand is as old as its level |
| StagedDotEmit.DeclareSums | src/fp_block.rs:891-912 | a level's sums go to fresh registers one edge after their operands |
| StagedDotEmit.RenderStagedDot | src/fp_block.rs:745-931 | the emitted module declares every register exactly once, has latency ceil(log2 n)+3, and on every run outputs the unstaged dot product of the inputs latency-1 cycles ago |
| Barrier.StepKeeps | runtime/arch_thread_rt.h:232-264 | every atomic step of every thread keeps the barrier's invariant |
| Barrier.RunInv | runtime/arch_thread_rt.h:226-264 | it holds in every reachable state, with the generation taken modulo 2^32 |
| Barrier.BarrierSafe | runtime/arch_thread_rt.h:221-231 | no thread returns from its k-th wait before all have entered theirs, and rounds differ by at most one |
| Barrier.BarrierProgress | runtime/arch_thread_rt.h:232-264 | while every thread is inside wait some thread can take a step that changes something |
| Scheduler.ThreadScheduler.TickBegin | runtime/arch_thread_rt.h:133-146 | a waiting coroutine becomes ready exactly if the condition it stopped at holds now, or this is the last edge it asked for; the per-edge marks are cleared |
| Scheduler.ThreadScheduler.TickRun | runtime/arch_thread_rt.h:148-210 | the loop ends; what happened is a sequence of possible resumes and wake-ups; nobody is left ready; no coroutine still allowed to fire, at a lock once more, has a true condition; who waits for a condition is resumed only after it was found true; a ready slot ran |
| Scheduler.ThreadScheduler.Resume | runtime/arch_thread_rt.h:86-123 | a coroutine runs once, its slot holds what it stopped at, and the edge's budget shrinks by one |
| Scheduler.ThreadScheduler.Wake | runtime/arch_thread_rt.h:190-207 | an eligible slot becomes ready, a resumed one at the cost of its lock allowance, and the edge's budget shrinks by one |
| Scheduler.ThreadScheduler.ResumeBound | runtime/arch_thread_rt.h:156-177 | in one edge a coroutine is resumed at most twice, and at most once unless it stopped at a lock |
| Scheduler.ThreadScheduler.WaitCyclesExactly | runtime/arch_thread_rt.h:103-113 | a coroutine waiting n cycles is resumed at exactly the n-th edge after, whatever other schedulers do to the shared state and however often the loop is run within an edge |
| Scheduler.ThreadScheduler.ResumedOnceTrue | runtime/arch_thread_rt.h:88-101 | a coroutine stopped at a condition is resumed in the first later edge at whose start it holds, even if it is falsified within that edge, unless resumed before |
| Scheduler.WokenFirst | runtime/arch_thread_rt.h:192-207 | a coroutine waiting for a condition is resumed only after a check finds the condition true |
| Scheduler.LockMarks | runtime/arch_thread_rt.h:156-177 | only a stop at a lock counts as one |
| Fifo.RingKeeps | src/construct_formal_ir.rs:346-388 | pointers stay below twice the depth and the occupancy between zero and the depth |
| Fifo.RingRefinesQueue | src/construct_formal_ir.rs:346-388 | each cycle does to the stored slice what a queue does, pushing and popping at once included; ready and valid are room and content |
| Fifo.RingIsQueue | src/construct_formal_ir.rs:346-388 | every run from reset is a run of a queue, for every depth |
| Fifo.RingFlags | src/construct_formal_ir.rs:346-388 | full and empty are a full and an empty queue |
| Fifo.StackRefinesPile | src/construct_formal_ir.rs:390-435 | each LIFO cycle is a stack's, replacing the top when pushing and popping at once |
| Fifo.StackSignals | src/construct_formal_ir.rs:390-435 | full, empty, ready and valid by what is stored; the write index is where a push leaves its word |
| Fifo.BvStepExact | src/construct_formal_ir.rs:993-1035 | flags, indices and next pointers as bit vectors equal the natural ones in every cycle from every state that keeps the invariant exactly when three depths fit in the pointer width |
| Fifo.BvRunExact | src/construct_formal_ir.rs:495-605 | over whole runs from reset the bit-vector FIFO is the queue exactly at those depths; at the others depth+1 pushes tell them apart |
| Fifo.FullReached | src/construct_formal_ir.rs:346-388 | depth pushes from reset reach the full state |
| Fifo.SanityHolds | src/construct_formal_ir.rs:579-588 | what the generated sanity query checks holds at every depth, the wrapping ones included |
| Fifo.FullIsMissed | src/construct_formal_ir.rs:501-502 | when three depths do not fit that state is read as not full |
| Fifo.PowerOfTwoAgrees | src/construct_formal_ir.rs:501-502 | at every power-of-two depth the two readings agree in every cycle |
| Fifo.ThreeDoesNot | src/construct_formal_ir.rs:501-502 | at depth three some run from reset differs |
| Fifo.LifoBvAgrees | src/construct_formal_ir.rs:607-662 | the LIFO's bit-vector flags and next pointer are the natural ones at every depth |
| Arbiter.PriorityGrant | src/construct_formal_ir.rs:1049-1058 | the nested conditionals grant the first requested index of the order |
| Arbiter.RoundRobinGrant | src/construct_formal_ir.rs:671-685 | the conditionals over the start grant the first request from the start around, and nothing for a start out of range |
| Arbiter.GrantIsExact | src/construct_formal_ir.rs:671-720 | the grant is one-hot, within the requests, empty only without requests, and first from the start |
| Arbiter.NoStarvation | src/construct_formal_ir.rs:900-917 | a requester that keeps requesting is granted within as many grants as there are requesters |
| CreditChannel.StepConserves | src/construct_formal_ir.rs:75-230 | under the protocol no counter wraps and credits plus words held stay the depth |
| CreditChannel.ChannelConserves | src/construct_formal_ir.rs:694-760 | over every legal run words held are words sent minus words returned, at most the depth, and the sender may send exactly when there is room |

## Left out

- The SystemVerilog, SMT-LIB, Lean and C++ text itself: signals and registers are values of a datatype, so name
  collisions in the emitted text cannot be seen.
- Expression kinds the identifier collector drops (Signed, Unsigned, Onehot, LatencyAt, PipelinedCall) and statement-level
  matches used as expressions.
- Bus members as separate signals, instance expansion and interface stubs: the analyses are modelled inside one module.
- Finite-state-machine dependency analysis: the same worklist over other lists of statements.
- Loops in the theorems that the filter's acceptance makes values independent (its exact conditions cover them), and
  assignments to part of a signal there: such a target keeps old bits that the walk does not count as a read.
- FoldFilter.StrictFilterSound: speaks of the component's definitely assigned signals; a signal left unassigned on some
  path keeps its old value by definition. The strict reading is sufficient for soundness; `FoldExact` says exactly what
  it refuses, and why no condition on reads and assignments is necessary as well.
- Host floating point inside `f64_to_e4m3_bits` and the encoders' searches: comparisons there are on exact values.
- Ladder.Climb: asks that the products of scale and thresholds be exact, which `BlockQuant` proves of any multiplication
  that rounds correctly; the bodies of `arch_f32_mul`, `arch_f32_add` and the widening helpers are not modelled, nor
  that FP32 magnitudes compare as their bit patterns do.
- What an overflowing element becomes: the format's own rounder answers, under a build flag.
- E8M0 scales, the decoders, and the E2M1 encoder's loop, which is `SearchNearest` on the table of `E2m1Table`.
- StagedDotEmit.DelayCarried: keeps the order in which delay chains are found instead of sorting by id, which changes
  the text only.
- StagedRender.StagedCtx.Resolve: the two liveness maps of the source are one map over inputs and temporaries, and an
  absent nested call is the number of temporaries instead of the largest machine integer.
- StagedRun.PipelinePreservesMeaning: asks that variables and calls resolve and that widths are at most 128, as the
  interpreter does, and that the callee's parameter names differ.
- Weak memory, spinning and yielding in the barrier: steps are sequentially consistent, and progress is stated per state.
- Instance cycles' settle depth, and how the combinational ports of an instance are found in its module.
- Payload storage of the credit channel and the arbiter's latency registers.
- Hash-map iteration order: loops over sets take elements in any order.
