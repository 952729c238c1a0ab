# Verified model of the hand-written LLVM passes

The repository holds a set of hand-written LLVM passes built around one small
data-flow engine, and some vendored network headers. This project models the
parts with the most state and the most demanding correctness arguments and
proves what they are for:

- **The data-flow engine** (`DataFlow`, `PathSolution`). An in-place round-robin
  solver with a direction, a meet operator, values that belong to one edge only
  (phi operands) and a convergence test that compares only the output set and
  the *number* of edge entries. It ends in the extreme solution, and that
  solution is what quantification over all control-flow paths describes.
- **Dominance and the dominator tree** (`Cfg`, `Dominance`, `Loops`, `DomTree`).
- **Loop-invariant code motion** (`Ir`, `Hoist`, `HoistSsa`, `Licm`): one walk
  over the dominator tree collects exactly the loop-invariant instructions,
  nothing invariant is left in the loop, and hoisting preserves SSA form and the
  behaviour of every run.
- **Dead code elimination** (`PhiVals`, `Dce`, `StrongLive`, `Sweep`,
  `SweepSsa`, `DcePass`): the analysis equals a least closed set, the sweep
  preserves behaviour, which instructions it erases is stated exactly, and it is
  complete exactly when a stated condition on phis holds.
- **Liveness and available expressions** (`Liveness`, `LiveRuns`, `Available`,
  `AvailableRuns`): what the two analyses say about paths, and what that means
  for every run.
- **Local optimizations** (`StrengthReduction`, `LocalOpts`, `ReductionCode`,
  `BlockValues`, `FoldExactness`, `Replacement`, `LocalMeaning`, `ReductionMeaning`,
  `ReplaceAll`, `FunctionOpts`): power-of-two recognition, modular arithmetic,
  rewriting to a fixed point, and what all of it means for a block and for the
  function around it.
- **The Internet checksum** (`Checksum`): Duff's device and carry folding against
  section 1 of RFC 1071.

## How the program is represented

Blocks are numbered, block 0 is the entry and no edge leads to it. A bit vector
is the set of its set bits. An instruction has an id, operands (constants or
ids; an id without an instruction is a function argument) and a kind: phi,
binary operator, pure, memory-reading, side effect, terminator. What LLVM
answers about an instruction (`isSafeToSpeculativelyExecute`,
`mayReadFromMemory`, `mayHaveSideEffects`) is part of the kind.

Running a function is a step function over (block, previous block, values,
world). The meaning of each instruction, of each side effect and of each branch
is a parameter (`Ir.Semantics`), so "same behaviour" (`Ir.SameBehaviour`) means:
for every meaning, every initial state and every number of steps, the two
functions are in the same block, or have returned the same value, with the same
world.

What the passes rely on from LLVM is stated as `requires`: the entry block has
no predecessors; strict SSA form (a definition dominates its uses; a phi uses
its operand at the end of the incoming block; terminators define nothing); a
natural loop listed header first; the only successor of a preheader is the
header. That all blocks are reachable (`AllReachable`) is asked only where the
answer of strong liveness is compared with the needed set, which also counts
what unreachable code refers to. What `computeIdom` does with unreachable blocks
is stated by `Dominance.AssertionFires`, and the loop pass aborts exactly then.

The local passes see one block at a time, so they have their own small
instruction set with explicit widths (`LocalOpts.Inst`); `FunctionOpts.View` is
what they see of an instruction of a function. What is asked of a run is stated
on the original block: `LocalMeaning.ExactAt` names, operator by operator, the
operand values on which folding and strength reduction are exact, for those
operands that may turn into constants in this run
(`LocalMeaning.MayBeConstant`).

The library traversals enter as an `order` argument that lists the reachable
blocks, entry first for forward problems (`DataFlow.IsOrder`). Only the deletion
sweep depends on more; there the order is the depth-first finish order
`Cfg.PostOrder`.

## Where code and comments differ

The model follows the code.

- The loop pass has a comment saying that it skips blocks of inner loops. The
  code returns, so a loop that contains another loop is left alone
  (`Licm.RunOnLoop`).
- `find_log_improved` answers -1 for every constant that is not positive, which
  its caller reads as "one below a power of two". For 0 the code that results is
  right by luck, for negative constants it is wrong
  (`StrengthReduction.ReductionExactIff`).
- Signed division by a power of two becomes a logical shift
  (`StrengthReduction.SDivExactIff`).
- Folding computes on sign-extended constants, also for unsigned division and
  logical shifts (`FoldExactness.QuotientFoldExactIff`,
  `FoldExactness.RightShiftFoldExactIff`).
- The dead code pass reports a modification when it queues an instruction, not
  when it erases one (`DcePass.RunOnFunction`).
- Strength reduction never reports that it changed something
  (`LocalOpts.Block.StrengthReduction`).

## Model

| member | source | states |
|---|---|---|
| `DataFlow.ApplyMeetOp` | asst3/LICM/dataflow.cpp:12-36 | the loop computes the union or intersection of all inputs, empty for no inputs |
| `DataFlow.VisitBlock` | asst3/LICM/dataflow.cpp:180-212 | one visit: meet over neighbours including edge values, then the transfer function |
| `DataFlow.TestIsSound` | asst3/LICM/dataflow.cpp:214-221 | when output set and number of edge entries are unchanged, the whole output is unchanged |
| `DataFlow.RoomShrinks` | asst3/LICM/dataflow.cpp:173-223 | a visit never gives back room, and one that fails the test loses some: the loop terminates |
| `DataFlow.Solve` | asst3/LICM/dataflow.cpp:173-223 | the loop terminates in a solution of the equations that lies below every assignment satisfying them as inequalities: least for union, greatest for intersection |
| `DataFlow.TraversalFacts` | asst3/LICM/dataflow.cpp:146-168 | both traversals list exactly the reachable blocks, and the forward one starts with the entry |
| `DataFlow.Run` | asst3/LICM/dataflow.cpp:39-234 | the same for the whole analysis, in any order that lists the reachable blocks, entry first if forward |
| `PathSolution.ForwardExact` | asst2/ClassicalDataflow/dataflow.cpp:171-221 | forward intersection problem: an element is in IN of a reachable block iff on every path it is generated and not killed afterwards |
| `PathSolution.BackwardExact` | asst2/ClassicalDataflow/dataflow.cpp:171-221 | backward union problem with edge values: an element is in OUT iff some path onwards needs it before killing it |
| `Cfg.DomChain` | asst3/LICM/dominance.cpp:62-94 | the dominators of a reachable block form a chain |
| `Cfg.PostOrderFacts` | asst3/LICM/DeadCodeElimination.cpp:182-184 | depth-first finish order lists each reachable block once, entry last |
| `Cfg.DominatedFinishesFirst` | asst3/LICM/DeadCodeElimination.cpp:182-184 | a block finishes before every block that strictly dominates it |
| `Cfg.EarlierSuccessorsFirst` | asst3/LICM/DeadCodeElimination.cpp:182-184 | what the first successors of the entry reach finishes before everything else |
| `Dominance.ComputeDom` | asst3/LICM/dominance.cpp:23-45 | X in IN(Y) iff every path from the entry to Y passes through X and X != Y, for any order starting with the entry; unreachable blocks keep the universal set |
| `Dominance.EntryFirstMatters` | asst3/LICM/dataflow.cpp:76-103 | an order not starting with the entry can end in a solution that misses a dominator |
| `Dominance.HasNothingBetween` | asst3/LICM/dominance.cpp:69-81 | the innermost loop decides whether a dominator has no block between it and the dominated one |
| `Dominance.ComputeIdom` | asst3/LICM/dominance.cpp:52-96 | the map holds exactly the candidates of each block; the assertion is reached iff some block has two different candidates |
| `Dominance.CandidateIsIDom` | asst3/LICM/dominance.cpp:61-81 | the test of the triple loop is immediate dominance |
| `Dominance.IdomIsRight` | asst3/LICM/dominance.cpp:83-96 | whatever is unreachable, each reachable non-entry block gets exactly its immediate dominator |
| `Dominance.NoClash` | asst3/LICM/dominance.cpp:83-91 | with all blocks reachable the assertion never fires |
| `Dominance.ImmediateDominators` | asst3/LICM/LoopInvariantCodeMotion.cpp:74-75 | the two calls together: the assertion fires iff there is a clash, otherwise the result is the immediate dominator map |
| `Dominance.AssertionFires` | asst3/LICM/dominance.cpp:83-91 | two candidates exist iff exactly one block is unreachable and the dominator tree has at least two leaves |
| `Dominance.AssertionFiresHere` | asst3/LICM/dominance.cpp:83-91 | a concrete graph of four blocks on which the assertion fires |
| `Loops.DominatorInLoop` | asst3/LICM/dominance.cpp:107-149 | what the header dominates and what dominates a loop block lies in the loop |
| `Loops.PreheaderDominates` | asst3/LICM/LoopInvariantCodeMotion.cpp:65-69 | the preheader strictly dominates every block of the loop |
| `Loops.OutsideDominatesPreheader` | asst3/LICM/LoopInvariantCodeMotion.cpp:127-150 | a block outside the loop that dominates a loop block dominates the preheader |
| `DomTree.FindOrCreate` | asst3/LICM/dominance.cpp:122-140 | a node is made only if there is none, and the linked structure stays right |
| `DomTree.Link` | asst3/LICM/dominance.cpp:142-143 | parent and child pointers agree with the immediate dominators after one more block |
| `DomTree.BuildNodes` | asst3/LICM/dominance.cpp:111-146 | the loop over the blocks builds one node per block and parent and links them all |
| `DomTree.GetDominanceTree` | asst3/LICM/dominance.cpp:107-149 | every node's children and parent are those of the map, in order; nodes and root are the listed blocks and the header |
| `Licm.TreeHoldsLoop` | asst3/LICM/dominance.cpp:107-149 | the tree of a natural loop has exactly the loop's blocks and one node above the header |
| `Licm.IsInvariant` | asst3/LICM/LoopInvariantCodeMotion.cpp:32-53 | true iff the instruction is pure or a safe binary operator and every operand defined in the loop is already collected |
| `Licm.DominatorsVisitedFirst` | asst3/LICM/LoopInvariantCodeMotion.cpp:79-107 | the stack walk visits dominators before the blocks they dominate |
| `Licm.WalkStep` | asst3/LICM/LoopInvariantCodeMotion.cpp:84-107 | popping a node and pushing its children keeps the invariant of the walk |
| `Licm.ScanBlock` | asst3/LICM/LoopInvariantCodeMotion.cpp:95-102 | after a block, each instruction seen so far is collected iff it is invariant |
| `Licm.VisitNode` | asst3/LICM/LoopInvariantCodeMotion.cpp:95-106 | scanning a block and pushing its node's children keeps stack, walk and collected list in step |
| `Licm.Collect` | asst3/LICM/LoopInvariantCodeMotion.cpp:79-107 | the walk ends, visits each loop block once, and collects the invariant set; it gives up iff a block belongs to an inner loop |
| `Licm.WalkComplete` | asst3/LICM/LoopInvariantCodeMotion.cpp:83-107 | one walk is enough: the list is closed under invariance |
| `Licm.HoistListIsLeast` | asst3/LICM/LoopInvariantCodeMotion.cpp:79-107 | and contained in every set closed under invariance |
| `Licm.MoveBefore` | asst3/LICM/LoopInvariantCodeMotion.cpp:143-144 | one instruction leaves its block and stands before the preheader's terminator |
| `Licm.MoveAll` | asst3/LICM/LoopInvariantCodeMotion.cpp:127-150 | moving one by one before the terminator equals the one-step transformation |
| `Hoist.RelatedBlock` | asst3/LICM/LoopInvariantCodeMotion.cpp:127-150 | simulation: one step of both functions keeps hoisted values equal to what the original loop would compute |
| `Hoist.HoistingPreservesMeaning` | asst3/LICM/LoopInvariantCodeMotion.cpp:127-150 | every run after hoisting is in the same block with the same world and result |
| `HoistSsa.HoistingKeepsSsa` | asst3/LICM/LoopInvariantCodeMotion.cpp:127-150 | after hoisting every definition still dominates its uses and blocks are well formed |
| `Licm.InvariantsMove` | asst3/LICM/LoopInvariantCodeMotion.cpp:32-53 | every pure or safe binary instruction of the loop whose operands are constants or, afterwards, computed outside the loop is in the preheader and no longer in its block |
| `Licm.OthersStay` | asst3/LICM/LoopInvariantCodeMotion.cpp:35-49 | everything else is still in its block: what is outside the loop, phis, unsafe operators, reads, effects, terminators, and what has an operand that stays in the loop |
| `Licm.RunOnLoop` | asst3/LICM/LoopInvariantCodeMotion.cpp:59-153 | aborts iff the assertion on dominators fires; without preheader or with an inner loop nothing changes; otherwise exactly the invariant instructions move, as the two rows above say; SSA form and behaviour are kept in every case |
| `PhiVals.MarkPhi` | asst3/LICM/DeadCodeElimination.cpp:85-106 | the loop over incoming values adds each instruction operand to the set of its block |
| `PhiVals.NeighborValsWithOne` | asst3/LICM/DeadCodeElimination.cpp:85-106 | accumulating phis one at a time gives the map defined by "some live phi takes d from p" |
| `Ir.RootsAct` | asst3/LICM/DeadCodeElimination.cpp:57-58 | the roots are the terminators and exactly the instructions that, in some meaning and state, change the world |
| `Dce.MarkRoots` | asst3/LICM/DeadCodeElimination.cpp:53-71 | the forward loop adds exactly the roots |
| `Dce.MarkOperands` | asst3/LICM/DeadCodeElimination.cpp:108-120 | the loop adds exactly the operands that are instructions |
| `Dce.MarkClosed` | asst3/LICM/DeadCodeElimination.cpp:73-127 | one backward scan closes a block under operands |
| `Dce.MarkInstr` | asst3/LICM/DeadCodeElimination.cpp:76-126 | one step of the backward loop keeps the marked set and the edge values equal to those of the block read so far |
| `Dce.TransferFn` | asst3/LICM/DeadCodeElimination.cpp:41-141 | the two loops compute the block summary, edge values included |
| `Dce.DceWellBehaved` | asst3/LICM/DeadCodeElimination.cpp:73-136 | the transfer function is monotone and its edge values are determined by its output set, as the convergence test needs |
| `Dce.DceExact` | asst3/LICM/DeadCodeElimination.cpp:41-141 | an instruction is in IN of its block iff it is in the least set with all roots that is closed under operands |
| `Dce.StrongLiveness` | asst3/LICM/DeadCodeElimination.cpp:157-176 | the same for the whole analysis, in any visiting order; with unreachable blocks, still nothing unneeded is marked |
| `StrongLive.StrongLiveExact` | asst3/LICM/DeadCodeElimination.cpp:41-141 | in every block: d is in IN iff some walk from the block on arrives at a needed user of d, at the root d, or at an edge on which a needed phi takes d |
| `Sweep.FindDoomed` | asst3/LICM/DeadCodeElimination.cpp:191-215 | the backward loop lists the non-root instructions outside IN, last first |
| `Sweep.EraseUnused` | asst3/LICM/DeadCodeElimination.cpp:217-223 | trying the listed instructions in place: each goes iff all its users were tried before it and have gone |
| `Sweep.ErasedInTurn` | asst3/LICM/DeadCodeElimination.cpp:217-223 | the same for the whole queue: a blocked instruction does not stop the ones behind it |
| `Sweep.TurnsDecide` | asst3/LICM/DeadCodeElimination.cpp:217-223 | only one set of erased instructions has this property |
| `Sweep.SweepIntact` | asst3/LICM/DeadCodeElimination.cpp:217-223 | at every point of the sweep no surviving instruction refers to an erased one |
| `Sweep.SweepBlocks` | asst3/LICM/DeadCodeElimination.cpp:182-225 | the function afterwards is the original without the set of instructions that went when tried in turn; a change is reported iff something was queued |
| `Sweep.SweepCompleteIff` | asst3/LICM/DeadCodeElimination.cpp:217-223 | the whole queue is erased iff each queued instruction comes after all its users |
| `Sweep.CycleSurvives` | asst3/LICM/DeadCodeElimination.cpp:217-220 | instructions that keep each other in use are never erased |
| `SweepSsa.ErasingKeepsSsa` | asst3/LICM/DeadCodeElimination.cpp:217-223 | the function without the erased instructions is well formed and in strict SSA form |
| `DcePass.ErasingPreservesMeaning` | asst3/LICM/DeadCodeElimination.cpp:182-225 | every run has the same effects and result after erasing |
| `DcePass.QueueIsUnneeded` | asst3/LICM/DeadCodeElimination.cpp:191-215 | the queue holds exactly the instructions outside the needed set |
| `DcePass.UsersComeFirst` | asst3/LICM/DeadCodeElimination.cpp:182-225 | in post-order every user is tried before what it uses, phis assumed so |
| `DcePass.SweepIsCompleteIff` | asst3/LICM/DeadCodeElimination.cpp:182-225 | one sweep erases everything unneeded iff each unneeded phi is tried before the unneeded instructions it refers to |
| `DcePass.CounterSurvives` | asst3/LICM/DeadCodeElimination.cpp:217-220 | a concrete loop counter that is unneeded and survives every sweep |
| `DcePass.CounterIsSsa` | asst3/LICM/DeadCodeElimination.cpp:217-220 | that counter-example is a well-formed, reachable function in strict SSA form |
| `DcePass.DeadIsUnneeded` | asst3/LICM/DeadCodeElimination.cpp:217-223 | what is erased without leaving a dangling reference is not needed, whatever the analysis said |
| `DcePass.SweepGoesExactly` | asst3/LICM/DeadCodeElimination.cpp:182-225 | an instruction is erased iff it is reachable, unneeded, and every user of it is erased and was tried before it |
| `DcePass.ExactlyMeansBlocked` | asst3/LICM/DeadCodeElimination.cpp:217-223 | a reachable unneeded instruction that survives has a user that survives or is tried only after it |
| `DcePass.RunOnFunction` | asst3/LICM/DeadCodeElimination.cpp:148-229 | exactly the instructions of the two rows above go; nothing needed is erased, no dangling reference, same behaviour, SSA kept, flag set if something reachable is unneeded; with all blocks reachable also: complete iff the phi condition holds, and the flag is set only if something is unneeded |
| `Liveness.CollectDomain` | asst2/ClassicalDataflow/liveness.cpp:118-131 | the domain is every operand value, once |
| `Liveness.UseSetIsExposed` | asst2/ClassicalDataflow/liveness.cpp:43-90 | the use set is the upward-exposed uses of non-phi instructions |
| `Liveness.AddExposed` | asst2/ClassicalDataflow/liveness.cpp:71-81 | the operands not defined before are added |
| `Liveness.TransferFn` | asst2/ClassicalDataflow/liveness.cpp:38-100 | the loops compute USE + (OUT - DEF) and the phi values per edge |
| `Liveness.LiveOutExact` | asst2/ClassicalDataflow/liveness.cpp:38-100 | v in OUT(B) iff some path from B reaches an exposed use of v, or an edge on which a phi takes v, without a definition on the way |
| `Liveness.LiveVariables` | asst2/ClassicalDataflow/liveness.cpp:107-170 | the same for the whole analysis, any visiting order |
| `LiveRuns.DeadValuesDoNotMatter` | asst2/ClassicalDataflow/liveness.cpp:38-100 | two states about to enter a block that differ only in values not live there are indistinguishable for ever |
| `LiveRuns.OutsideOutIsDead` | asst2/ClassicalDataflow/liveness.cpp:107-170 | overwriting a value outside OUT at the end of a block changes nothing an observer sees |
| `Liveness.WalkBackIsTransfer` | asst2/ClassicalDataflow/liveness.cpp:172-206 | folding backward over a block of any length gives the block summary |
| `Liveness.PrintWalk` | asst2/ClassicalDataflow/liveness.cpp:172-206 | the printed walk from OUT arrives at IN |
| `Available.CollectDomain` | asst2/ClassicalDataflow/available.cpp:138-165 | the domain is every binary expression of the function, once |
| `Available.VisitInstr` | asst2/ClassicalDataflow/available.cpp:40-117 | one instruction first adds its expression, then removes those that use its name |
| `Available.WalkForwardIsTransfer` | asst2/ClassicalDataflow/available.cpp:40-117 | folding forward from IN gives GEN + (IN - KILL) |
| `Available.TransferFn` | asst2/ClassicalDataflow/available.cpp:35-120 | the loop computes that summary |
| `Available.PrintWalk` | asst2/ClassicalDataflow/available.cpp:211-280 | the printed walk arrives at OUT |
| `Available.KillsAreIdle` | asst2/ClassicalDataflow/available.cpp:35-120 | in strict SSA no block kills an expression that is available at its start |
| `Available.AvailableExact` | asst2/ClassicalDataflow/available.cpp:35-120 | e in IN(B) iff e is computed on every path to B, and KILL(B) never meets IN(B) |
| `Available.NamesDoNotMatter` | asst2/ClassicalDataflow/available.cpp:35-120 | skipping the kills of unnamed instructions gives the same answer |
| `Available.AvailableExpressions` | asst2/ClassicalDataflow/available.cpp:126-210 | both facts for the whole analysis, any visiting order |
| `AvailableRuns.RunHolds` | asst2/ClassicalDataflow/available.cpp:35-120 | along every run, an expression computed after the last definition of its operands is the value of an operator with its opcode and operands |
| `AvailableRuns.AvailableIsHeld` | asst2/ClassicalDataflow/available.cpp:126-210 | whenever a run enters a block, each expression in IN is held, up to date, by an operator already executed |
| `StrengthReduction.FindLog` | asst1/LocalOpts/LocalOpts.cpp:40-54 | k iff n is 2 to the k, and -1 iff n is no power of two |
| `StrengthReduction.FindLogImproved` | asst1/LocalOpts/LocalOpts.cpp:58-75 | how far a constant is from a power of two and its exponent, with 64-bit wrap-around of n + 1 and the answer for non-positive n |
| `StrengthReduction.ReducedIsProduct` | asst1/LocalOpts/LocalOpts.cpp:456-489 | shl, shl+add and shl-sub compute the product modulo 2 to the w |
| `StrengthReduction.ReductionExactIff` | asst1/LocalOpts/LocalOpts.cpp:456-489 | the emitted code equals x * c for all x iff the constant is not negative as a signed number; the shift amount is then below the width |
| `StrengthReduction.ReductionRunExactIff` | asst1/LocalOpts/LocalOpts.cpp:456-489 | for one x: the emitted code equals x * c iff the constant is not negative or the product is 0 |
| `StrengthReduction.NegativeMultiplier` | asst1/LocalOpts/LocalOpts.cpp:58-61 | for every negative constant the code is wrong already at x = 1 |
| `StrengthReduction.ShlIsProduct` | asst1/LocalOpts/LocalOpts.cpp:469 | shifting left one place k times multiplies by 2 to the k modulo 2 to the w |
| `StrengthReduction.LShrIsQuotient` | asst1/LocalOpts/LocalOpts.cpp:498 | dropping the lowest bit k times divides by 2 to the k |
| `StrengthReduction.SDivExactIff` | asst1/LocalOpts/LocalOpts.cpp:491-504 | signed division equals the logical shift iff the dividend is not negative or the divisor is 1 |
| `LocalOpts.ReduceOne` | asst1/LocalOpts/LocalOpts.cpp:450-515 | the code that takes the place of one instruction, found with the two logarithm loops, is the one that the following six rows state constant by constant |
| `ReductionCode.ProductByPower` | asst1/LocalOpts/LocalOpts.cpp:457-473 | a product with 2 to the k becomes one shift by k, whichever operand the constant is |
| `ReductionCode.ProductAbovePower` | asst1/LocalOpts/LocalOpts.cpp:474-479 | a product with 2 to the k plus 1 becomes shift and add, in either operand order |
| `ReductionCode.ProductBelowPower` | asst1/LocalOpts/LocalOpts.cpp:480-485 | a product with 2 to the k minus 1 becomes shift and subtract, in either operand order |
| `ReductionCode.ProductNotPositive` | asst1/LocalOpts/LocalOpts.cpp:58-61 | a product with a constant that is not positive becomes (x << 0) - x |
| `ReductionCode.QuotientByPower` | asst1/LocalOpts/LocalOpts.cpp:491-503 | a signed or unsigned quotient by 2 to the k becomes one logical shift by k |
| `ReductionCode.NotShiftable` | asst1/LocalOpts/LocalOpts.cpp:506-508 | everything else is left as it is |
| `LocalOpts.AlgebraicMatches` | asst1/LocalOpts/LocalOpts.cpp:112-337 | an identity applies iff opcode and operands have one of the listed shapes |
| `LocalOpts.FoldingMatches` | asst1/LocalOpts/LocalOpts.cpp:370-410 | folding applies iff both operands are constants, the opcode is one of the seven, and a divisor is not 0 |
| `LocalOpts.ReducibleMatches` | asst1/LocalOpts/LocalOpts.cpp:454-509 | strength reduction applies iff a factor is not positive or at most one off a power of two (INT64_MAX excepted), or the divisor is a power of two |
| `LocalOpts.PassIdle` | asst1/LocalOpts/LocalOpts.cpp:81-350 | a pass leaves a block's length alone iff nothing matches, and then leaves the block alone |
| `Replacement.PassIsComplete` | asst1/LocalOpts/LocalOpts.cpp:86-347 | one pass over a block in order leaves nothing that the pattern matches |
| `Replacement.AlgebraicLeavesNone` | asst1/LocalOpts/LocalOpts.cpp:81-350 | after the algebraic pass no operator has one of the listed shapes |
| `Replacement.FoldingLeavesNone` | asst1/LocalOpts/LocalOpts.cpp:353-436 | after the folding pass no foldable operator on two constants is left |
| `LocalOpts.Block.AlgebraicOptimizations` | asst1/LocalOpts/LocalOpts.cpp:81-350 | the in-place loop is the abstract pass, and reports a change iff it removed something |
| `LocalOpts.Block.ConstantFolding` | asst1/LocalOpts/LocalOpts.cpp:353-436 | the same for folding |
| `LocalOpts.Block.StrengthReduction` | asst1/LocalOpts/LocalOpts.cpp:439-522 | the in-place loop replaces each reducible instruction by its shifts and always answers "unchanged" |
| `LocalOpts.OptimizedIsSettled` | asst1/LocalOpts/LocalOpts.cpp:567-597 | afterwards, by opcode and operands: no identity such as x + 0, no foldable operator on two constants, no product with a constant on either side and no quotient that shifts can replace |
| `LocalOpts.OptimizedIsIdempotent` | asst1/LocalOpts/LocalOpts.cpp:567-597 | running the driver again changes nothing |
| `LocalOpts.RunOnBlock` | asst1/LocalOpts/LocalOpts.cpp:567-597 | at most one round per instruction and one more; strength reduction runs exactly once; in the result nothing of these shapes is left |
| `FoldExactness.AlgebraicIsIdentity` | asst1/LocalOpts/LocalOpts.cpp:113-330 | each identity replaces an instruction by a value equal to its result |
| `FoldExactness.LeftShiftFoldExact` | asst1/LocalOpts/LocalOpts.cpp:399-400 | folding a left shift is exact for every amount the host can shift by |
| `FoldExactness.ShiftAmountInRange` | asst1/LocalOpts/LocalOpts.cpp:399-404 | in widths up to 64 that is every amount below the width |
| `FoldExactness.RightShiftFoldExactIff` | asst1/LocalOpts/LocalOpts.cpp:402-404 | folding a logical right shift is exact iff the constant is not negative or the amount is 0 |
| `FoldExactness.QuotientFoldExactIff` | asst1/LocalOpts/LocalOpts.cpp:392-398 | folding an unsigned division is exact iff neither constant is negative, or the divisor is 1, or a non-negative dividend is below the magnitude of a negative divisor, or the constants are equal |
| `FoldExactness.QuotientFoldFails` | asst1/LocalOpts/LocalOpts.cpp:392-398 | 255 / 2 in 8 bits is folded to 0 |
| `FoldExactness.FoldingIsExact` | asst1/LocalOpts/LocalOpts.cpp:383-404 | where these conditions hold, folding any of the seven operators computes the operator |
| `Replacement.DropReplaces` | asst1/LocalOpts/LocalOpts.cpp:121-123 | dropping one operator whose value another has, and renaming its uses: nothing else changes, and every value of the block is the value of its stand-in |
| `Replacement.ReplacesThen` | asst1/LocalOpts/LocalOpts.cpp:81-350 | replacements compose |
| `LocalMeaning.PassPreservesMeaning` | asst1/LocalOpts/LocalOpts.cpp:81-436 | a whole pass of a sound pattern: the block is the original with operators dropped and renamed, all other instructions in order, every value kept |
| `LocalMeaning.AlgebraicPreservesMeaning` | asst1/LocalOpts/LocalOpts.cpp:81-350 | this holds of the algebraic pass on every run that divides by no zero |
| `ReductionMeaning.ReducedInstExactIff` | asst1/LocalOpts/LocalOpts.cpp:450-515 | the code emitted for one instruction leaves the instruction's value iff the product's constant is not negative or the product is 0, and the dividend is not negative or the divisor is 1 |
| `ReductionMeaning.ReductionPreservesMeaning` | asst1/LocalOpts/LocalOpts.cpp:439-522 | every value of a block is computed as before and all other instructions stay, in every run that meets this condition |
| `ReductionMeaning.RoundsPreserveMeaning` | asst1/LocalOpts/LocalOpts.cpp:567-597 | all rounds of both passes, every operator included: only operators are dropped and every value lives on |
| `ReductionMeaning.ConstantsAreGone` | asst1/LocalOpts/LocalOpts.cpp:567-597 | after the rounds no operator on constants only is left |
| `ReductionMeaning.OptimizedPreservesMeaning` | asst1/LocalOpts/LocalOpts.cpp:567-597 | the driver as a whole, from conditions on the original block and its run: other instructions remain in order with renamed operands, every value is the value of its stand-in |
| `ReplaceAll.ReplacingPreservesMeaning` | asst1/LocalOpts/LocalOpts.cpp:121-123 | replacing an operator by a value it computes throughout a run, in all blocks and phis of a function, leaves the run as it was |
| `ReplaceAll.ReplacingKeepsSsa` | asst1/LocalOpts/LocalOpts.cpp:121-123 | and keeps the function in strict SSA form |
| `FunctionOpts.StepPreservesMeaning` | asst1/LocalOpts/LocalOpts.cpp:81-436 | an identity or an exact fold anywhere in a function is such a replacement, and what was asked of the run still holds |
| `FunctionOpts.ReplacementsPreserveMeaning` | asst1/LocalOpts/LocalOpts.cpp:560-600 | any number of them, in any blocks and order, leave the run and SSA form as they were |
| `Checksum.DuffLoop` | project/src/gem5/ext/dnet/ip.h:437-471 | the switch into the loop adds each of sn words once, and sixteen when sn is 0 |
| `Checksum.CksumAdd` | project/src/gem5/ext/dnet/ip.h:427-476 | the sum of all 16-bit words, a trailing byte padded, in either byte order |
| `Checksum.ReadsBack` | project/src/gem5/ext/dnet/ip.h:439-473 | a word stored by the host is read back, low byte first on a little-endian host; a trailing byte b counts as b there and as 256 b on a big-endian host |
| `Checksum.WordsOfStored` | project/src/gem5/ext/dnet/ip.h:439-473 | the words of a buffer are the words stored in it, in either byte order |
| `Checksum.StoredWords` | project/src/gem5/ext/dnet/ip.h:439-473 | and storing the words gives the buffer back, a trailing byte followed by a zero byte |
| `Checksum.CarryIsComplement` | project/src/gem5/ext/dnet/ip.h:478-483 | two folds give the complement of the residue modulo 0xffff |
| `Checksum.OnesSumIsResidue` | project/src/gem5/ext/dnet/ip.h:478-483 | the one's-complement sum of section 1 of RFC 1071 is that residue |
| `Checksum.ChecksumVerifies` | project/src/gem5/ext/dnet/ip.h:478-483 | the checksum is the complement of the one's-complement sum, and folding the total with the checksum added gives 0 |
| `Checksum.ByteOrderIndependent` | project/src/gem5/ext/dnet/ip.h:427-476 | summing in the other byte order gives the byte-swapped sum |

## Left out

- Pretty-printing, debug output, value names and the statistics counters of the passes.
- LLVM's own analyses (`LoopInfo`, speculation safety, side effects, traversals): they enter as instruction kinds, arguments and `requires`.
- Traps and undefined behaviour: an instruction LLVM calls safe to speculate is total in the model; a host shift by an amount outside 0..63 is an arbitrary function `wild`.
- Bit vectors as arrays: they are sets of bit indices, so resizing is not modelled.
- The `result` map of the engine is a local map value that each visit reassigns; references into it are not modelled.
- LocalMeaning.AlgebraicPreservesMeaning: is about a block in which no instruction uses a value that the block defines later; a phi that does, in a loop of one block, is covered by the function-level theorem ReplacementsPreserveMeaning.
- ReductionMeaning.OptimizedPreservesMeaning: is about one block; strength reduction is not restated for a whole function, because the last instruction it emits keeps the id and the value of the one it replaces.
- LocalMeaning.MayBeConstant: foresees x - x and x / x from equal operand values in the run, so an operator whose operands happen to be equal counts as one that may become a constant.
- DcePass.RunOnFunction: the order of blocks is the depth-first finish order of the model, which visits successors in the order the terminator names them.
- Checksum.CksumAdd: buffers of fewer than 2 bytes, for which the loop reads sixteen words past the buffer (the count is stated by DuffLoop), and totals that overflow a signed 32-bit int.
- FunctionInfo, LoopMemoryAnalysis, fputils, protolib.py and the rest of the vendored simulator: counting, plumbing or thin wrappers that would only add easy members.
