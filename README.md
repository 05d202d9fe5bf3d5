# lambdaize-loop, modelled in Dafny

lambdaize-loop is an LLVM pass that turns a loop into a function. The loop's
blocks move into a new function `extracted`, which runs one trip of the loop
per call and returns `true` to go on or `false` to stop. Where the loop used
to be, the pass leaves a call `looper(extracted, captures...)` to a small
runtime that calls the function until it returns `false`. The repository
holds two versions of the pass, two versions of the runtime, a utility pass
that counts cyclomatic complexity, and the test programs the pass is tried on
(a SHA-256 program and a handful of integer loops).

This project models those parts and proves properties of the model:

- `ir.dfy` (module `Ir`): the abstract IR the passes work on. Blocks and
  values are numbered. A terminator has a kind (branch, switch, return,
  other), a successor list and operands. An operand is a label, a global, a
  function, a constant, poison or a local value. A loop is a block list with
  its header first, a parent and a loop ID. The module also holds the loop
  queries the passes use (preheader, latch, exiting and exit blocks,
  innermost, `getLoopFor`). As in LLVM, `getExitBlock` and `getLoopLatch`
  count edges, not blocks: two edges leaving the loop give no exit block
  even when they reach the same block, and two edges back to the header
  give no latch even when they come from the same block.
- `lambdaize_spec.dfy`, `exit_unification.dfy`, `pass_spec.dfy` (modules
  `LambdaizeSpec`, `ExitUnification`, `PassSpec`): the current pass
  (`lambdaize-loop/lambdaize-loop.cpp`) as functions on IR states, with
  lemmas about each step. The steps are the metadata gate, `removeLoop`, the
  capture set, `createExtracted`, the looper call, exit unification with SSA
  restoration, and the pass's loop over all loops.
- `lambdaize.dfy` (module `Lambdaize`): the same pass written imperatively.
  The class `HostIr` holds the IR as fields that the methods update. Every
  method is proved to leave exactly the state the specification functions
  describe.
- `prototype.dfy` (module `Prototype`): the earlier prototype pass
  (`lambdaize-loop.cpp`). It covers the name-keyed capture list built by
  sorting, `std::set_difference` and `std::unique`, the `extractedN` counter,
  and the five-way eligibility gate.
- `looper.dfy`, `library_looper.dfy` (modules `Looper`, `LibraryLooper`):
  the two `looper` runtimes. Each has a `va_list` cursor class and a runtime
  class that records the memory, every call of the loopee, the live cursor
  copies and the deepest recursion level. `simple_while` and the recursive
  variants are proved to make the same calls.
- `sha256.dfy` (module `Sha256`): the SHA-256 test program against FIPS 180-4.
  This covers the functions of section 4.1.2, the padding of section 5.1.1,
  the big-endian parsing of sections 3.1 and 5.2.1, and the hash computation
  of section 6.2.2. The `message` buffer is an array padded in place.
- `cyclomatic.dfy` (module `Cyclomatic`): the cyclomatic-complexity counter.
- `reference_loops.dfy` (module `ReferenceLoops`): the integer test loops.
  Each loop the pass extracts is written twice. One version is the native
  loop. The other replaces the loop by the runtime driving its extracted
  function, and is proved to give the same result. The loop of
  `return_in_loop` always returns on its first trip, so it has no back edge
  that can be taken; loop analysis finds no loop there, and it is written
  only in its native form.

The pass relies on some LLVM utilities: `InsertPreheaderForLoop`,
`CreateControlFlowHub` and the dominator tree. These are parameters of the
model. The lemmas state which of their outputs they rely on. Loopees are also
parameters: a loopee is a function from the captured arguments and the memory
to the returned flag, the number of arguments it reads and the new memory.

`switch_in_loop` returns 488: after trips 1, 5, 6, 10, 11, 15, 16 and 20
the accumulator holds 2, 6, 5, 9, 18, 22, 484 and 488.

## Model

| member | source | states |
|---|---|---|
| Ir.ExitingBlocksIn | lambdaize-loop/lambdaize-loop.cpp:65-66 | the exiting blocks are exactly the loop blocks with a successor outside the loop |
| Ir.ExitTargets | lambdaize-loop/lambdaize-loop.cpp:335 | the exit targets are exactly the successors of loop blocks that lie outside the loop |
| Ir.ExitBlockIsTheOnlyExit | lambdaize-loop/lambdaize-loop.cpp:335-341 | the block `getExitBlock` finds is an exit of the loop, and every exit of the loop is that block |
| Ir.ExitTargetsOne | lambdaize-loop/lambdaize-loop.cpp:335 | `getExitBlocks` holds one entry iff exactly one successor position of the loop's blocks lies outside the loop |
| Ir.ExitBlockIffOneExitEdge | lambdaize-loop/lambdaize-loop.cpp:335-341 | `getExitBlock` finds a block iff exactly one edge (block, successor position) leaves the loop; every edge leaving the loop then goes to that block, and `getUniqueExitBlock` returns the same block |
| Ir.TwoExitEdgesNoExitBlock | lambdaize-loop/lambdaize-loop.cpp:335-341 | two different edges leaving the loop make `getExitBlock` return nothing, even when both reach the same block |
| Ir.UniqueExitBlockIsTheOnlyExit | lambdaize-loop/lambdaize-loop.cpp:96-99 | `getUniqueExitBlock` gives `x` iff `x` is an exit of the loop and every exit is `x` |
| Ir.Preheader | lambdaize-loop/lambdaize-loop.cpp:29 | a preheader, when there is one, lies outside the loop and has exactly one successor |
| Ir.OutsidePreds | lambdaize-loop/lambdaize-loop.cpp:29 | the header's predecessors outside the loop are exactly the placed blocks outside the loop that branch to the header |
| Ir.InsidePreds | lambdaize-loop.cpp:120 | the header's predecessors inside the loop, one entry per edge, are exactly the loop blocks that branch to the header |
| Ir.InsidePredsOne | lambdaize-loop.cpp:120 | the header's in-loop predecessor list holds one entry iff exactly one successor position of the loop's blocks is the header |
| Ir.LatchIffOneBackEdge | lambdaize-loop.cpp:120 | `getLoopLatch` finds a block iff the loop has a header and exactly one edge (block, successor position) of the loop goes back to it; the latch is then a loop block and the source of every such edge |
| Ir.TwoBackEdgesNoLatch | lambdaize-loop.cpp:120 | two different edges back to the header make `getLoopLatch` return nothing, even when both come from the same block |
| Ir.LoopFor | lambdaize-loop/lambdaize-loop.cpp:70 | `getLoopFor`: the innermost loop holding the block, i.e. the last loop in preorder that holds it; nothing iff no loop holds it |
| Ir.InLoopNestIsMembership | lambdaize-loop/lambdaize-loop.cpp:70-76 | in a well-formed loop nest, "the successor's loop is this loop or one nested in it" holds iff the successor is a block of this loop |
| Ir.EnclosedBlocks | lambdaize-loop/lambdaize-loop.cpp:74 | a block of a loop nested in `l` is a block of `l` |
| LambdaizeSpec.LoopContainsMetadata | lambdaize-loop/lambdaize-loop.cpp:225-240 | true iff the loop has an ID and some operand after the first (the self reference) has the string as its operand 0; false when there is no loop ID |
| LambdaizeSpec.AnyNamedIff | lambdaize-loop/lambdaize-loop.cpp:232-237 | the `any_of` over the metadata nodes holds iff one of them has the string as its operand 0 |
| LambdaizeSpec.RemovableHasHeader | lambdaize-loop/lambdaize-loop.cpp:335-350 | a loop that passes the checks has a header |
| LambdaizeSpec.PreparedBlocksAt | lambdaize-loop/lambdaize-loop.cpp:354-363 | `LoopContinue` returns true, `LoopBreak` returns false, the preheader's successor 0 becomes the exit, and the loop blocks are not yet touched |
| LambdaizeSpec.ReplaceBothAvoids | lambdaize-loop/lambdaize-loop.cpp:370-371 | after replacing the header by `LoopContinue` and then the exit by `LoopBreak` in a successor list, neither is left, the length is kept and every other successor stays in place |
| LambdaizeSpec.RedirectAllInside | lambdaize-loop/lambdaize-loop.cpp:368-373 | each loop block's terminator gets its back and exit edges redirected |
| LambdaizeSpec.RedirectAllOutside | lambdaize-loop/lambdaize-loop.cpp:368-373 | blocks outside the loop are not redirected |
| LambdaizeSpec.RedirectAllKeepsOperands | lambdaize-loop/lambdaize-loop.cpp:368-373 | redirecting successors changes no operand |
| LambdaizeSpec.RedirectedEdges | lambdaize-loop/lambdaize-loop.cpp:368-373 | a redirected loop block targets neither header nor exit; each successor equal to the header is now `LoopContinue`, each one equal to the exit is `LoopBreak`, and the others are unchanged |
| LambdaizeSpec.RemovedLoopNewBlocks | lambdaize-loop/lambdaize-loop.cpp:354-363 | after `removeLoop` the preheader branches to the exit only, and the two new blocks return true and false |
| LambdaizeSpec.RemovedLoopEdges | lambdaize-loop/lambdaize-loop.cpp:354-373 | after `removeLoop`: the preheader goes to the exit; no moved terminator targets the original header or exit; those edges go to the block returning true (header) or false (exit), position by position |
| LambdaizeSpec.RemoveFromChainEffect | lambdaize-loop/lambdaize-loop.cpp:379-381 | the walk up the parent chain removes the block from the loop and every ancestor, and from no other loop |
| LambdaizeSpec.LoopsWithoutEffect | lambdaize-loop/lambdaize-loop.cpp:377-383 | every moved block leaves the loop and each of its ancestors; other loops, parents and loop IDs are unchanged |
| LambdaizeSpec.LayoutsWithoutEffect | lambdaize-loop/lambdaize-loop.cpp:378 | `removeFromParent` takes the moved blocks out of every function layout, keeping the names and the other blocks |
| LambdaizeSpec.RemovedLoopDetaches | lambdaize-loop/lambdaize-loop.cpp:377-385 | after `removeLoop` no function places a loop block and the loop and its ancestors no longer hold them; other loops are unchanged |
| LambdaizeSpec.RemovedBlocksFresh | lambdaize-loop/lambdaize-loop.cpp:377-387 | the output list is the loop blocks in loop order (header first), then `LoopContinue`, then `LoopBreak`: no repeats, all allocated, preheader not among them |
| LambdaizeSpec.SetInsert | lambdaize-loop/lambdaize-loop.cpp:407 | `std::set::insert` keeps the set ordered and adds exactly the new element |
| LambdaizeSpec.SortedElements | lambdaize-loop/lambdaize-loop.cpp:401-404 | iterating a `std::set` gives its elements in increasing order, each once |
| LambdaizeSpec.IncreasingUnique | lambdaize-loop/lambdaize-loop.cpp:420-424 | two increasing lists with the same elements are equal, so the capture list is determined by the blocks |
| LambdaizeSpec.ArgAddrMapOrder | lambdaize-loop/lambdaize-loop.cpp:299-302 | `ArgAddrMap` maps every capture, and the k-th capture to the value of the k-th `va_arg` |
| LambdaizeSpec.RewrittenOperands | lambdaize-loop/lambdaize-loop.cpp:310-316 | an operand equal to a captured value becomes that value's `va_arg`; every other operand is unchanged |
| LambdaizeSpec.RewriteInstOperands | lambdaize-loop/lambdaize-loop.cpp:311-316 | rewriting the instructions rewrites their operand list element by element |
| LambdaizeSpec.RewriteBlockOperands | lambdaize-loop/lambdaize-loop.cpp:311-316 | rewriting a block rewrites its operand list element by element |
| LambdaizeSpec.RewriteRemovesKeys | lambdaize-loop/lambdaize-loop.cpp:313-314 | no captured value is read by a rewritten block |
| LambdaizeSpec.RewriteAllInside | lambdaize-loop/lambdaize-loop.cpp:310-319 | each moved block is rewritten through the capture map |
| LambdaizeSpec.RewriteAllOutside | lambdaize-loop/lambdaize-loop.cpp:310-319 | blocks that are not moved are not rewritten |
| LambdaizeSpec.ExtractedShape | lambdaize-loop/lambdaize-loop.cpp:285-319 | the new function is `extracted` with an entry block and then the moved blocks; the entry block's k-th instruction is the `va_arg` the k-th capture maps to, and it branches to the header; each moved block is rewritten through the capture map |
| LambdaizeSpec.ExtractedKeepsPreheader | lambdaize-loop/lambdaize-loop.cpp:280-319 | building `extracted` leaves the preheader branching straight to the exit |
| LambdaizeSpec.ExtractedReadsNoCapture | lambdaize-loop/lambdaize-loop.cpp:310-319 | no moved block still reads a captured value |
| LambdaizeSpec.ExtractedLoopCall | lambdaize-loop/lambdaize-loop.cpp:249-258 | the preheader keeps its instructions and its exit successor and gets one more instruction: a call of `looper` with `extracted` first and then the captures in `va_arg` order |
| ExitUnification.Dedup | lambdaize-loop/lambdaize-loop.cpp:61-68 | `SetVector` insertion keeps each exiting block once, first occurrence first |
| ExitUnification.AddExitsMembers | lambdaize-loop/lambdaize-loop.cpp:69-79 | the successors of one exiting block that are in neither the loop nor a subloop are added to the exit set, each once |
| ExitUnification.CollectExitsMembers | lambdaize-loop/lambdaize-loop.cpp:67-80 | the exit set holds exactly the successors of the exiting blocks in neither the loop nor a subloop, without repeats |
| ExitUnification.ExitBlocksAreExits | lambdaize-loop/lambdaize-loop.cpp:61-80 | the collected exit blocks are exactly the exits of the loop, without repeats |
| ExitUnification.OneExitBlockIffUniqueExitBlock | lambdaize-loop/lambdaize-loop.cpp:96-99 | the collected exit set has one member iff every edge leaving the loop reaches one block, and so it has one member whenever `getExitBlock` finds a block |
| ExitUnification.AddExternalMembers | lambdaize-loop/lambdaize-loop.cpp:169-186 | a definition of one block joins `ExternalUsers` iff it is used in a block that is neither in the loop nor the exit block |
| ExitUnification.ExternalDefsInMembers | lambdaize-loop/lambdaize-loop.cpp:169-188 | `ExternalUsers` of a block list holds exactly its definitions used outside the loop and the exit block, each once |
| ExitUnification.ExternalDefsExactly | lambdaize-loop/lambdaize-loop.cpp:168-188 | `ExternalUsers` holds exactly the loop definitions used outside the loop and the exit block, each once |
| ExitUnification.HomeIn | lambdaize-loop/lambdaize-loop.cpp:201 | the block of the loop that defines the value, when there is one |
| ExitUnification.PrependPhisShape | lambdaize-loop/lambdaize-loop.cpp:196-208 | each new phi goes to the front of the exit block, so the phis come in reverse order of creation before the old instructions |
| ExitUnification.RestoredPhis | lambdaize-loop/lambdaize-loop.cpp:190-208 | after `restoreSSA` the exit block starts with one phi per externally used definition; from each incoming block it takes the definition iff the definition is in that block or dominates it, and poison otherwise |
| ExitUnification.RestoredUses | lambdaize-loop/lambdaize-loop.cpp:210-214 | uses outside the loop and the exit block now read the phi; blocks inside the loop keep reading the definition |
| ExitUnification.RestoredNoOutsideUse | lambdaize-loop/lambdaize-loop.cpp:168-214 | after `restoreSSA` no definition of the loop is used outside the loop and the exit block |
| ExitUnification.RestoreDefs | lambdaize-loop/lambdaize-loop.cpp:190-216 | `restoreSSA` changes only blocks and allocates one value per phi |
| ExitUnification.RestoreDefsAtOnce | lambdaize-loop/lambdaize-loop.cpp:190-216 | handling the definitions one after another equals handling them all at once |
| ExitUnification.RestoredSsaIsAtOnce | lambdaize-loop/lambdaize-loop.cpp:158-217 | `restoreSSA` is the simultaneous rewrite of all externally used definitions |
| ExitUnification.AddToChainEffect | lambdaize-loop/lambdaize-loop.cpp:123-126 | a guard block joins the loop and each of its ancestors and no other loop |
| ExitUnification.AddGuardsEffect | lambdaize-loop/lambdaize-loop.cpp:123-128 | all guard blocks join the parent loop and its ancestors; parents are unchanged |
| ExitUnification.UnifyChangesIffManyExits | lambdaize-loop/lambdaize-loop.cpp:96-99 | `unifyLoopExits` reports a change iff the loop has at least two exit blocks and otherwise leaves the IR as it was; a loop with a unique exit block is left alone |
| ExitUnification.UnifyHandsHubTheExits | lambdaize-loop/lambdaize-loop.cpp:101-111 | the hub receives the exiting blocks (no repeats, exactly the loop blocks leaving the loop) and the exit blocks, and SSA is restored at the hub's block |
| PassSpec.ExtractedLoopInto | lambdaize-loop/lambdaize-loop.cpp:247-262 | `extractLoopIntoFunction` reports a change iff the loop has a preheader and `removeLoop` accepts it (exactly one edge leaves the loop and every loop block ends in a branch or a switch) |
| PassSpec.StepUnchanged | lambdaize-loop/lambdaize-loop.cpp:25-41 | a loop step that reports no change leaves the IR as it was |
| PassSpec.RunUpToUnchanged | lambdaize-loop/lambdaize-loop.cpp:24-42 | the loop over the loops reports no change only if the IR is unchanged |
| PassSpec.RunPreservedAllMeansUnchanged | lambdaize-loop/lambdaize-loop.cpp:38-43 | `run` reports all analyses preserved iff no preheader insertion, exit unification or extraction changed anything, and then the IR is unchanged |
| PassSpec.RunUpToUnmarked | lambdaize-loop/lambdaize-loop.cpp:24-28 | loops without the `lambdaizeloop` metadata are skipped |
| PassSpec.RunLeavesUnmarkedAlone | lambdaize-loop/lambdaize-loop.cpp:24-43 | a function with no marked loop is left unchanged and everything is preserved |
| PassSpec.StepOnSimpleLoop | lambdaize-loop/lambdaize-loop.cpp:29-41 | a marked loop with a preheader whose exit edges all reach one block gets no new preheader and no hub, and is extracted exactly when `removeLoop` accepts it |
| PassSpec.StepOnSharedExit | lambdaize-loop/lambdaize-loop.cpp:335-341 | a marked loop with a preheader whose several exit edges all reach one block is neither unified nor extracted: the step changes nothing |
| Lambdaize.InsertOperands | lambdaize-loop/lambdaize-loop.cpp:408-415 | the operand loop adds exactly the local operands to the ordered argument set |
| Lambdaize.InsertBlock | lambdaize-loop/lambdaize-loop.cpp:406-416 | one block adds its definitions to `Declared` and its local operands to `Arguments`, keeping both ordered |
| Lambdaize.SetDifference | lambdaize-loop/lambdaize-loop.cpp:420-423 | `std::set_difference` of two ordered sets gives exactly the elements of the first not in the second, ordered |
| Lambdaize.SetOutsideDefinedVariables | lambdaize-loop/lambdaize-loop.cpp:397-424 | the result is the ordered set of values the blocks use minus the values they define; labels, globals and constants are excluded |
| Lambdaize.BuildEntry | lambdaize-loop/lambdaize-loop.cpp:299-302 | one `va_arg` per capture, in capture order, and the map from each capture to its `va_arg` |
| Lambdaize.RewriteOperands | lambdaize-loop/lambdaize-loop.cpp:312-316 | the operand loop computes the rewrite of the operand list through the capture map |
| Lambdaize.RewriteInBlock | lambdaize-loop/lambdaize-loop.cpp:311-317 | the instruction loop computes the rewrite of the whole block |
| Lambdaize.CollectExitSets | lambdaize-loop/lambdaize-loop.cpp:61-80 | the two loops fill the exiting-block and exit-block sets `LambdaizeSpec` describes |
| Lambdaize.FindExternalUsers | lambdaize-loop/lambdaize-loop.cpp:168-188 | the nested loops compute exactly the externally used definitions |
| Lambdaize.PhiIncomings | lambdaize-loop/lambdaize-loop.cpp:199-208 | one incoming value per incoming block: the definition iff it is in that block or dominates it, poison otherwise |
| Lambdaize.HostIr.RemoveFromLoops | lambdaize-loop/lambdaize-loop.cpp:379-381 | the parent-chain walk removes the block from the loop and its ancestors and changes nothing else |
| Lambdaize.HostIr.CheckRemovable | lambdaize-loop/lambdaize-loop.cpp:335-350 | `removeLoop`'s two checks, made before any change: `getExitBlock` finds a block (exactly one edge leaves the loop), and every loop block ends in a branch or a switch |
| Lambdaize.HostIr.RedirectBody | lambdaize-loop/lambdaize-loop.cpp:367-373 | every loop block's back and exit edges redirected, the blocks listed in loop order, nothing else changed |
| Lambdaize.HostIr.DetachBody | lambdaize-loop/lambdaize-loop.cpp:377-383 | the listed blocks leave every function layout and the loop and its ancestors |
| Lambdaize.HostIr.RemoveLoop | lambdaize-loop/lambdaize-loop.cpp:332-388 | accepts iff the checks pass (one edge leaving the loop, branch or switch terminators); on failure nothing changes; on success the IR is the removed-loop state and the output is the loop blocks, `LoopContinue`, `LoopBreak` |
| Lambdaize.HostIr.MoveBlocks | lambdaize-loop/lambdaize-loop.cpp:310-319 | each moved block is rewritten through the capture map and appended to the new function |
| Lambdaize.HostIr.BuildExtracted | lambdaize-loop/lambdaize-loop.cpp:285-319 | the captures are the outside-defined values of the moved blocks; the new function holds the entry block of `va_arg`s and the rewritten blocks |
| Lambdaize.HostIr.CreateExtracted | lambdaize-loop/lambdaize-loop.cpp:272-322 | a function is made iff `removeLoop` accepts the loop, with the captures and state the specification gives; on failure nothing changes |
| Lambdaize.HostIr.ExtractLoopIntoFunction | lambdaize-loop/lambdaize-loop.cpp:247-262 | the IR and result are exactly those of the extraction specification, including the `looper` call |
| Lambdaize.HostIr.ReplaceUses | lambdaize-loop/lambdaize-loop.cpp:211-214 | `replaceUsesOfWith` on exactly the blocks outside the loop and exit block |
| Lambdaize.HostIr.RestoreDefinition | lambdaize-loop/lambdaize-loop.cpp:190-215 | one phi for the definition and its outside uses redirected, as the specification's single step |
| Lambdaize.HostIr.RestoreSsa | lambdaize-loop/lambdaize-loop.cpp:158-217 | `restoreSSA` leaves exactly the restored state |
| Lambdaize.HostIr.AddGuardBlocks | lambdaize-loop/lambdaize-loop.cpp:123-128 | the guard blocks join the parent loop and its ancestors |
| Lambdaize.HostIr.UnifyLoopExits | lambdaize-loop/lambdaize-loop.cpp:51-135 | state and result are those of the exit-unification specification |
| Lambdaize.HostIr.ProcessLoop | lambdaize-loop/lambdaize-loop.cpp:25-41 | one iteration of `run`'s loop: gate, preheader, exit unification and extraction, as the step specification |
| Lambdaize.HostIr.Run | lambdaize-loop/lambdaize-loop.cpp:18-44 | `run` computes the pass specification; when it reports all preserved the IR is unchanged |
| Prototype.NameLessIrreflexive | lambdaize-loop.cpp:57-59 | comparing names is irreflexive |
| Prototype.NameLessTransitive | lambdaize-loop.cpp:57-59 | comparing names is transitive |
| Prototype.NameLessTotal | lambdaize-loop.cpp:57-59 | two names neither below the other are equal, so the comparison is the strict weak ordering that `std::sort` needs |
| Prototype.NameLeTransitive | lambdaize-loop.cpp:57-59 | "not below" on names is transitive |
| Prototype.ValuesOf | lambdaize-loop.cpp:50 | `operand_values` of an instruction: its operands, and for a call also the callee |
| Prototype.NamedOperandsNamed | lambdaize-loop.cpp:50-54 | only named, non-label operands are collected |
| Prototype.ArgumentsInNamed | lambdaize-loop.cpp:45-56 | every collected argument is a named non-label value read by some loop block |
| Prototype.CollectInsts | lambdaize-loop.cpp:46-55 | the instruction loop collects the named instructions and the named non-label operands |
| Prototype.CollectBlock | lambdaize-loop.cpp:46-55 | one block contributes its named instructions and named operands |
| Prototype.CollectNamed | lambdaize-loop.cpp:44-56 | the collection loops fill `Declared` and `Arguments` with the named values, in loop order |
| Prototype.SortByName | lambdaize-loop.cpp:60-61 | `std::sort` by name: the result is sorted by name and a permutation of the input |
| Prototype.CountNamePermutation | lambdaize-loop.cpp:60-61 | sorting does not change how often each name occurs |
| Prototype.NameDiffCounts | lambdaize-loop.cpp:63-67 | multiset `set_difference` by name: sorted, drawn from the arguments, and each name occurs max(k - d, 0) times, with k its number of uses and d its number of declarations |
| Prototype.SetDifferenceByName | lambdaize-loop.cpp:62-67 | the merge loop computes the multiset difference by name |
| Prototype.AdjacentUniqueShape | lambdaize-loop.cpp:68-70 | `unique`+`erase`: the same elements, still sorted, no two equal neighbours |
| Prototype.UniqueIsStrict | lambdaize-loop.cpp:68-70 | after `unique` a list sorted by distinct-valued names is strictly increasing |
| Prototype.Unique | lambdaize-loop.cpp:68-70 | the erase-unique loop computes the adjacent-duplicate removal |
| Prototype.UnreferencedShape | lambdaize-loop.cpp:57-71 | the result is sorted by name, drawn from the arguments, has no two equal neighbours, and holds a name iff it is used more times than it is declared |
| Prototype.GetUnreferencedVariables | lambdaize-loop.cpp:42-72 | `getUnreferencedVariables` returns a list with exactly those properties |
| Prototype.UnreferencedDeterminate | lambdaize-loop.cpp:57-71 | when names identify values, any list with those properties is the same list, whatever order `std::sort` leaves ties in |
| Prototype.NatToString | lambdaize-loop.cpp:85 | `std::to_string` of a count: decimal digits with a leading 0 only for 0 |
| Prototype.DecimalValueOfString | lambdaize-loop.cpp:85 | reading back the digits gives the number |
| Prototype.NatToStringInjective | lambdaize-loop.cpp:85 | different counts give different strings |
| Prototype.ExtractedNameInjective | lambdaize-loop.cpp:85 | different counts give different `extractedN` names |
| Prototype.PrototypeExtractedShape | lambdaize-loop.cpp:79-102 | after extraction: one new empty function with the new name; the preheader branches to the exit and ends with the `looper` call on the new function and the captures; every loop block is erased from the blocks and the layouts |
| Prototype.PrototypePass.FreshName | lambdaize-loop.cpp:75-85 | the next name was not used before |
| Prototype.PrototypePass.InsertLooperCall | lambdaize-loop.cpp:88-96 | the preheader's successor 0 becomes the exit, and a `looper` call with `[Extracted] ++ unreferenced` goes before its terminator |
| Prototype.PrototypePass.EraseBlocks | lambdaize-loop.cpp:98-102 | `eraseFromParent` removes the loop blocks from the IR and from every layout |
| Prototype.PrototypePass.ExtractLoopIntoFunction | lambdaize-loop.cpp:73-104 | the counter grows by one and the new name `extracted<count>` is fresh; the arguments are the unreferenced values; the IR is the extracted state |
| Prototype.PrototypePass.RunOnLoop | lambdaize-loop.cpp:113-129 | all preserved and nothing changed iff the loop is not innermost, lacks a preheader or a latch (exactly one edge back to the header), or lacks an exiting block or an exit block (exactly one edge leaving the loop); otherwise the loop is extracted and nothing is preserved |
| Looper.StateAfterLast | lambdaize-loop/looper/looper.cpp:11-17 | one more call of the loopee moves the memory one step |
| Looper.TraceLast | lambdaize-loop/looper/looper.cpp:11-17 | one more call adds one entry to the call sequence |
| Looper.TraceCalls | lambdaize-loop/looper/looper.cpp:9-18 | the k-th loopee call sees the whole argument list and the memory after k calls |
| Looper.FirstFalseShift | lambdaize-loop/looper/looper.cpp:48-51 | after a call returning true, the first false comes one call earlier |
| Looper.FirstFalseUnique | lambdaize-loop/looper/looper.cpp:16 | the call that first returns false is unique |
| Looper.Runtime.VaStart | lambdaize-loop/looper/looper.cpp:65-66 | `va_start` opens a new cursor at the first variadic argument |
| Looper.Runtime.VaCopy | lambdaize-loop/looper/looper.cpp:48-49 | `va_copy` gives a fresh open cursor at the same position |
| Looper.Runtime.VaEnd | lambdaize-loop/looper/looper.cpp:53 | `va_end` closes one live cursor, nothing else changes |
| Looper.Runtime.Call | lambdaize-loop/looper/looper.cpp:50 | the loopee is called on the cursor's remaining arguments and the memory; the call is recorded; the cursor is left past the arguments the loopee read (at most at its end), so its remaining arguments are the old ones less those read |
| Looper.SimpleWhile | lambdaize-loop/looper/looper.cpp:9-18 | `simple_while` makes exactly n+1 calls when the first false is at call n, each on a fresh copy; the original cursor is not consumed and every copy is released |
| Looper.ZMultipleArguments | lambdaize-loop/looper/looper.cpp:42-60 | the recursive variant makes the same calls as `simple_while`, releases every copy, and recurses no deeper than `MAX_RECURSION_COUNT` (512), where it hands over to `simple_while`; below the cutoff the loopee consumes the cursor it is handed, which ends past the arguments the first call read, and the recursion continues on the copy; at the cutoff the cursor is not moved |
| Looper.LooperMain | lambdaize-loop/looper/looper.cpp:63-72 | `looper` starts the recursive variant at depth 0 between `va_start` and `va_end`: n+1 calls on the whole list, depth at most min(n, 512), no cursor left open |
| LibraryLooper.InternalMultipleArguments | library/looper.cpp:5-16 | without a cutoff the calls are those of `simple_while`; the copy is released after the recursive step; the depth reaches level + n; the loopee consumes the cursor it is handed, which ends past the arguments the first call read, and the recursion continues on the copy |
| LibraryLooper.LooperMain | library/looper.cpp:53-62 | `looper` runs the multiple-arguments variant between `va_start` and `va_end`: n+1 calls, depth n, no cursor left open |
| Cyclomatic.CountCyclomaticComplexity | utilities/count-cyclomatic-complexity/count-cyclomatic-complexity.cpp:8-24 | one component per function including declarations, one node per block, edges the sum of successor counts, and complexity E - N + 2P; the module is only read |
| Cyclomatic.ComplexityIsSum | utilities/count-cyclomatic-complexity/count-cyclomatic-complexity.cpp:12-22 | the module complexity is the sum of the functions' own complexities |
| Cyclomatic.StraightLineSum | utilities/count-cyclomatic-complexity/count-cyclomatic-complexity.cpp:12-22 | functions of one returning block each have complexity 1 |
| Cyclomatic.StraightLineModule | utilities/count-cyclomatic-complexity/count-cyclomatic-complexity.cpp:12-22 | a module whose functions are each one block ending in a return has complexity equal to its function count |
| ReferenceLoops.DrivenStates | lambdaize-loop/looper/looper.cpp:9-18 | driving the extracted function k times leaves the memory the loop body leaves after k trips |
| ReferenceLoops.DrivenIsNative | test/test.c:7-12 | driving the extracted function of `while (cond) body` gives the first false after exactly the loop's trip count, with the memory the native loop leaves |
| ReferenceLoops.CountUpIterate | test/test.c:7-9 | k trips of `++a` with `++i` add k to both |
| ReferenceLoops.CountDownIterate | test/test.c:10-12 | k trips of `++a` with `--i` take k from i and add k to a |
| ReferenceLoops.CountUpLeaves | test/test.c:7-9 | `for (i = lo; i < hi; ++i) ++a;` leaves after hi - lo trips with a grown by as much |
| ReferenceLoops.CountDownLeaves | test/test.c:10-12 | `for (i = hi; i > 0; --i) ++a;` leaves after hi trips with a grown by hi |
| ReferenceLoops.RunExtracted | lambdaize-loop/looper/looper.cpp:63-72 | `looper` on an extracted loop leaves the memory the native loop leaves |
| ReferenceLoops.MultipleLoops | test/test.c:3-14 | `multiple_loops` returns 30 |
| ReferenceLoops.MultipleLoopsExtracted | test/test.c:3-14 | with both loops replaced by `looper` calls, the result is still 30 |
| ReferenceLoops.ReturnInLoop | test/test.c:16-23 | `return_in_loop` returns 100 on its first trip |
| ReferenceLoops.SwitchValueStep | test/test.c:29-47 | the closed form of `a` after k trips follows the switch for each k < 20 |
| ReferenceLoops.SwitchInLoop | test/test.c:25-49 | `switch_in_loop` returns 488 |
| ReferenceLoops.SwitchIterate | test/test.c:29-47 | k trips from (0, 0) give (k, closed form at k) |
| ReferenceLoops.SwitchInLoopExtracted | test/test.c:25-49 | with the loop extracted and driven by `looper`, the result is still 488 |
| ReferenceLoops.Inner3 | test/test.c:72-78 | the three innermost loops add 1000 |
| ReferenceLoops.OctupleNestedLoop | test/test.c:63-85 | `octuple_nested_loop` returns 100000000 |
| ReferenceLoops.Inner3Extracted | test/test.c:72-78 | with the innermost loop replaced by a `looper` call, the three innermost loops still add 1000 |
| ReferenceLoops.OctupleNestedLoopExtracted | test/test.c:63-85 | with the innermost loop extracted, the result is still 100000000 |
| Sha256.Ch | test/sha256.cpp:55-58 | each bit of `Ch` comes from y where x has a one and from z where it has a zero (equation 4.2) |
| Sha256.Maj | test/sha256.cpp:59-62 | each bit of `Maj` is the majority of the three: x where x and y agree, z where they differ (equation 4.3) |
| Sha256.BigSigma0 | test/sha256.cpp:63-66 | Σ0 is ROTR 2 ^ ROTR 13 ^ ROTR 22 on 32 bits (equation 4.4) |
| Sha256.BigSigma1 | test/sha256.cpp:67-70 | Σ1 is ROTR 6 ^ ROTR 11 ^ ROTR 25 (equation 4.5) |
| Sha256.SmallSigma0 | test/sha256.cpp:71-74 | σ0 is ROTR 7 ^ ROTR 18 ^ SHR 3, SHR being a logical shift (equation 4.6) |
| Sha256.SmallSigma1 | test/sha256.cpp:75-78 | σ1 is ROTR 17 ^ ROTR 19 ^ SHR 10 (equation 4.7) |
| Sha256.BigEndianWordRoundTrip | test/sha256.cpp:105-114 | a word and its four big-endian bytes convert into each other both ways |
| Sha256.WordPrefixComplete | test/sha256.cpp:109-113 | ORing in the four shifted bytes gives the big-endian word |
| Sha256.LengthBytesRoundTrip | test/sha256.cpp:97-99 | the eight length bytes read back as the length |
| Sha256.PaddedSizeBounds | test/sha256.cpp:89-95 | the padded size is a multiple of 64, at least the length plus 9, and the smallest such |
| Sha256.PaddedSizeArithmetic | test/sha256.cpp:89-95 | the constructor's bit arithmetic with `mod_subtract` gives the padded size in bytes |
| Sha256.PadLength | test/sha256.cpp:89-95 | the padded message is a whole number of 64-byte blocks, between length + 9 and length + 72 |
| Sha256.PadLengthMinimal | test/sha256.cpp:89-95 | no shorter multiple of 64 holds the message and its 9 extra bytes |
| Sha256.PadContents | test/sha256.cpp:87-99 | the padded message starts with the input, then 0x80, then zeros up to the last 8 bytes, which are the bit length 8·bytes big-endian |
| Sha256.ScheduleRecurrence | test/sha256.cpp:136-141 | W_t is message word t for t < 16 and σ1(W_t-2) + W_t-7 + σ0(W_t-15) + W_t-16 after |
| Sha256.RoundStep | test/sha256.cpp:143-154 | one round shifts the working variables and brings in T1 + T2 and d + T1 |
| Sha256.RoundsUpToNext | test/sha256.cpp:143-154 | the rounds up to t + 1 are one more round after the rounds up to t |
| Sha256.HashBlocksNext | test/sha256.cpp:134-163 | the hash after n + 1 blocks is the compression of the hash after n with block n |
| Sha256.Message.constructor | test/sha256.cpp:85-100 | the buffer holds exactly the padded message |
| Sha256.Message.SizeFor | test/sha256.cpp:89-95 | the 64-bit `l` is the bit length of the input, and `(l + 1 + k + 64) / 8`, with k from `mod_subtract`, is the padded size: input, 0x80, zero bytes and eight length bytes |
| Sha256.PadFromParts | test/sha256.cpp:95-99 | a buffer whose last eight bytes are the length field and whose other bytes are the input, 0x80 and zeros is the padded message |
| Sha256.Message.Resized | test/sha256.cpp:95-96 | `resize` keeps the input, adds zero bytes, and 0x80 is ORed in after the input |
| Sha256.Message.WriteLength | test/sha256.cpp:97-99 | the length loop ORs the eight big-endian bytes of l into the zero tail and changes nothing before it |
| Sha256.Message.N | test/sha256.cpp:101-104 | `N` is the number of whole 64-byte blocks |
| Sha256.Message.GetWord | test/sha256.cpp:105-114 | `get_word(i, t)` is the big-endian combination of bytes 64i+4t to 64i+4t+3 |
| Sha256.MessageSchedule | test/sha256.cpp:135-141 | the two W loops fill W with the message schedule of block i |
| Sha256.CompressionRounds | test/sha256.cpp:142-154 | the 64-round loop computes the rounds function on the working variables |
| Sha256.HashBlock | test/sha256.cpp:134-162 | one block: schedule, rounds and the addition into H mod 2^32, as the compression function |
| Sha256.HashMessage | test/sha256.cpp:132-163 | starting from H0, the block loop computes the hash of all blocks |
| Sha256.Main256 | test/sha256.cpp:128-163 | the program (without its I/O) computes the SHA-256 digest of its input |

## Left out

- LLVM analyses and utilities: `InsertPreheaderForLoop`, `CreateControlFlowHub`, the dominator tree, `LoopInfo` and MemorySSA are foreign code. They are parameters (insertion, hub and dominance), and the lemmas state what they assume about these.
- The `verify` asserts, `LLVM_DEBUG` output and `llvm::errs()` printing are diagnostics only and are not modelled.
- Use lists are not modelled. `restoreSSA` finds the external users by scanning every block's operands instead of following `Instruction::uses()`.
- Plugin registration and pipeline parsing are host-compiler glue.
- `getLooperFC`, `getExtractedFunctionType`, `getVaListType` and `getVaArgPtrFC` are left out: they build LLVM types and the System V `va_list` layout. The looper's argument cursor is a list plus a position.
- Addresses order `std::set<llvm::Value *>`. The model orders values by their numbers, which is some total order, as addresses are.
- Lookups of a missing block are totalized: a missing block reads as an empty block whose terminator has no successors.
- `setSuccessor(0, …)` on a terminator without successors leaves it unchanged.
- A loop whose ID is malformed (a property node with no operands) counts as unmarked.
- The current `extractLoopIntoFunction` dereferences a null preheader. The model reports no change instead.
- LLVM renames a function whose name is already taken. The model keeps the plain names `extracted` and `extractedN`.
- Invoke instructions and terminators that produce values are not modelled. Every terminator is a branch, a switch, a return or another kind without a result.
- `StringRef::compare` is modelled as lexicographic order on characters.
- Prototype.GetUnreferencedVariables: values are compared by name only, as `compValueByName` does, and `std::unique` compares by identity. The result is a relation, because `std::sort` leaves the order of equal names unspecified.
- Prototype.PrototypePass.EraseBlocks: `eraseFromParent` does not update `LoopInfo`, and uses of erased values left in other blocks dangle. The model erases the blocks and keeps the loop records as they were.
- Prototype.PrototypePass.InsertLooperCall: the prototype's `dyn_cast<BranchInst>` gives null on a non-branch terminator, which it then dereferences. The model applies the successor change to any terminator.
- Prototype.PrototypePass.ExtractLoopIntoFunction: the `static int Count` is unbounded here, so its 32-bit overflow is not modelled.
- The prototype's `run(Module&)` only runs `InstructionNamerPass` and `LoopSimplifyPass` over the functions. Both are foreign passes.
- `z_combinator_one_argument`, `looper_internal_one_argument` and `looper_internal_experimental` are left out. Each is a curried form of the same recursion as the multiple-arguments variant of its file, and it makes the same calls. They are modelled once, by Looper.ZMultipleArguments and LibraryLooper.InternalMultipleArguments.
- The combinator headers and `combinator-example/*.cpp` rely on untyped self-application, which Dafny cannot type. Their only effect is the recursion the runtime models already state.
- Looper.SimpleWhile, Looper.ZMultipleArguments, Looper.LooperMain, LibraryLooper.InternalMultipleArguments and LibraryLooper.LooperMain require that the loopee eventually returns false, through a ghost call count. A loopee that never returns false is not modelled.
- `va_arg` past the last argument is undefined in C. The cursor stops at the end of the list.
- Cyclomatic.CountCyclomaticComplexity: the `int` counters are unbounded here, so their overflow is not modelled. The printing is left out. The `PreservedAnalyses::none()` that the pass returns, although it changes nothing, is not modelled.
- The `ROTR<0>` branch is left out: the program never instantiates it. The sigma functions use their fixed rotation amounts.
- Sha256.Message.constructor: the message must be shorter than 2^61 - 72 bytes, so that the 64-bit length arithmetic does not wrap.
- SHA-256 file reading and hex printing are I/O.
- `printf`, `puts`, `main` and the printing-only `double_nested_loop` in the test loops are I/O.
- ExitUnification.RestoredPhis, ExitUnification.RestoredUses and ExitUnification.RestoredNoOutsideUse assume that the loop's values are numbered below the next free number and that the exit block lies outside the loop. The pass guarantees both.
