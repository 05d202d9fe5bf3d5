/**
 * `LambdaizeLoop::run`: the pass over the loops of a function in preorder,
 * as a function of the state before it.  `InsertPreheaderForLoop` and
 * `CreateControlFlowHub` are LLVM utilities the model takes as given
 * functions; dominance is a given relation.
 */
module PassSpec {
  import opened Ir
  import opened LambdaizeSpec
  import opened ExitUnification

  /** What `run` reports to the pass manager. */
  datatype Preserved = PreservedAll | PreservedNone

  /**
   * What `InsertPreheaderForLoop` produces when it succeeds: the new blocks
   * and layouts, the new preheader, and the next free ids.
   */
  datatype Insertion = Insertion(blocks: map<BlockId, Block>, fns: seq<Fn>, preheader: BlockId,
                                 nextBlock: BlockId, nextValue: ValueId)

  /** The loop carries the `lambdaizeloop` metadata. */
  predicate Marked(lp: Loop)
  {
    LoopIdWellFormed(lp) && LoopContainsMetadata(lp, LambdaizeLoopMd)
  }

  /**
   * The state after a successful `InsertPreheaderForLoop`: the utility's
   * blocks, with the new preheader made a member of the parent loop and its
   * ancestors.
   */
  function WithPreheader(st: IrState, l: nat, ins: Insertion): (r: IrState)
    requires l < |st.loops|
    ensures |r.loops| == |st.loops|
  {
    var p := st.loops[l].parent;
    st.(blocks := ins.blocks, fns := ins.fns, nextBlock := ins.nextBlock, nextValue := ins.nextValue,
        loops := if p.Some? then AddGuards(st.loops, p.value, [ins.preheader]) else st.loops)
  }

  /** `extractLoopIntoFunction`: the extraction when `removeLoop`'s checks pass, nothing otherwise. */
  function ExtractedLoopInto(st: IrState, l: nat): (r: (IrState, bool))
    requires l < |st.loops|
    ensures |r.0.loops| == |st.loops|
    ensures r.1 <==> Preheader(st, l).Some? && Removable(st, l)
  {
    if Preheader(st, l).Some? && Removable(st, l) then (ExtractedLoop(st, l), true) else (st, false)
  }

  /** One iteration of the loop of `run`, on loop `l`, and whether it changed anything. */
  function Step(st: IrState, l: nat,
                insertPh: (IrState, nat) -> Option<Insertion>,
                hub: (IrState, seq<BlockId>, seq<BlockId>) -> Hub,
                dom: (ValueId, BlockId) -> bool): (r: (IrState, bool))
    requires l < |st.loops|
    ensures |r.0.loops| == |st.loops|
  {
    if !Marked(st.loops[l]) then (st, false)
    else
      var inserted := if Preheader(st, l).Some? then None else insertPh(st, l);
      var st1 := if inserted.Some? then WithPreheader(st, l, inserted.value) else st;
      var (st2, unified) := UnifiedLoopExits(st1, l, hub, dom);
      var (st3, extracted) := ExtractedLoopInto(st2, l);
      (st3, inserted.Some? || unified || extracted)
  }

  /** The loop of `run` over the first `n` loops in preorder, with the accumulated `Changed`. */
  function RunUpTo(st: IrState, n: nat,
                   insertPh: (IrState, nat) -> Option<Insertion>,
                   hub: (IrState, seq<BlockId>, seq<BlockId>) -> Hub,
                   dom: (ValueId, BlockId) -> bool): (r: (IrState, bool))
    requires n <= |st.loops|
    ensures |r.0.loops| == |st.loops|
  {
    if n == 0 then (st, false)
    else
      var (s, changed) := RunUpTo(st, n - 1, insertPh, hub, dom);
      var (s', changed') := Step(s, n - 1, insertPh, hub, dom);
      (s', changed || changed')
  }

  /** `run`: every loop in preorder, then none preserved if anything changed and all otherwise. */
  function Run(st: IrState,
               insertPh: (IrState, nat) -> Option<Insertion>,
               hub: (IrState, seq<BlockId>, seq<BlockId>) -> Hub,
               dom: (ValueId, BlockId) -> bool): (IrState, Preserved)
  {
    var (s, changed) := RunUpTo(st, |st.loops|, insertPh, hub, dom);
    (s, if changed then PreservedNone else PreservedAll)
  }

  /** A step that reports no change left the state as it was. */
  lemma StepUnchanged(st: IrState, l: nat,
                      insertPh: (IrState, nat) -> Option<Insertion>,
                      hub: (IrState, seq<BlockId>, seq<BlockId>) -> Hub,
                      dom: (ValueId, BlockId) -> bool)
    requires l < |st.loops|
    ensures !Step(st, l, insertPh, hub, dom).1 ==> Step(st, l, insertPh, hub, dom).0 == st
  {
    if Marked(st.loops[l]) {
      UnifyChangesIffManyExits(st, l, hub, dom);
    }
  }

  lemma {:induction false} RunUpToUnchanged(st: IrState, n: nat,
                                            insertPh: (IrState, nat) -> Option<Insertion>,
                                            hub: (IrState, seq<BlockId>, seq<BlockId>) -> Hub,
                                            dom: (ValueId, BlockId) -> bool)
    requires n <= |st.loops| && !RunUpTo(st, n, insertPh, hub, dom).1
    ensures RunUpTo(st, n, insertPh, hub, dom).0 == st
  {
    if n > 0 {
      var p := RunUpTo(st, n - 1, insertPh, hub, dom);
      var q := Step(p.0, n - 1, insertPh, hub, dom);
      assert RunUpTo(st, n, insertPh, hub, dom) == (q.0, p.1 || q.1);
      RunUpToUnchanged(st, n - 1, insertPh, hub, dom);
      StepUnchanged(p.0, n - 1, insertPh, hub, dom);
    }
  }

  /**
   * `run` reports every analysis preserved exactly when no step reported a
   * change, and then the IR is the one it was given.
   */
  lemma RunPreservedAllMeansUnchanged(st: IrState,
                                      insertPh: (IrState, nat) -> Option<Insertion>,
                                      hub: (IrState, seq<BlockId>, seq<BlockId>) -> Hub,
                                      dom: (ValueId, BlockId) -> bool)
    ensures var (r, preserved) := Run(st, insertPh, hub, dom);
      (preserved == PreservedAll <==> !RunUpTo(st, |st.loops|, insertPh, hub, dom).1) &&
      (preserved == PreservedAll ==> r == st)
  {
    if !RunUpTo(st, |st.loops|, insertPh, hub, dom).1 {
      RunUpToUnchanged(st, |st.loops|, insertPh, hub, dom);
    }
  }

  lemma {:induction false} RunUpToUnmarked(st: IrState, n: nat,
                                           insertPh: (IrState, nat) -> Option<Insertion>,
                                           hub: (IrState, seq<BlockId>, seq<BlockId>) -> Hub,
                                           dom: (ValueId, BlockId) -> bool)
    requires n <= |st.loops|
    requires forall i :: 0 <= i < |st.loops| ==> !Marked(st.loops[i])
    ensures RunUpTo(st, n, insertPh, hub, dom) == (st, false)
  {
    if n > 0 {
      RunUpToUnmarked(st, n - 1, insertPh, hub, dom);
    }
  }

  /** A function none of whose loops carries the metadata is left untouched, with every analysis preserved. */
  lemma RunLeavesUnmarkedAlone(st: IrState,
                               insertPh: (IrState, nat) -> Option<Insertion>,
                               hub: (IrState, seq<BlockId>, seq<BlockId>) -> Hub,
                               dom: (ValueId, BlockId) -> bool)
    requires forall i :: 0 <= i < |st.loops| ==> !Marked(st.loops[i])
    ensures Run(st, insertPh, hub, dom) == (st, PreservedAll)
  {
    RunUpToUnmarked(st, |st.loops|, insertPh, hub, dom);
  }

  /**
   * A marked loop that already has a preheader, and whose exit edges all
   * reach one block, in a well-formed nest gets neither a new preheader nor
   * a hub: the step is the extraction alone, which happens exactly when
   * `removeLoop`'s checks pass.
   */
  lemma StepOnSimpleLoop(st: IrState, l: nat,
                         insertPh: (IrState, nat) -> Option<Insertion>,
                         hub: (IrState, seq<BlockId>, seq<BlockId>) -> Hub,
                         dom: (ValueId, BlockId) -> bool)
    requires l < |st.loops| && Marked(st.loops[l]) && NestWellFormed(st.loops)
    requires Preheader(st, l).Some? && UniqueExitBlock(st, l).Some?
    ensures Step(st, l, insertPh, hub, dom) ==
      (if Removable(st, l) then (ExtractedLoop(st, l), true) else (st, false))
  {
    UnifyChangesIffManyExits(st, l, hub, dom);
  }

  /**
   * A marked loop with a preheader whose several exit edges all reach one
   * block is not unified (there is one exit block) and then refused by
   * `removeLoop` (`getExitBlock` finds nothing): the step changes nothing.
   */
  lemma StepOnSharedExit(st: IrState, l: nat,
                         insertPh: (IrState, nat) -> Option<Insertion>,
                         hub: (IrState, seq<BlockId>, seq<BlockId>) -> Hub,
                         dom: (ValueId, BlockId) -> bool)
    requires l < |st.loops| && Marked(st.loops[l]) && NestWellFormed(st.loops)
    requires Preheader(st, l).Some? && UniqueExitBlock(st, l).Some? && ExitBlock(st, l).None?
    ensures Step(st, l, insertPh, hub, dom) == (st, false)
  {
    StepOnSimpleLoop(st, l, insertPh, hub, dom);
  }
}
