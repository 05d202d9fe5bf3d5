/**
 * What the LambdaizeLoop pass does to the IR, as functions of the state
 * before each step, and the properties those steps have.  The methods of
 * `Lambdaize.HostIr` carry out the same steps in place and are proved equal
 * to these functions.
 */
module LambdaizeSpec {
  import opened Ir

  // ---- the metadata gate ------------------------------------------------

  /** The string a loop's `llvm.loop` node must carry for the pass to touch it. */
  const LambdaizeLoopMd := "lambdaizeloop"

  /** Every property node of the loop ID has the operand 0 the gate reads. */
  predicate LoopIdWellFormed(lp: Loop)
  {
    lp.loopId.Some? ==>
      |lp.loopId.value| > 0 &&
      forall i :: 1 <= i < |lp.loopId.value| ==> |lp.loopId.value[i].operands| > 0
  }

  /** `llvm::any_of`: some node of `props` has `str` as its operand 0. */
  predicate AnyNamed(props: seq<MdNode>, str: string)
    requires forall i :: 0 <= i < |props| ==> |props[i].operands| > 0
  {
    props != [] && (props[0].operands[0] == MdString(str) || AnyNamed(props[1..], str))
  }

  lemma {:induction false} AnyNamedIff(props: seq<MdNode>, str: string)
    requires forall i :: 0 <= i < |props| ==> |props[i].operands| > 0
    ensures AnyNamed(props, str) <==> exists i :: 0 <= i < |props| && props[i].operands[0] == MdString(str)
  {
    if props != [] {
      AnyNamedIff(props[1..], str);
      if exists i :: 0 <= i < |props| && props[i].operands[0] == MdString(str) {
        var i :| 0 <= i < |props| && props[i].operands[0] == MdString(str);
        if i > 0 {
          assert props[1..][i - 1] == props[i];
        }
      }
      if AnyNamed(props[1..], str) {
        var i :| 0 <= i < |props[1..]| && props[1..][i].operands[0] == MdString(str);
        assert props[i + 1] == props[1..][i];
      }
    }
  }

  /**
   * `LoopContainsMetadata`: the loop has an ID, and one of its operands after
   * the self-reference is a node whose operand 0 is the string `str`.
   */
  function LoopContainsMetadata(lp: Loop, str: string): (r: bool)
    requires LoopIdWellFormed(lp)
    ensures r <==>
      lp.loopId.Some? &&
      exists i :: 1 <= i < |lp.loopId.value| && lp.loopId.value[i].operands[0] == MdString(str)
  {
    match lp.loopId
    case None => false
    case Some(ops) =>
      var props := ops[1..];
      AnyNamedIff(props, str);
      assert forall i :: 1 <= i < |ops| ==> ops[i] == props[i - 1];
      AnyNamed(props, str)
  }

  // ---- removeLoop -------------------------------------------------------

  predicate BranchOrSwitch(t: Terminator)
  {
    t.kind == Br || t.kind == Switch
  }

  /**
   * The two checks `removeLoop` makes before it edits anything: `getExitBlock`
   * finds a block (exactly one edge leaves the loop), and every loop block
   * ends in a branch or a switch.
   */
  predicate Removable(st: IrState, l: nat)
    requires l < |st.loops|
  {
    ExitBlock(st, l).Some? &&
    forall b :: b in st.loops[l].blocks ==> BranchOrSwitch(BlockAt(st, b).term)
  }

  /** A loop with an exit block has at least one block, so it has a header. */
  lemma RemovableHasHeader(st: IrState, l: nat)
    requires l < |st.loops| && Removable(st, l)
    ensures |st.loops[l].blocks| > 0
  {
    var body := st.loops[l].blocks;
    var t := ExitTargets(st, body, body);
    assert t[0] in t;
  }

  /** `Loop::getHeader` of a loop that passed the checks. */
  function RemovableHeader(st: IrState, l: nat): (h: BlockId)
    requires l < |st.loops| && Removable(st, l)
    ensures h in st.loops[l].blocks
  {
    RemovableHasHeader(st, l);
    st.loops[l].blocks[0]
  }

  /** A block holding only `ret i1 v`. */
  function RetBlock(id: ValueId, v: int): Block
  {
    Block([], Terminator(id, Ret, [], [Constant(v)]))
  }

  function BlockIn(m: map<BlockId, Block>, b: BlockId): Block
  {
    if b in m then m[b] else NoBlock
  }

  /** `getTerminator()->setSuccessor(0, x)`; a terminator without successors is left alone. */
  function WithFirstSuccessor(blk: Block, x: BlockId): Block
  {
    if |blk.term.succs| > 0 then blk.(term := blk.term.(succs := blk.term.succs[0 := x])) else blk
  }

  /** The two `replaceSuccessorWith` calls on a loop block's terminator. */
  function Redirected(blk: Block, header: BlockId, cont: BlockId, exit: BlockId, brk: BlockId): Block
  {
    blk.(term := blk.term.(succs := ReplaceAll(ReplaceAll(blk.term.succs, header, cont), exit, brk)))
  }

  /** `Redirected` applied to the blocks `bs`, one after the other. */
  function RedirectAll(m: map<BlockId, Block>, bs: seq<BlockId>,
                       header: BlockId, cont: BlockId, exit: BlockId, brk: BlockId): map<BlockId, Block>
    decreases |bs|
  {
    if bs == [] then m
    else
      var m' := RedirectAll(m, bs[..|bs| - 1], header, cont, exit, brk);
      var b := bs[|bs| - 1];
      m'[b := Redirected(BlockIn(m', b), header, cont, exit, brk)]
  }

  /** `BasicBlock::removeFromParent` of block `b`: it leaves the layout it is in. */
  function LayoutWithout(fns: seq<Fn>, b: BlockId): (r: seq<Fn>)
    ensures |r| == |fns|
  {
    seq(|fns|, k requires 0 <= k < |fns| => fns[k].(layout := RemoveAll(fns[k].layout, b)))
  }

  /** `BasicBlock::removeFromParent` for each block of `bs`. */
  function LayoutsWithout(fns: seq<Fn>, bs: seq<BlockId>): (r: seq<Fn>)
    ensures |r| == |fns|
    decreases |bs|
  {
    if bs == [] then fns else LayoutWithout(LayoutsWithout(fns, bs[..|bs| - 1]), bs[|bs| - 1])
  }

  /** `removeBlockFromLoop(b)` on loop `j` and then on each of its ancestors. */
  function RemoveFromChain(loops: seq<Loop>, j: nat, b: BlockId): (r: seq<Loop>)
    ensures |r| == |loops|
    decreases j
  {
    if j >= |loops| then loops
    else
      var loops' := loops[j := loops[j].(blocks := RemoveAll(loops[j].blocks, b))];
      var p := loops[j].parent;
      if p.Some? && p.value < j then RemoveFromChain(loops', p.value, b) else loops'
  }

  /** `RemoveFromChain` for each block of `bs`. */
  function LoopsWithout(loops: seq<Loop>, l: nat, bs: seq<BlockId>): (r: seq<Loop>)
    ensures |r| == |loops|
    decreases |bs|
  {
    if bs == [] then loops
    else RemoveFromChain(LoopsWithout(loops, l, bs[..|bs| - 1]), l, bs[|bs| - 1])
  }

  /** The id of the block `removeLoop` creates to return true (`LoopContinue`). */
  function ContinueBlock(st: IrState): BlockId
  {
    st.nextBlock
  }

  /** The id of the block `removeLoop` creates to return false (`LoopBreak`). */
  function BreakBlock(st: IrState): BlockId
  {
    st.nextBlock + 1
  }

  /** The blocks after the first edits of `removeLoop`: the two new blocks, and the preheader sent to the exit. */
  function PreparedBlocks(st: IrState, l: nat): map<BlockId, Block>
    requires l < |st.loops| && Removable(st, l) && Preheader(st, l).Some?
  {
    PreparedAt(st, Preheader(st, l).value, ExitBlock(st, l).value)
  }

  /** The same edits for the preheader `ph` and the exit block `exit`. */
  function PreparedAt(st: IrState, ph: BlockId, exit: BlockId): map<BlockId, Block>
  {
    var m := st.blocks[ContinueBlock(st) := RetBlock(st.nextValue, 1)][BreakBlock(st) := RetBlock(st.nextValue + 1, 0)];
    m[ph := WithFirstSuccessor(BlockIn(m, ph), exit)]
  }

  lemma PreparedBlocksAt(st: IrState, l: nat)
    requires Valid(st) && l < |st.loops| && Removable(st, l) && Preheader(st, l).Some?
    ensures var m, ph := PreparedBlocks(st, l), Preheader(st, l).value;
      BlockIn(m, ContinueBlock(st)) == RetBlock(st.nextValue, 1) &&
      BlockIn(m, BreakBlock(st)) == RetBlock(st.nextValue + 1, 0) &&
      BlockIn(m, ph) == WithFirstSuccessor(BlockAt(st, ph), ExitBlock(st, l).value) &&
      forall b :: b in st.loops[l].blocks ==> BlockIn(m, b) == BlockAt(st, b)
  {
    RemovableIdsBelow(st, l);
  }

  /**
   * The state after a successful `removeLoop`: two new blocks returning true
   * and false, the preheader sent to the exit, every back edge and exit edge
   * of the loop sent to the new blocks, and the loop blocks taken out of their
   * function and out of the loop and its ancestors.
   */
  function RemovedLoop(st: IrState, l: nat): (r: IrState)
    requires l < |st.loops| && Removable(st, l) && Preheader(st, l).Some?
  {
    var body := st.loops[l].blocks;
    var header := RemovableHeader(st, l);
    var exit := ExitBlock(st, l).value;
    var ph := Preheader(st, l).value;
    var cont, brk := ContinueBlock(st), BreakBlock(st);
    st.(blocks := RedirectAll(PreparedBlocks(st, l), body, header, cont, exit, brk),
        fns := LayoutsWithout(st.fns, body),
        loops := LoopsWithout(st.loops, l, body),
        nextBlock := st.nextBlock + 2,
        nextValue := st.nextValue + 2)
  }

  /** What `removeLoop` writes to its output: the loop blocks, then `LoopContinue`, then `LoopBreak`. */
  function RemovedBlocks(st: IrState, l: nat): seq<BlockId>
    requires l < |st.loops|
  {
    st.loops[l].blocks + [ContinueBlock(st), BreakBlock(st)]
  }

  lemma {:induction false} RedirectAllOutside(m: map<BlockId, Block>, bs: seq<BlockId>,
                                              header: BlockId, cont: BlockId, exit: BlockId, brk: BlockId, b: BlockId)
    requires b !in bs
    ensures BlockIn(RedirectAll(m, bs, header, cont, exit, brk), b) == BlockIn(m, b)
    decreases |bs|
  {
    if bs != [] {
      assert b !in bs[..|bs| - 1];
      RedirectAllOutside(m, bs[..|bs| - 1], header, cont, exit, brk, b);
    }
  }

  lemma {:induction false} RedirectAllInside(m: map<BlockId, Block>, bs: seq<BlockId>,
                                             header: BlockId, cont: BlockId, exit: BlockId, brk: BlockId, b: BlockId)
    requires b in bs && NoDuplicates(bs)
    ensures BlockIn(RedirectAll(m, bs, header, cont, exit, brk), b) ==
            Redirected(BlockIn(m, b), header, cont, exit, brk)
    decreases |bs|
  {
    var init := bs[..|bs| - 1];
    if b == bs[|bs| - 1] {
      assert b !in init;
      RedirectAllOutside(m, init, header, cont, exit, brk, b);
    } else {
      assert b in init;
      RedirectAllInside(m, init, header, cont, exit, brk, b);
    }
  }

  /** Both replacements leave no edge to the header or the exit when the new blocks are distinct from both. */
  lemma ReplaceBothAvoids(s: seq<BlockId>, header: BlockId, cont: BlockId, exit: BlockId, brk: BlockId)
    requires header != exit && cont != header && cont != exit && brk != header && brk != exit
    ensures var r := ReplaceAll(ReplaceAll(s, header, cont), exit, brk);
      header !in r && exit !in r &&
      |r| == |s| &&
      forall i :: 0 <= i < |s| ==>
        r[i] == (if s[i] == header then cont else if s[i] == exit then brk else s[i])
  {
    var r := ReplaceAll(ReplaceAll(s, header, cont), exit, brk);
    forall x | x in r ensures x != header && x != exit {
      var i :| 0 <= i < |r| && r[i] == x;
    }
  }

  /** The blocks `removeLoop` reads all lie below the fresh ids it hands out. */
  lemma RemovableIdsBelow(st: IrState, l: nat)
    requires Valid(st) && l < |st.loops| && Removable(st, l) && Preheader(st, l).Some?
    ensures RemovableHeader(st, l) != ExitBlock(st, l).value
    ensures RemovableHeader(st, l) < st.nextBlock && ExitBlock(st, l).value < st.nextBlock
    ensures Preheader(st, l).value < st.nextBlock
    ensures forall b :: b in st.loops[l].blocks ==> b < st.nextBlock
  {
    var body := st.loops[l].blocks;
    var exit := ExitBlock(st, l).value;
    ExitBlockIsTheOnlyExit(st, l, exit);
    var b0 :| b0 in body && exit in Succs(st, b0) && exit !in body;
    assert b0 in st.blocks;
    assert exit in st.blocks;
    var ph := Preheader(st, l).value;
    var h := st.loops[l].blocks[0];
    assert ph in OutsidePreds(st, body, h, Placed(st.fns));
  }

  /** The edges of one loop block after the redirection. */
  lemma RedirectedEdges(m: map<BlockId, Block>, body: seq<BlockId>, b: BlockId, old_: Block,
                        header: BlockId, cont: BlockId, exit: BlockId, brk: BlockId)
    requires b in body && NoDuplicates(body) && BlockIn(m, b) == old_
    requires header != exit && cont != header && cont != exit && brk != header && brk != exit
    ensures var s, r := old_.term.succs, BlockIn(RedirectAll(m, body, header, cont, exit, brk), b).term.succs;
      header !in r && exit !in r && |r| == |s| &&
      forall i :: 0 <= i < |s| ==>
        r[i] == (if s[i] == header then cont else if s[i] == exit then brk else s[i])
  {
    RedirectAllInside(m, body, header, cont, exit, brk, b);
    ReplaceBothAvoids(old_.term.succs, header, cont, exit, brk);
  }

  /**
   * After a successful `removeLoop`, the preheader's only successor is the
   * original exit, the new blocks return true and false, and every edge of a
   * loop block that went to the header now goes to `LoopContinue` and every
   * edge that went to the exit now goes to `LoopBreak`; no loop block keeps
   * an edge to either.
   */
  lemma RemovedLoopNewBlocks(st: IrState, l: nat)
    requires Valid(st) && l < |st.loops| && Removable(st, l) && Preheader(st, l).Some?
    ensures var r := RemovedLoop(st, l);
      Succs(r, Preheader(st, l).value) == [ExitBlock(st, l).value] &&
      BlockAt(r, ContinueBlock(st)) == RetBlock(st.nextValue, 1) &&
      BlockAt(r, BreakBlock(st)) == RetBlock(st.nextValue + 1, 0)
  {
    var body := st.loops[l].blocks;
    var header, exit := RemovableHeader(st, l), ExitBlock(st, l).value;
    var ph := Preheader(st, l).value;
    var cont, brk := ContinueBlock(st), BreakBlock(st);
    var m2 := PreparedBlocks(st, l);
    PreparedBlocksAt(st, l);
    assert RemovedLoop(st, l).blocks == RedirectAll(m2, body, header, cont, exit, brk);
    RemovableIdsBelow(st, l);
    RedirectAllOutside(m2, body, header, cont, exit, brk, ph);
    RedirectAllOutside(m2, body, header, cont, exit, brk, cont);
    RedirectAllOutside(m2, body, header, cont, exit, brk, brk);
  }

  lemma RemovedLoopEdges(st: IrState, l: nat)
    requires Valid(st) && l < |st.loops| && Removable(st, l) && Preheader(st, l).Some?
    requires NoDuplicates(st.loops[l].blocks)
    ensures var r := RemovedLoop(st, l);
      var body := st.loops[l].blocks;
      var header, exit := RemovableHeader(st, l), ExitBlock(st, l).value;
      var cont, brk := ContinueBlock(st), BreakBlock(st);
      Succs(r, Preheader(st, l).value) == [exit] &&
      BlockAt(r, cont) == RetBlock(st.nextValue, 1) &&
      BlockAt(r, brk) == RetBlock(st.nextValue + 1, 0) &&
      forall b :: b in body ==>
        header !in Succs(r, b) && exit !in Succs(r, b) &&
        |Succs(r, b)| == |Succs(st, b)| &&
        forall i :: 0 <= i < |Succs(st, b)| ==>
          Succs(r, b)[i] == (if Succs(st, b)[i] == header then cont
                             else if Succs(st, b)[i] == exit then brk
                             else Succs(st, b)[i])
  {
    RemovableIdsBelow(st, l);
    PreparedBlocksAt(st, l);
    RemovedLoopNewBlocks(st, l);
    RemovedBodyEdges(st, l);
  }

  /** The edges of the loop blocks after `removeLoop`, given the facts `RemovableIdsBelow` and `PreparedBlocksAt` derive. */
  lemma RemovedBodyEdges(st: IrState, l: nat)
    requires l < |st.loops| && Removable(st, l) && Preheader(st, l).Some?
    requires NoDuplicates(st.loops[l].blocks)
    requires RemovableHeader(st, l) != ExitBlock(st, l).value
    requires RemovableHeader(st, l) < st.nextBlock && ExitBlock(st, l).value < st.nextBlock
    requires forall b :: b in st.loops[l].blocks ==> BlockIn(PreparedBlocks(st, l), b) == BlockAt(st, b)
    ensures var r := RemovedLoop(st, l);
      var header, exit := RemovableHeader(st, l), ExitBlock(st, l).value;
      var cont, brk := ContinueBlock(st), BreakBlock(st);
      forall b :: b in st.loops[l].blocks ==>
        header !in Succs(r, b) && exit !in Succs(r, b) &&
        |Succs(r, b)| == |Succs(st, b)| &&
        forall i :: 0 <= i < |Succs(st, b)| ==>
          Succs(r, b)[i] == (if Succs(st, b)[i] == header then cont
                             else if Succs(st, b)[i] == exit then brk
                             else Succs(st, b)[i])
  {
    var body := st.loops[l].blocks;
    var header, exit := RemovableHeader(st, l), ExitBlock(st, l).value;
    var cont, brk := ContinueBlock(st), BreakBlock(st);
    var m2 := PreparedBlocks(st, l);
    var r := RemovedLoop(st, l);
    assert r.blocks == RedirectAll(m2, body, header, cont, exit, brk);
    forall b | b in body
      ensures header !in Succs(r, b) && exit !in Succs(r, b) &&
        |Succs(r, b)| == |Succs(st, b)| &&
        forall i :: 0 <= i < |Succs(st, b)| ==>
          Succs(r, b)[i] == (if Succs(st, b)[i] == header then cont
                             else if Succs(st, b)[i] == exit then brk
                             else Succs(st, b)[i])
    {
      RedirectedEdges(m2, body, b, BlockAt(st, b), header, cont, exit, brk);
    }
  }

  lemma EnclosesBelow(loops: seq<Loop>, i: nat, j: nat)
    requires Encloses(loops, i, j)
    ensures i <= j
    decreases j
  {
    if j != i {
      EnclosesBelow(loops, i, loops[j].parent.value);
    }
  }

  /** `Encloses` only follows parent links. */
  lemma {:induction false} EnclosesSameParents(loops: seq<Loop>, loops': seq<Loop>, i: nat, j: nat)
    requires |loops| == |loops'|
    requires forall k :: 0 <= k < |loops| ==> loops'[k].parent == loops[k].parent
    ensures Encloses(loops, i, j) <==> Encloses(loops', i, j)
    decreases j
  {
    if j != i && j < |loops| && loops[j].parent.Some? && loops[j].parent.value < j {
      EnclosesSameParents(loops, loops', i, loops[j].parent.value);
    }
  }

  /** `removeBlockFromLoop` reaches exactly `j` and its ancestors. */
  lemma {:induction false} RemoveFromChainEffect(loops: seq<Loop>, j: nat, b: BlockId)
    requires j < |loops|
    ensures var r := RemoveFromChain(loops, j, b);
      forall i :: 0 <= i < |loops| ==>
        r[i] == (if Encloses(loops, i, j) then loops[i].(blocks := RemoveAll(loops[i].blocks, b)) else loops[i])
    decreases j
  {
    var loops' := loops[j := loops[j].(blocks := RemoveAll(loops[j].blocks, b))];
    var p := loops[j].parent;
    if p.Some? && p.value < j {
      RemoveFromChainEffect(loops', p.value, b);
      forall i | 0 <= i < |loops| ensures Encloses(loops', i, p.value) <==> Encloses(loops, i, p.value) {
        EnclosesSameParents(loops, loops', i, p.value);
      }
      if Encloses(loops, j, p.value) {
        EnclosesBelow(loops, j, p.value);
      }
    }
  }

  /**
   * After `removeLoop` takes the blocks `bs` out, a loop that is `l` or one
   * of its ancestors keeps exactly its other blocks, and every other loop is
   * untouched; no parent link changes.
   */
  lemma {:induction false} LoopsWithoutEffect(loops: seq<Loop>, l: nat, bs: seq<BlockId>)
    requires l < |loops|
    ensures var r := LoopsWithout(loops, l, bs);
      forall i :: 0 <= i < |loops| ==>
        r[i].parent == loops[i].parent && r[i].loopId == loops[i].loopId &&
        (Encloses(loops, i, l) ==> forall b :: b in r[i].blocks <==> b in loops[i].blocks && b !in bs) &&
        (!Encloses(loops, i, l) ==> r[i] == loops[i])
    decreases |bs|
  {
    if bs != [] {
      var init := bs[..|bs| - 1];
      var mid := LoopsWithout(loops, l, init);
      LoopsWithoutEffect(loops, l, init);
      RemoveFromChainEffect(mid, l, bs[|bs| - 1]);
      forall i | 0 <= i < |loops| ensures Encloses(mid, i, l) <==> Encloses(loops, i, l) {
        EnclosesSameParents(loops, mid, i, l);
      }
      assert forall x :: x in bs <==> x in init || x == bs[|bs| - 1];
    }
  }

  /** After `removeFromParent` on each block of `bs`, every function keeps exactly its other blocks. */
  lemma {:induction false} LayoutsWithoutEffect(fns: seq<Fn>, bs: seq<BlockId>)
    ensures var r := LayoutsWithout(fns, bs);
      forall k :: 0 <= k < |fns| ==>
        r[k].name == fns[k].name &&
        forall b :: b in r[k].layout <==> b in fns[k].layout && b !in bs
    decreases |bs|
  {
    if bs != [] {
      var init := bs[..|bs| - 1];
      LayoutsWithoutEffect(fns, init);
      assert forall x :: x in bs <==> x in init || x == bs[|bs| - 1];
    }
  }

  /**
   * After a successful `removeLoop`, no function holds a loop block, and the
   * loop and its ancestors no longer hold them while keeping their other
   * blocks; other loops are untouched.
   */
  lemma RemovedLoopDetaches(st: IrState, l: nat)
    requires l < |st.loops| && Removable(st, l) && Preheader(st, l).Some?
    ensures var r := RemovedLoop(st, l);
      var body := st.loops[l].blocks;
      (forall k, b :: 0 <= k < |st.fns| ==> (b in r.fns[k].layout <==> b in st.fns[k].layout && b !in body)) &&
      (forall i :: 0 <= i < |st.loops| ==>
        r.loops[i].parent == st.loops[i].parent &&
        (Encloses(st.loops, i, l) ==>
           forall b :: b in r.loops[i].blocks <==> b in st.loops[i].blocks && b !in body) &&
        (!Encloses(st.loops, i, l) ==> r.loops[i] == st.loops[i]))
  {
    LayoutsWithoutEffect(st.fns, st.loops[l].blocks);
    LoopsWithoutEffect(st.loops, l, st.loops[l].blocks);
  }

  // ---- setOutsideDefinedVariables ---------------------------------------

  /** A `std::set<Value *>` as it iterates: strictly increasing, ids standing for addresses. */
  predicate Increasing(s: seq<nat>)
  {
    forall i, j :: 0 <= i < j < |s| ==> s[i] < s[j]
  }

  /** `std::set::insert`. */
  function SetInsert(s: seq<nat>, x: nat): (r: seq<nat>)
    requires Increasing(s)
    ensures Increasing(r)
    ensures forall y :: y in r <==> y in s || y == x
    decreases |s|
  {
    if s == [] then [x]
    else
      IncreasingSplit(s);
      if x < s[0] then
        PrependIncreasing(x, s);
        [x] + s
      else if x == s[0] then s
      else
        var rest := SetInsert(s[1..], x);
        PrependIncreasing(s[0], rest);
        [s[0]] + rest
  }

  /** A non-empty increasing sequence is its first element, below all the others, before an increasing rest. */
  lemma IncreasingSplit(s: seq<nat>)
    requires Increasing(s) && s != []
    ensures Increasing(s[1..]) && s == [s[0]] + s[1..]
    ensures forall y :: y in s[1..] ==> s[0] < y
  {
    forall y | y in s[1..] ensures s[0] < y {
      var i :| 0 <= i < |s[1..]| && s[1..][i] == y;
      assert s[i + 1] == y;
    }
  }

  lemma PrependIncreasing(x: nat, s: seq<nat>)
    requires Increasing(s) && forall y :: y in s ==> x < y
    ensures Increasing([x] + s)
  {
    var r := [x] + s;
    forall i, j | 0 <= i < j < |r| ensures r[i] < r[j] {
      assert r[j] == s[j - 1];
      if i > 0 {
        assert r[i] == s[i - 1];
      } else {
        assert s[j - 1] in s;
      }
    }
  }

  /** Two strictly increasing sequences with the same elements are equal. */
  lemma {:induction false} IncreasingUnique(a: seq<nat>, b: seq<nat>)
    requires Increasing(a) && Increasing(b)
    requires forall x :: x in a <==> x in b
    ensures a == b
    decreases |a|
  {
    assert a != [] ==> a[0] in b;
    assert b != [] ==> b[0] in a;
    if a != [] && b != [] {
      var i :| 0 <= i < |b| && b[i] == a[0];
      var k :| 0 <= k < |a| && a[k] == b[0];
      assert b[0] <= b[i] && a[0] <= a[k];
      assert a == [a[0]] + a[1..] && b == [b[0]] + b[1..];
      forall x ensures x in a[1..] <==> x in b[1..] {
        if x in a[1..] {
          var i :| 1 <= i < |a| && a[i] == x;
          assert a[0] < x && x in b;
        }
        if x in b[1..] {
          var i :| 1 <= i < |b| && b[i] == x;
          assert b[0] < x && x in a;
        }
      }
      IncreasingUnique(a[1..], b[1..]);
    }
  }

  /** The operands `setOutsideDefinedVariables` collects: no label, global value or constant. */
  predicate Capturable(op: Operand)
  {
    !op.Label? && !IsGlobalValue(op) && !IsConstant(op)
  }

  /** The values the capturable operands among `ops` denote. */
  function OperandValues(ops: seq<Operand>): set<ValueId>
  {
    set op | op in ops && Capturable(op) :: op.id
  }

  function InstIds(insts: seq<Inst>): set<ValueId>
  {
    set i | 0 <= i < |insts| :: insts[i].id
  }

  /** The instructions of a block, its terminator included. */
  function BlockDefs(blk: Block): set<ValueId>
  {
    InstIds(blk.insts) + {blk.term.id}
  }

  function BlockUses(blk: Block): set<ValueId>
  {
    OperandValues(OperandsOf(blk))
  }

  /** Every instruction of the blocks `bs`: the set `Declared`. */
  function DefinedIn(m: map<BlockId, Block>, bs: seq<BlockId>): set<ValueId>
    decreases |bs|
  {
    if bs == [] then {} else DefinedIn(m, bs[..|bs| - 1]) + BlockDefs(BlockIn(m, bs[|bs| - 1]))
  }

  /** Every capturable operand of the blocks `bs`: the set `Arguments`. */
  function UsedIn(m: map<BlockId, Block>, bs: seq<BlockId>): set<ValueId>
    decreases |bs|
  {
    if bs == [] then {} else UsedIn(m, bs[..|bs| - 1]) + BlockUses(BlockIn(m, bs[|bs| - 1]))
  }

  /** The least element of a non-empty set of ids. */
  function Least(s: set<nat>): (x: nat)
    requires s != {}
    ensures x in s && forall y :: y in s ==> x <= y
  {
    var y :| y in s;
    LeastFrom(s, y)
  }

  function LeastFrom(s: set<nat>, y: nat): (x: nat)
    requires y in s
    ensures x in s && x <= y && forall z :: z in s ==> x <= z
    decreases y
  {
    if exists z :: z in s && z < y then
      var z :| z in s && z < y;
      LeastFrom(s, z)
    else y
  }

  /** The elements of `s` in increasing order: how `std::set` iterates them. */
  function SortedElements(s: set<nat>): (r: seq<nat>)
    ensures Increasing(r)
    ensures forall x :: x in r <==> x in s
    decreases |s|
  {
    if s == {} then []
    else
      var x := Least(s);
      var rest := SortedElements(s - {x});
      [x] + rest
  }

  /** The values the extracted function must be given: used in the blocks and not defined there. */
  function Captures(m: map<BlockId, Block>, bs: seq<BlockId>): seq<ValueId>
  {
    SortedElements(UsedIn(m, bs) - DefinedIn(m, bs))
  }

  // ---- createExtracted and extractLoopIntoFunction ----------------------

  /** `ArgAddrMap` after its loop: capture `cs[k]` maps to the id `base + k` of the k-th va_arg. */
  function ArgAddrMap(cs: seq<ValueId>, base: ValueId): map<ValueId, ValueId>
    decreases |cs|
  {
    if cs == [] then map[] else ArgAddrMap(cs[..|cs| - 1], base)[cs[|cs| - 1] := base + |cs| - 1]
  }

  /** With distinct captures, the map sends exactly the captures, each to its own va_arg. */
  lemma {:induction false} ArgAddrMapOrder(cs: seq<ValueId>, base: ValueId)
    requires NoDuplicates(cs)
    ensures forall x :: x in ArgAddrMap(cs, base) <==> x in cs
    ensures forall k :: 0 <= k < |cs| ==> ArgAddrMap(cs, base)[cs[k]] == base + k
    decreases |cs|
  {
    if cs != [] {
      var init := cs[..|cs| - 1];
      ArgAddrMapOrder(init, base);
      assert forall x :: x in cs <==> x in init || x == cs[|cs| - 1];
      forall k | 0 <= k < |cs| - 1 ensures cs[k] != cs[|cs| - 1] && cs[k] == init[k] {
      }
    }
  }

  /** `Op = ArgAddrMap[Op]` when the operand is a key of the map; unchanged otherwise. */
  function Rewritten(op: Operand, amap: map<ValueId, ValueId>): Operand
  {
    if op.Local? && op.id in amap then Local(amap[op.id]) else op
  }

  function RewriteOps(ops: seq<Operand>, amap: map<ValueId, ValueId>): seq<Operand>
  {
    seq(|ops|, i requires 0 <= i < |ops| => Rewritten(ops[i], amap))
  }

  function RewriteInst(inst: Inst, amap: map<ValueId, ValueId>): Inst
  {
    inst.(operands := RewriteOps(inst.operands, amap))
  }

  function RewriteInsts(insts: seq<Inst>, amap: map<ValueId, ValueId>): seq<Inst>
  {
    seq(|insts|, i requires 0 <= i < |insts| => RewriteInst(insts[i], amap))
  }

  /** Every operand of every instruction of the block, terminator included, passed through the map. */
  function RewriteBlock(blk: Block, amap: map<ValueId, ValueId>): Block
  {
    Block(RewriteInsts(blk.insts, amap), blk.term.(operands := RewriteOps(blk.term.operands, amap)))
  }

  lemma RewriteOpsAppend(a: seq<Operand>, b: seq<Operand>, amap: map<ValueId, ValueId>)
    ensures RewriteOps(a + b, amap) == RewriteOps(a, amap) + RewriteOps(b, amap)
  {
  }

  lemma {:induction false} RewriteInstOperands(insts: seq<Inst>, amap: map<ValueId, ValueId>)
    ensures InstOperands(RewriteInsts(insts, amap)) == RewriteOps(InstOperands(insts), amap)
    decreases |insts|
  {
    if insts != [] {
      var n := |insts| - 1;
      var init := insts[..n];
      assert RewriteInsts(insts, amap)[..n] == RewriteInsts(init, amap);
      RewriteInstOperands(init, amap);
      RewriteOpsAppend(InstOperands(init), insts[n].operands, amap);
    }
  }

  /** The operands a rewritten block reads are its old operands, each passed through the map. */
  lemma RewriteBlockOperands(blk: Block, amap: map<ValueId, ValueId>)
    ensures OperandsOf(RewriteBlock(blk, amap)) == RewriteOps(OperandsOf(blk), amap)
  {
    RewriteInstOperands(blk.insts, amap);
    RewriteOpsAppend(InstOperands(blk.insts), blk.term.operands, amap);
  }

  /** When no value the map produces is itself a key, a rewritten block reads no key of the map. */
  lemma RewriteRemovesKeys(blk: Block, amap: map<ValueId, ValueId>)
    requires forall x :: x in amap ==> amap[x] !in amap
    ensures forall op :: op in OperandsOf(RewriteBlock(blk, amap)) && op.Local? ==> op.id !in amap
  {
    RewriteBlockOperands(blk, amap);
    var ops := OperandsOf(blk);
    forall op | op in RewriteOps(ops, amap) && op.Local? ensures op.id !in amap {
      var i :| 0 <= i < |ops| && RewriteOps(ops, amap)[i] == op;
      assert op == Rewritten(ops[i], amap);
    }
  }

  /** `RewriteBlock` on the blocks `bs`, one after the other. */
  function RewriteAll(m: map<BlockId, Block>, bs: seq<BlockId>, amap: map<ValueId, ValueId>): map<BlockId, Block>
    decreases |bs|
  {
    if bs == [] then m
    else
      var m' := RewriteAll(m, bs[..|bs| - 1], amap);
      m'[bs[|bs| - 1] := RewriteBlock(BlockIn(m', bs[|bs| - 1]), amap)]
  }

  /** The va_args of the entry block, in capture order, each reading the va_list argument. */
  function VaArgs(n: nat, base: ValueId, arg: ValueId): seq<Inst>
  {
    seq(n, (k: nat) => Inst(base + k, VaArg, [Local(arg)]))
  }

  /** The builder's `CreateBr` at the end of the entry block. */
  function EntryBlock(n: nat, base: ValueId, arg: ValueId, first: BlockId): Block
  {
    Block(VaArgs(n, base, arg), Terminator(base + n, Br, [first], []))
  }

  /** The state after `removeLoop` succeeded inside `createExtracted`. */
  function AfterRemoval(st: IrState, l: nat): IrState
    requires l < |st.loops| && Removable(st, l) && Preheader(st, l).Some?
  {
    RemovedLoop(st, l)
  }

  /** The values `createExtracted` hands back: the captures of the removed blocks. */
  function ExtractedCaptures(st: IrState, l: nat): seq<ValueId>
    requires l < |st.loops| && Removable(st, l) && Preheader(st, l).Some?
  {
    Captures(AfterRemoval(st, l).blocks, RemovedBlocks(st, l))
  }

  /**
   * The state after a successful `createExtracted`: a new function
   * `extracted` (index `|st.fns|`) whose va_list argument has the next value
   * id, whose entry block reads every capture with a va_arg and branches to
   * the first removed block, and which holds the removed blocks after it
   * with every use of a capture replaced by its va_arg.
   */
  function ExtractedState(st: IrState, l: nat): IrState
    requires l < |st.loops| && Removable(st, l) && Preheader(st, l).Some?
  {
    var st1 := AfterRemoval(st, l);
    var moved := RemovedBlocks(st, l);
    var cs := ExtractedCaptures(st, l);
    var entry := st1.nextBlock;
    var arg := st1.nextValue;
    var base := arg + 1;
    st1.(blocks := RewriteAll(st1.blocks[entry := EntryBlock(|cs|, base, arg, moved[0])], moved, ArgAddrMap(cs, base)),
         fns := st1.fns + [Fn("extracted", [entry] + moved)],
         nextBlock := entry + 1,
         nextValue := base + |cs| + 1)
  }

  /** The call `looper(extracted, captures...)`. */
  function LooperCall(id: ValueId, f: nat, cs: seq<ValueId>): Inst
  {
    Inst(id, Call("looper"), [Function(f)] + seq(|cs|, k requires 0 <= k < |cs| => Local(cs[k])))
  }

  /**
   * The state after a successful `extractLoopIntoFunction`: the loop's
   * preheader ends with the call to `looper` just before its terminator.
   */
  function ExtractedLoop(st: IrState, l: nat): IrState
    requires l < |st.loops| && Removable(st, l) && Preheader(st, l).Some?
  {
    var st2 := ExtractedState(st, l);
    var ph := Preheader(st, l).value;
    var blk := BlockIn(st2.blocks, ph);
    var call := LooperCall(st2.nextValue, |st.fns|, ExtractedCaptures(st, l));
    st2.(blocks := st2.blocks[ph := blk.(insts := blk.insts + [call])],
         nextValue := st2.nextValue + 1)
  }

  lemma {:induction false} RewriteAllOutside(m: map<BlockId, Block>, bs: seq<BlockId>, amap: map<ValueId, ValueId>, b: BlockId)
    requires b !in bs
    ensures BlockIn(RewriteAll(m, bs, amap), b) == BlockIn(m, b)
    decreases |bs|
  {
    if bs != [] {
      assert b !in bs[..|bs| - 1];
      RewriteAllOutside(m, bs[..|bs| - 1], amap, b);
    }
  }

  lemma {:induction false} RewriteAllInside(m: map<BlockId, Block>, bs: seq<BlockId>, amap: map<ValueId, ValueId>, b: BlockId)
    requires b in bs && NoDuplicates(bs)
    ensures BlockIn(RewriteAll(m, bs, amap), b) == RewriteBlock(BlockIn(m, b), amap)
    decreases |bs|
  {
    var init := bs[..|bs| - 1];
    if b == bs[|bs| - 1] {
      assert b !in init;
      RewriteAllOutside(m, init, amap, b);
    } else {
      assert b in init;
      RewriteAllInside(m, init, amap, b);
    }
  }

  /**
   * Through the capture map, a use of capture `cs[k]` becomes a use of the
   * k-th va_arg, and every other operand is left as it is.
   */
  lemma RewrittenOperands(cs: seq<ValueId>, base: ValueId)
    requires Increasing(cs)
    ensures forall k :: 0 <= k < |cs| ==> Rewritten(Local(cs[k]), ArgAddrMap(cs, base)) == Local(base + k)
    ensures forall op: Operand :: !(op.Local? && op.id in cs) ==> Rewritten(op, ArgAddrMap(cs, base)) == op
  {
    ArgAddrMapOrder(cs, base);
  }

  /** The removed blocks are distinct and all lie below the next free block id. */
  lemma RemovedBlocksFresh(st: IrState, l: nat)
    requires Valid(st) && l < |st.loops| && Removable(st, l) && Preheader(st, l).Some?
    requires NoDuplicates(st.loops[l].blocks)
    ensures NoDuplicates(RemovedBlocks(st, l))
    ensures forall b :: b in RemovedBlocks(st, l) ==> b < AfterRemoval(st, l).nextBlock
    ensures Preheader(st, l).value !in RemovedBlocks(st, l)
    ensures RemovedBlocks(st, l)[0] == RemovableHeader(st, l)
  {
    RemovableIdsBelow(st, l);
    RemovedBlocksBelow(st, l);
  }

  /** `RemovedBlocksFresh` once the loop blocks and the preheader are known to be older than `st.nextBlock`. */
  lemma RemovedBlocksBelow(st: IrState, l: nat)
    requires l < |st.loops| && Removable(st, l) && Preheader(st, l).Some?
    requires NoDuplicates(st.loops[l].blocks)
    requires Preheader(st, l).value < st.nextBlock && forall b :: b in st.loops[l].blocks ==> b < st.nextBlock
    ensures NoDuplicates(RemovedBlocks(st, l))
    ensures forall b :: b in RemovedBlocks(st, l) ==> b < AfterRemoval(st, l).nextBlock
    ensures Preheader(st, l).value !in RemovedBlocks(st, l)
    ensures RemovedBlocks(st, l)[0] == RemovableHeader(st, l)
  {
    var nb := st.nextBlock;
    assert RemovedBlocks(st, l) == st.loops[l].blocks + [nb, nb + 1];
    assert AfterRemoval(st, l).nextBlock == nb + 2;
    FreshPairAppended(st.loops[l].blocks, nb, RemovedBlocks(st, l));
  }

  /** Distinct blocks below `nb`, followed by `nb` and `nb + 1`, are distinct and below `nb + 2`. */
  lemma FreshPairAppended(body: seq<BlockId>, nb: BlockId, moved: seq<BlockId>)
    requires NoDuplicates(body) && forall b :: b in body ==> b < nb
    requires moved == body + [nb, nb + 1]
    ensures NoDuplicates(moved)
    ensures forall b :: b in moved ==> b < nb + 2
  {
    forall i, j | 0 <= i < j < |moved| ensures moved[i] != moved[j] {
      if j < |body| {
        assert moved[i] == body[i] && moved[j] == body[j];
      } else if i < |body| {
        assert moved[i] in body;
      }
    }
  }

  /** `ExtractedShape` over the pieces of the state `createExtracted` builds. */
  lemma ExtractedBlocks(m0: map<BlockId, Block>, moved: seq<BlockId>, cs: seq<ValueId>,
                        entry: BlockId, arg: ValueId)
    requires NoDuplicates(moved) && |moved| > 0 && entry !in moved && Increasing(cs)
    ensures var amap := ArgAddrMap(cs, arg + 1);
      var r := RewriteAll(m0[entry := EntryBlock(|cs|, arg + 1, arg, moved[0])], moved, amap);
      BlockIn(r, entry).term.kind == Br &&
      BlockIn(r, entry).term.succs == [moved[0]] &&
      |BlockIn(r, entry).insts| == |cs| &&
      (forall k :: 0 <= k < |cs| ==>
         BlockIn(r, entry).insts[k].opcode == VaArg &&
         cs[k] in amap && BlockIn(r, entry).insts[k].id == amap[cs[k]]) &&
      (forall b :: b in moved ==> BlockIn(r, b) == RewriteBlock(BlockIn(m0, b), amap))
  {
    var amap := ArgAddrMap(cs, arg + 1);
    var m := m0[entry := EntryBlock(|cs|, arg + 1, arg, moved[0])];
    RewriteAllOutside(m, moved, amap, entry);
    ArgAddrMapOrder(cs, arg + 1);
    forall b | b in moved ensures BlockIn(RewriteAll(m, moved, amap), b) == RewriteBlock(BlockIn(m0, b), amap) {
      RewriteAllInside(m, moved, amap, b);
    }
  }

  /**
   * `createExtracted` gives the new function its entry block followed by the
   * removed blocks.  The entry block's k-th instruction is the va_arg that the
   * k-th capture maps to, and the block branches to the loop header.  Each
   * removed block is the same block with its operands passed through the
   * capture map.
   */
  lemma ExtractedShape(st: IrState, l: nat)
    requires Valid(st) && l < |st.loops| && Removable(st, l) && Preheader(st, l).Some?
    requires NoDuplicates(st.loops[l].blocks)
    ensures var r := ExtractedState(st, l);
      var st1 := AfterRemoval(st, l);
      var moved := RemovedBlocks(st, l);
      var cs := ExtractedCaptures(st, l);
      var entry := st1.nextBlock;
      var amap := ArgAddrMap(cs, st1.nextValue + 1);
      |r.fns| == |st.fns| + 1 &&
      r.fns[|st.fns|] == Fn("extracted", [entry] + moved) &&
      BlockAt(r, entry).term.kind == Br &&
      BlockAt(r, entry).term.succs == [RemovableHeader(st, l)] &&
      |BlockAt(r, entry).insts| == |cs| &&
      (forall k :: 0 <= k < |cs| ==>
         BlockAt(r, entry).insts[k].opcode == VaArg &&
         cs[k] in amap && BlockAt(r, entry).insts[k].id == amap[cs[k]]) &&
      (forall b :: b in moved ==> BlockAt(r, b) == RewriteBlock(BlockAt(st1, b), amap))
  {
    RemovedBlocksFresh(st, l);
    ExtractedFns(st, l);
    ExtractedEntryFresh(st, l);
    ExtractedMovedFresh(st, l);
  }

  /** The new function and its entry block, once the removed blocks are known to be distinct and older than the entry block. */
  lemma ExtractedEntryFresh(st: IrState, l: nat)
    requires l < |st.loops| && Removable(st, l) && Preheader(st, l).Some?
    requires NoDuplicates(RemovedBlocks(st, l))
    requires forall b :: b in RemovedBlocks(st, l) ==> b < AfterRemoval(st, l).nextBlock
    ensures var r := ExtractedState(st, l);
      var st1 := AfterRemoval(st, l);
      var moved := RemovedBlocks(st, l);
      var cs := ExtractedCaptures(st, l);
      var entry := st1.nextBlock;
      var amap := ArgAddrMap(cs, st1.nextValue + 1);
      BlockAt(r, entry).term.kind == Br &&
      BlockAt(r, entry).term.succs == [moved[0]] &&
      |BlockAt(r, entry).insts| == |cs| &&
      (forall k :: 0 <= k < |cs| ==>
         BlockAt(r, entry).insts[k].opcode == VaArg &&
         cs[k] in amap && BlockAt(r, entry).insts[k].id == amap[cs[k]])
  {
    var st1 := AfterRemoval(st, l);
    ExtractedBlocks(st1.blocks, RemovedBlocks(st, l), ExtractedCaptures(st, l), st1.nextBlock, st1.nextValue);
  }

  /** `createExtracted` appends the new function, holding the entry block and then the removed blocks. */
  lemma ExtractedFns(st: IrState, l: nat)
    requires l < |st.loops| && Removable(st, l) && Preheader(st, l).Some?
    ensures var r := ExtractedState(st, l);
      |r.fns| == |st.fns| + 1 &&
      r.fns[|st.fns|] == Fn("extracted", [AfterRemoval(st, l).nextBlock] + RemovedBlocks(st, l))
  {
    assert |AfterRemoval(st, l).fns| == |st.fns|;
  }

  /** The moved blocks of the new function, once they are known to be distinct and older than the entry block. */
  lemma ExtractedMovedFresh(st: IrState, l: nat)
    requires l < |st.loops| && Removable(st, l) && Preheader(st, l).Some?
    requires NoDuplicates(RemovedBlocks(st, l))
    requires forall b :: b in RemovedBlocks(st, l) ==> b < AfterRemoval(st, l).nextBlock
    ensures var st1 := AfterRemoval(st, l);
      var amap := ArgAddrMap(ExtractedCaptures(st, l), st1.nextValue + 1);
      forall b :: b in RemovedBlocks(st, l) ==> BlockAt(ExtractedState(st, l), b) == RewriteBlock(BlockAt(st1, b), amap)
  {
    var st1 := AfterRemoval(st, l);
    ExtractedBlocks(st1.blocks, RemovedBlocks(st, l), ExtractedCaptures(st, l), st1.nextBlock, st1.nextValue);
  }

  /** `createExtracted` leaves the preheader as `removeLoop` left it, branching to the exit. */
  lemma ExtractedKeepsPreheader(st: IrState, l: nat)
    requires Valid(st) && l < |st.loops| && Removable(st, l) && Preheader(st, l).Some?
    requires NoDuplicates(st.loops[l].blocks)
    ensures Succs(ExtractedState(st, l), Preheader(st, l).value) == [ExitBlock(st, l).value]
  {
    var st1 := AfterRemoval(st, l);
    var ph := Preheader(st, l).value;
    var moved := RemovedBlocks(st, l);
    var cs := ExtractedCaptures(st, l);
    var base := st1.nextValue + 1;
    var m := st1.blocks[st1.nextBlock := EntryBlock(|cs|, base, st1.nextValue, moved[0])];
    assert ExtractedState(st, l).blocks == RewriteAll(m, moved, ArgAddrMap(cs, base));
    RemovedBlocksFresh(st, l);
    RemovableIdsBelow(st, l);
    RemovedLoopNewBlocks(st, l);
    RewriteAllOutside(m, moved, ArgAddrMap(cs, base), ph);
  }

  /**
   * After a successful `extractLoopIntoFunction`, the preheader still sends
   * control straight to the original exit, and just before its terminator it
   * calls `looper` with the new function first and then the captures, in the
   * order the new function reads them.
   */
  lemma ExtractedLoopCall(st: IrState, l: nat)
    requires Valid(st) && l < |st.loops| && Removable(st, l) && Preheader(st, l).Some?
    requires NoDuplicates(st.loops[l].blocks)
    ensures var r := ExtractedLoop(st, l);
      var ph := Preheader(st, l).value;
      var before := BlockAt(ExtractedState(st, l), ph);
      var cs := ExtractedCaptures(st, l);
      var call := BlockAt(r, ph).insts[|BlockAt(r, ph).insts| - 1];
      Succs(r, ph) == [ExitBlock(st, l).value] &&
      |BlockAt(r, ph).insts| == |before.insts| + 1 &&
      BlockAt(r, ph).insts[..|before.insts|] == before.insts &&
      call.opcode == Call("looper") &&
      |call.operands| == |cs| + 1 &&
      call.operands[0] == Function(|st.fns|) &&
      r.fns[|st.fns|].name == "extracted" &&
      forall k :: 0 <= k < |cs| ==> call.operands[k + 1] == Local(cs[k])
  {
    ExtractedKeepsPreheader(st, l);
    var st2 := ExtractedState(st, l);
    var ph := Preheader(st, l).value;
    var cs := ExtractedCaptures(st, l);
    var blk := BlockIn(st2.blocks, ph);
    LooperCallShape(st2.nextValue, |st.fns|, cs);
    var nb := blk.(insts := blk.insts + [LooperCall(st2.nextValue, |st.fns|, cs)]);
    assert BlockAt(ExtractedLoop(st, l), ph) == nb;
    assert nb.insts[..|blk.insts|] == blk.insts;
    assert |AfterRemoval(st, l).fns| == |st.fns|;
  }

  /** The `looper` call names the function first and then reads every capture in order. */
  lemma LooperCallShape(id: ValueId, f: nat, cs: seq<ValueId>)
    ensures var c := LooperCall(id, f, cs);
      c.opcode == Call("looper") && |c.operands| == |cs| + 1 && c.operands[0] == Function(f) &&
      forall k :: 0 <= k < |cs| ==> c.operands[k + 1] == Local(cs[k])
  {
  }

  /** Every value the blocks `bs` use is read by a `Local` operand of one of them. */
  lemma {:induction false} UsedInSomeBlock(m: map<BlockId, Block>, bs: seq<BlockId>, v: ValueId)
    requires v in UsedIn(m, bs)
    ensures exists b :: b in bs && Local(v) in OperandsOf(BlockIn(m, b))
    decreases |bs|
  {
    var last := bs[|bs| - 1];
    if v in BlockUses(BlockIn(m, last)) {
      var op :| op in OperandsOf(BlockIn(m, last)) && Capturable(op) && op.id == v;
      assert op == Local(v);
      assert last in bs;
    } else {
      UsedInSomeBlock(m, bs[..|bs| - 1], v);
      var b :| b in bs[..|bs| - 1] && Local(v) in OperandsOf(BlockIn(m, b));
      assert b in bs;
    }
  }

  /** The redirection changes successors only. */
  lemma {:induction false} RedirectAllKeepsOperands(m: map<BlockId, Block>, bs: seq<BlockId>,
                                                    header: BlockId, cont: BlockId, exit: BlockId, brk: BlockId, b: BlockId)
    ensures OperandsOf(BlockIn(RedirectAll(m, bs, header, cont, exit, brk), b)) == OperandsOf(BlockIn(m, b))
    decreases |bs|
  {
    if bs != [] {
      RedirectAllKeepsOperands(m, bs[..|bs| - 1], header, cont, exit, brk, b);
    }
  }

  /** `RemovedBlocksReadOld` over the maps `removeLoop` builds. */
  lemma RedirectedReadsBelow(m2: map<BlockId, Block>, body: seq<BlockId>, header: BlockId, cont: BlockId,
                             exit: BlockId, brk: BlockId, n: ValueId, v: ValueId)
    requires forall b :: b in body ==> ValuesBelow(BlockIn(m2, b), n)
    requires OperandsOf(BlockIn(m2, cont)) == [Constant(1)] && OperandsOf(BlockIn(m2, brk)) == [Constant(0)]
    requires v in UsedIn(RedirectAll(m2, body, header, cont, exit, brk), body + [cont, brk])
    ensures v < n
  {
    var m3 := RedirectAll(m2, body, header, cont, exit, brk);
    UsedInSomeBlock(m3, body + [cont, brk], v);
    var b :| b in body + [cont, brk] && Local(v) in OperandsOf(BlockIn(m3, b));
    RedirectAllKeepsOperands(m2, body, header, cont, exit, brk, b);
    if b in body {
      assert ValuesBelow(BlockIn(m2, b), n);
    }
  }

  /** Every value the removed blocks read lies below the first id of the state before the removal. */
  lemma RemovedBlocksReadOld(st: IrState, l: nat, v: ValueId)
    requires Valid(st) && l < |st.loops| && Removable(st, l) && Preheader(st, l).Some?
    requires v in UsedIn(AfterRemoval(st, l).blocks, RemovedBlocks(st, l))
    ensures v < st.nextValue
  {
    var body := st.loops[l].blocks;
    var header, exit := RemovableHeader(st, l), ExitBlock(st, l).value;
    var cont, brk := ContinueBlock(st), BreakBlock(st);
    var ph := Preheader(st, l).value;
    var m2 := PreparedBlocks(st, l);
    PreparedBlocksAt(st, l);
    assert AfterRemoval(st, l).blocks == RedirectAll(m2, body, header, cont, exit, brk);
    RemovableIdsBelow(st, l);
    forall b | b in body ensures ValuesBelow(BlockIn(m2, b), st.nextValue) {
      assert b in st.blocks && BlockIn(m2, b) == st.blocks[b];
    }
    RedirectedReadsBelow(m2, body, header, cont, exit, brk, st.nextValue, v);
  }

  /**
   * No removed block of the new function reads a capture any more: every
   * such use was replaced by the capture's va_arg.
   */
  lemma ExtractedReadsNoCapture(st: IrState, l: nat)
    requires Valid(st) && l < |st.loops| && Removable(st, l) && Preheader(st, l).Some?
    requires NoDuplicates(st.loops[l].blocks)
    ensures var r := ExtractedState(st, l);
      forall b, op :: b in RemovedBlocks(st, l) && op in OperandsOf(BlockAt(r, b)) && op.Local? ==>
        op.id !in ExtractedCaptures(st, l)
  {
    var st1 := AfterRemoval(st, l);
    var cs := ExtractedCaptures(st, l);
    var base := st1.nextValue + 1;
    var amap := ArgAddrMap(cs, base);
    ExtractedShape(st, l);
    ArgAddrMapOrder(cs, base);
    forall k | 0 <= k < |cs| ensures cs[k] < base {
      assert cs[k] in cs;
      RemovedBlocksReadOld(st, l, cs[k]);
    }
    forall x | x in amap ensures amap[x] !in amap {
      var k :| 0 <= k < |cs| && cs[k] == x;
      assert amap[x] >= base;
    }
    forall b | b in RemovedBlocks(st, l) {
      RewriteRemovesKeys(BlockAt(st1, b), amap);
    }
  }
}
