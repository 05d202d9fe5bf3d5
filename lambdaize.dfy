/**
 * The LambdaizeLoop pass as it runs: `HostIr` holds the module's IR and the
 * host function's loop nest, and each member function of the pass is a
 * method that edits it in place, proved to leave the state that the
 * functions of `LambdaizeSpec`, `ExitUnification` and `PassSpec` describe.
 */
module Lambdaize {
  import opened Ir
  import opened LambdaizeSpec
  import opened ExitUnification
  import opened PassSpec

  // ---- setOutsideDefinedVariables ---------------------------------------

  lemma OperandValuesAppend(a: seq<Operand>, b: seq<Operand>)
    ensures OperandValues(a + b) == OperandValues(a) + OperandValues(b)
  {
    assert forall op :: op in a + b <==> op in a || op in b;
  }

  /** The operand loop of one instruction: `Arguments.insert` of each capturable operand. */
  method InsertOperands(args: seq<ValueId>, ops: seq<Operand>) returns (r: seq<ValueId>)
    requires Increasing(args)
    ensures Increasing(r)
    ensures forall x :: x in r <==> x in args || x in OperandValues(ops)
  {
    r := args;
    for i := 0 to |ops|
      invariant Increasing(r)
      invariant forall x :: x in r <==> x in args || x in OperandValues(ops[..i])
    {
      if Capturable(ops[i]) {
        r := SetInsert(r, ops[i].id);
      }
      assert ops[..i + 1] == ops[..i] + [ops[i]];
      OperandValuesAppend(ops[..i], [ops[i]]);
    }
    assert ops[..|ops|] == ops;
  }

  /** The instruction loop of one block, terminator included: `Declared.insert` and the operand loop. */
  method InsertBlock(declared: seq<ValueId>, args: seq<ValueId>, blk: Block) returns (d: seq<ValueId>, a: seq<ValueId>)
    requires Increasing(declared) && Increasing(args)
    ensures Increasing(d) && Increasing(a)
    ensures forall x :: x in d <==> x in declared || x in BlockDefs(blk)
    ensures forall x :: x in a <==> x in args || x in BlockUses(blk)
  {
    d, a := declared, args;
    var insts := blk.insts;
    for i := 0 to |insts|
      invariant Increasing(d) && Increasing(a)
      invariant forall x :: x in d <==> x in declared || x in InstIds(insts[..i])
      invariant forall x :: x in a <==> x in args || x in OperandValues(InstOperands(insts[..i]))
    {
      d := SetInsert(d, insts[i].id);
      a := InsertOperands(a, insts[i].operands);
      assert insts[..i + 1][..i] == insts[..i];
      OperandValuesAppend(InstOperands(insts[..i]), insts[i].operands);
      assert InstIds(insts[..i + 1]) == InstIds(insts[..i]) + {insts[i].id} by {
        forall x | x in InstIds(insts[..i + 1]) ensures x in InstIds(insts[..i]) + {insts[i].id} {
          var j :| 0 <= j < i + 1 && insts[..i + 1][j].id == x;
          if j < i {
            assert insts[..i][j] == insts[j];
          }
        }
        forall x | x in InstIds(insts[..i]) ensures x in InstIds(insts[..i + 1]) {
          var j :| 0 <= j < i && insts[..i][j].id == x;
          assert insts[..i + 1][j] == insts[j];
        }
        assert insts[..i + 1][i] == insts[i];
      }
    }
    d := SetInsert(d, blk.term.id);
    a := InsertOperands(a, blk.term.operands);
    assert insts[..|insts|] == insts;
    OperandValuesAppend(InstOperands(insts), blk.term.operands);
  }

  lemma IncreasingAppend(s: seq<ValueId>, x: ValueId)
    requires Increasing(s) && forall y :: y in s ==> y < x
    ensures Increasing(s + [x])
  {
    forall p, q | 0 <= p < q < |s| + 1 ensures (s + [x])[p] < (s + [x])[q] {
      if q == |s| {
        assert s[p] in s;
      }
    }
  }

  /** `std::set_difference` of two sets held in increasing order. */
  method SetDifference(a: seq<ValueId>, b: seq<ValueId>) returns (r: seq<ValueId>)
    requires Increasing(a) && Increasing(b)
    ensures Increasing(r)
    ensures forall x :: x in r <==> x in a && x !in b
  {
    r := [];
    for i := 0 to |a|
      invariant Increasing(r)
      invariant forall x :: x in r <==> x in a[..i] && x !in b
    {
      if a[i] !in b {
        forall x | x in r ensures x < a[i] {
          var j :| 0 <= j < i && a[..i][j] == x;
        }
        IncreasingAppend(r, a[i]);
        r := r + [a[i]];
      }
      assert a[..i + 1] == a[..i] + [a[i]];
    }
    assert a[..|a|] == a;
  }

  /**
   * `setOutsideDefinedVariables` over the blocks `bs`: the values used in
   * them and defined outside them, in the order of the `std::set`.
   */
  method SetOutsideDefinedVariables(m: map<BlockId, Block>, bs: seq<BlockId>) returns (r: seq<ValueId>)
    ensures r == Captures(m, bs)
  {
    var declared, args := [], [];
    for k := 0 to |bs|
      invariant Increasing(declared) && Increasing(args)
      invariant forall x :: x in declared <==> x in DefinedIn(m, bs[..k])
      invariant forall x :: x in args <==> x in UsedIn(m, bs[..k])
    {
      declared, args := InsertBlock(declared, args, BlockIn(m, bs[k]));
      assert bs[..k + 1][..k] == bs[..k];
    }
    assert bs[..|bs|] == bs;
    r := SetDifference(args, declared);
    IncreasingUnique(r, Captures(m, bs));
  }

  // ---- createExtracted ----------------------------------------------------

  /** The loops of `createExtracted` that fill the entry block: one va_arg per capture, recorded in `ArgAddrMap`. */
  method BuildEntry(cs: seq<ValueId>, base: ValueId, arg: ValueId) returns (insts: seq<Inst>, amap: map<ValueId, ValueId>)
    ensures insts == VaArgs(|cs|, base, arg)
    ensures amap == ArgAddrMap(cs, base)
  {
    insts, amap := [], map[];
    for k := 0 to |cs|
      invariant |insts| == k
      invariant forall j :: 0 <= j < k ==> insts[j] == Inst(base + j, VaArg, [Local(arg)])
      invariant amap == ArgAddrMap(cs[..k], base)
    {
      insts := insts + [Inst(base + k, VaArg, [Local(arg)])];
      amap := amap[cs[k] := base + k];
      assert cs[..k + 1][..k] == cs[..k];
    }
    assert cs[..|cs|] == cs;
  }

  /** The operand loop of `createExtracted` on one instruction: each operand that is a key of the map is replaced. */
  method RewriteOperands(ops: seq<Operand>, amap: map<ValueId, ValueId>) returns (r: seq<Operand>)
    ensures r == RewriteOps(ops, amap)
  {
    r := ops;
    for j := 0 to |r|
      invariant |r| == |ops|
      invariant forall k :: 0 <= k < j ==> r[k] == Rewritten(ops[k], amap)
      invariant forall k :: j <= k < |r| ==> r[k] == ops[k]
    {
      if r[j].Local? && r[j].id in amap {
        r := r[j := Local(amap[r[j].id])];
      }
    }
  }

  /** The instruction loop of `createExtracted` on one block, its terminator included. */
  method RewriteInBlock(blk: Block, amap: map<ValueId, ValueId>) returns (r: Block)
    ensures r == RewriteBlock(blk, amap)
  {
    var insts := blk.insts;
    for i := 0 to |insts|
      invariant |insts| == |blk.insts|
      invariant forall k :: 0 <= k < i ==> insts[k] == RewriteInst(blk.insts[k], amap)
      invariant forall k :: i <= k < |insts| ==> insts[k] == blk.insts[k]
    {
      var ops := RewriteOperands(insts[i].operands, amap);
      insts := insts[i := insts[i].(operands := ops)];
    }
    var tops := RewriteOperands(blk.term.operands, amap);
    r := Block(insts, blk.term.(operands := tops));
  }

  // ---- unifyLoopExits and restoreSSA ---------------------------------------

  /**
   * The collection loop of `unifyLoopExits`: each exiting block goes into
   * `exiting`, and each of its successors outside the loop nest of `l` into
   * `exits`, both set vectors.
   */
  method CollectExitSets(st: IrState, l: nat) returns (exiting: seq<BlockId>, exits: seq<BlockId>)
    requires l < |st.loops|
    ensures exiting == Dedup(ExitingBlocks(st, l))
    ensures exits == ExitBlocks(st, l)
  {
    var temporary := ExitingBlocks(st, l);
    exiting, exits := [], [];
    for i := 0 to |temporary|
      invariant exiting == Dedup(temporary[..i])
      invariant exits == CollectExits(st, l, temporary[..i])
    {
      var b := temporary[i];
      DedupStep(temporary, i);
      CollectExitsStep(st, l, temporary, i);
      exiting := Insert(exiting, b);
      exits := InsertExits(st.loops, l, exits, Succs(st, b));
    }
    assert temporary[..|temporary|] == temporary;
  }

  /** One exiting block more is one more `SetVector` insertion. */
  lemma DedupStep(es: seq<BlockId>, i: nat)
    requires i < |es|
    ensures Dedup(es[..i + 1]) == Insert(Dedup(es[..i]), es[i])
  {
    assert es[..i + 1][..i] == es[..i];
  }

  /** One exiting block more adds the exits among its successors. */
  lemma CollectExitsStep(st: IrState, l: nat, es: seq<BlockId>, i: nat)
    requires i < |es|
    ensures CollectExits(st, l, es[..i + 1]) == AddExits(st.loops, l, CollectExits(st, l, es[..i]), Succs(st, es[i]))
  {
    assert es[..i + 1][..i] == es[..i];
  }

  /** The inner loop of the collection: the successors outside the loop nest of `l` go into `acc`. */
  method InsertExits(loops: seq<Loop>, l: nat, acc: seq<BlockId>, succs: seq<BlockId>) returns (exits: seq<BlockId>)
    ensures exits == AddExits(loops, l, acc, succs)
  {
    exits := acc;
    for j := 0 to |succs|
      invariant exits == AddExits(loops, l, acc, succs[..j])
    {
      assert succs[..j + 1][..j] == succs[..j];
      if !InLoopNest(loops, l, succs[j]) {
        exits := Insert(exits, succs[j]);
      }
    }
    assert succs[..|succs|] == succs;
  }

  /**
   * The `ExternalUsers` loops of `restoreSSA`: every instruction of the loop
   * blocks, terminators included, with a user outside the loop and the exit
   * block, in the order the map vector first meets it.
   */
  method FindExternalUsers(st: IrState, body: seq<BlockId>, exit: BlockId) returns (defs: seq<ValueId>)
    ensures defs == ExternalDefs(st, body, exit)
  {
    defs := [];
    for k := 0 to |body|
      invariant defs == ExternalDefsIn(st, body, exit, body[..k])
    {
      assert body[..k + 1][..k] == body[..k];
      var ds := DefSeq(BlockAt(st, body[k]));
      ghost var before := defs;
      for i := 0 to |ds|
        invariant defs == AddExternal(st, body, exit, before, ds[..i])
      {
        if UsedOutside(st, body, exit, ds[i]) {
          defs := Insert(defs, ds[i]);
        }
        assert ds[..i + 1][..i] == ds[..i];
      }
      assert ds[..|ds|] == ds;
    }
    assert body[..|body|] == body;
  }

  /** The incoming loop of `restoreSSA` for definition `d`: the definition along dominated edges, poison elsewhere. */
  method PhiIncomings(d: ValueId, home: Option<BlockId>, incs: seq<BlockId>, dom: (ValueId, BlockId) -> bool)
    returns (ops: seq<Operand>)
    ensures |ops| == |incs|
    ensures forall i :: 0 <= i < |incs| ==>
      ops[i] == (if home == Some(incs[i]) || dom(d, incs[i]) then Local(d) else Poison)
  {
    ops := [];
    for i := 0 to |incs|
      invariant |ops| == i
      invariant forall j :: 0 <= j < i ==>
        ops[j] == (if home == Some(incs[j]) || dom(d, incs[j]) then Local(d) else Poison)
    {
      if home == Some(incs[i]) || dom(d, incs[i]) {
        ops := ops + [Local(d)];
      } else {
        ops := ops + [Poison];
      }
    }
  }

  // ---- the IR the pass edits ---------------------------------------------

  /** Growing the layout of the function just appended. */
  lemma GrowLastFunction(fns: seq<Fn>, entry: BlockId, moved: seq<BlockId>)
    ensures (fns + [Fn("extracted", [entry])])[|fns| := Fn("extracted", [entry] + moved)] ==
            fns + [Fn("extracted", [entry] + moved)]
  {
    var a := (fns + [Fn("extracted", [entry])])[|fns| := Fn("extracted", [entry] + moved)];
    assert forall k :: 0 <= k < |fns| ==> a[k] == fns[k];
  }

  /** The module's IR and the host function's loop nest, edited in place by the pass. */
  class HostIr {
    var blocks: map<BlockId, Block>
    var fns: seq<Fn>
    var loops: seq<Loop>
    var names: map<ValueId, string>
    var nextBlock: BlockId
    var nextValue: ValueId

    constructor (st: IrState)
      ensures Snapshot() == st
    {
      blocks, fns, loops, names := st.blocks, st.fns, st.loops, st.names;
      nextBlock, nextValue := st.nextBlock, st.nextValue;
    }

    /** The IR as a value. */
    function Snapshot(): IrState
      reads this
    {
      IrState(blocks, fns, loops, names, nextBlock, nextValue)
    }

    /** `removeBlockFromLoop(b)` on loop `l`, then on its parent, and so on up the nest. */
    method RemoveFromLoops(l: nat, b: BlockId)
      requires l < |loops|
      modifies this
      ensures Snapshot() == old(Snapshot()).(loops := RemoveFromChain(old(loops), l, b))
    {
      ghost var target := RemoveFromChain(loops, l, b);
      var j: nat := l;
      var going := true;
      while going
        invariant j < |loops| && |loops| == |old(loops)|
        invariant going ==> RemoveFromChain(loops, j, b) == target
        invariant !going ==> loops == target
        invariant Snapshot() == old(Snapshot()).(loops := loops)
        decreases if going then j + 1 else 0
      {
        var p := loops[j].parent;
        loops := loops[j := loops[j].(blocks := RemoveAll(loops[j].blocks, b))];
        if p.Some? && p.value < j {
          j := p.value;
        } else {
          going := false;
        }
      }
    }

    /** The two checks of `removeLoop`: a single edge leaving the loop, and a branch or a switch at the end of every loop block. */
    method CheckRemovable(l: nat) returns (ok: bool)
      requires l < |loops|
      ensures ok == Removable(Snapshot(), l)
    {
      var body := loops[l].blocks;
      var exit := ExitBlock(Snapshot(), l);
      if exit.None? {
        return false;
      }
      for i := 0 to |body|
        invariant forall b :: b in body[..i] ==> BranchOrSwitch(BlockAt(Snapshot(), b).term)
      {
        if !BranchOrSwitch(BlockAt(Snapshot(), body[i]).term) {
          return false;
        }
        assert body[..i + 1] == body[..i] + [body[i]];
      }
      assert body[..|body|] == body;
      ok := true;
    }

    /** The loop of `removeLoop` that sends the back edges to `cont` and the exit edges to `brk`, collecting `ToBeRemoved`. */
    method RedirectBody(body: seq<BlockId>, header: BlockId, cont: BlockId, exit: BlockId, brk: BlockId)
      returns (toBeRemoved: seq<BlockId>)
      modifies this
      ensures toBeRemoved == body
      ensures Snapshot() == old(Snapshot()).(blocks := RedirectAll(old(blocks), body, header, cont, exit, brk))
    {
      toBeRemoved := [];
      for i := 0 to |body|
        invariant toBeRemoved == body[..i]
        invariant Snapshot() == old(Snapshot()).(blocks := RedirectAll(old(blocks), body[..i], header, cont, exit, brk))
      {
        blocks := blocks[body[i] := Redirected(BlockIn(blocks, body[i]), header, cont, exit, brk)];
        toBeRemoved := toBeRemoved + [body[i]];
        assert body[..i + 1][..i] == body[..i];
      }
      assert body[..|body|] == body;
    }

    /** The loop of `removeLoop` that takes each block out of its function and out of the loop nest. */
    method DetachBody(l: nat, toBeRemoved: seq<BlockId>) returns (dest: seq<BlockId>)
      requires l < |loops|
      modifies this
      ensures dest == toBeRemoved
      ensures Snapshot() == old(Snapshot()).(fns := LayoutsWithout(old(fns), toBeRemoved),
                                             loops := LoopsWithout(old(loops), l, toBeRemoved))
    {
      dest := [];
      for i := 0 to |toBeRemoved|
        invariant dest == toBeRemoved[..i] && |loops| == |old(loops)|
        invariant Snapshot() == old(Snapshot()).(fns := LayoutsWithout(old(fns), toBeRemoved[..i]),
                                                 loops := LoopsWithout(old(loops), l, toBeRemoved[..i]))
      {
        var b := toBeRemoved[i];
        fns := LayoutWithout(fns, b);
        RemoveFromLoops(l, b);
        dest := dest + [b];
        assert toBeRemoved[..i + 1][..i] == toBeRemoved[..i];
      }
      assert toBeRemoved[..|toBeRemoved|] == toBeRemoved;
    }

    /** The first edits of `removeLoop`: the blocks `LoopContinue` and `LoopBreak`, and the preheader `ph` sent to `exit`. */
    method PrepareRemoval(ph: BlockId, exit: BlockId)
      modifies this
      ensures Snapshot() == old(Snapshot()).(blocks := PreparedAt(old(Snapshot()), ph, exit),
                                             nextBlock := old(nextBlock) + 2, nextValue := old(nextValue) + 2)
    {
      var st := Snapshot();
      var m := st.blocks[ContinueBlock(st) := RetBlock(st.nextValue, 1)][BreakBlock(st) := RetBlock(st.nextValue + 1, 0)];
      blocks := m[ph := WithFirstSuccessor(BlockIn(m, ph), exit)];
      nextBlock, nextValue := st.nextBlock + 2, st.nextValue + 2;
    }

    /**
     * `removeLoop`: when one edge leaves the loop and every block ends in
     * a branch or a switch, the loop is cut out and its blocks, followed by
     * `LoopContinue` and `LoopBreak`, are written to `dest`; otherwise
     * nothing changes.
     */
    method RemoveLoop(l: nat) returns (ok: bool, dest: seq<BlockId>)
      requires l < |loops| && Preheader(Snapshot(), l).Some?
      modifies this
      ensures ok == Removable(old(Snapshot()), l)
      ensures ok ==> Snapshot() == RemovedLoop(old(Snapshot()), l) && dest == RemovedBlocks(old(Snapshot()), l)
      ensures !ok ==> Snapshot() == old(Snapshot())
    {
      var st := Snapshot();
      ok := CheckRemovable(l);
      if !ok {
        return false, [];
      }
      var header := RemovableHeader(st, l);
      var exit := ExitBlock(st, l).value;
      var cont: BlockId, brk: BlockId := nextBlock, nextBlock + 1;
      PrepareRemoval(Preheader(st, l).value, exit);
      ghost var body := st.loops[l].blocks;
      ghost var s1 := st.(blocks := PreparedBlocks(st, l), nextBlock := st.nextBlock + 2, nextValue := st.nextValue + 2);
      var toBeRemoved := RedirectBody(st.loops[l].blocks, header, cont, exit, brk);
      ghost var s2 := s1.(blocks := RedirectAll(s1.blocks, body, header, cont, exit, brk));
      assert Snapshot() == s2;
      ghost var s3 := s2.(fns := LayoutsWithout(s2.fns, body), loops := LoopsWithout(s2.loops, l, body));
      assert s3 == RemovedLoop(st, l);
      dest := DetachBody(l, toBeRemoved);
      assert Snapshot() == s3;
      dest := dest + [cont, brk];
    }

    /** The last loop of `createExtracted`: each moved block is rewritten and appended to the new function `f`. */
    method MoveBlocks(moved: seq<BlockId>, amap: map<ValueId, ValueId>, f: nat)
      requires f < |fns|
      modifies this
      ensures Snapshot() == old(Snapshot()).(blocks := RewriteAll(old(blocks), moved, amap),
                                             fns := old(fns)[f := old(fns)[f].(layout := old(fns)[f].layout + moved)])
    {
      ghost var fns0 := fns;
      assert moved[..0] == [];
      assert fns0[f].layout + moved[..0] == fns0[f].layout;
      for i := 0 to |moved|
        invariant |fns| == |fns0|
        invariant Snapshot() == old(Snapshot()).(blocks := RewriteAll(old(blocks), moved[..i], amap),
                                                 fns := fns0[f := fns0[f].(layout := fns0[f].layout + moved[..i])])
      {
        var b := moved[i];
        var nb := RewriteInBlock(BlockIn(blocks, b), amap);
        blocks := blocks[b := nb];
        fns := fns[f := fns[f].(layout := fns[f].layout + [b])];
        assert moved[..i + 1][..i] == moved[..i];
        assert fns0[f].layout + moved[..i + 1] == fns0[f].layout + moved[..i] + [b];
      }
      assert moved[..|moved|] == moved;
    }

    /**
     * The part of `createExtracted` after `removeLoop`: the new function, its
     * entry block reading the captures of `moved`, and the moved blocks.
     */
    method BuildExtracted(moved: seq<BlockId>) returns (args: seq<ValueId>)
      requires |moved| > 0
      modifies this
      ensures args == Captures(old(blocks), moved)
      ensures var entry, arg := old(nextBlock), old(nextValue);
        Snapshot() == old(Snapshot()).(
          blocks := RewriteAll(old(blocks)[entry := EntryBlock(|args|, arg + 1, arg, moved[0])], moved,
                               ArgAddrMap(args, arg + 1)),
          fns := old(fns) + [Fn("extracted", [entry] + moved)],
          nextBlock := entry + 1,
          nextValue := arg + 1 + |args| + 1)
    {
      args := SetOutsideDefinedVariables(blocks, moved);
      var fi := |fns|;
      GrowLastFunction(fns, nextBlock, moved);
      var amap := AddEntry(args, moved[0]);
      MoveBlocks(moved, amap, fi);
    }

    /**
     * The entry block of `createExtracted`: a new function `extracted`
     * holding one new block, which reads each of `args` with a va_arg from
     * the function's va_list argument and branches to `first`.
     */
    method AddEntry(args: seq<ValueId>, first: BlockId) returns (amap: map<ValueId, ValueId>)
      modifies this
      ensures amap == ArgAddrMap(args, old(nextValue) + 1)
      ensures Snapshot() == old(Snapshot()).(
          blocks := old(blocks)[old(nextBlock) := EntryBlock(|args|, old(nextValue) + 1, old(nextValue), first)],
          fns := old(fns) + [Fn("extracted", [old(nextBlock)])],
          nextBlock := old(nextBlock) + 1,
          nextValue := old(nextValue) + 1 + |args| + 1)
    {
      var entry := nextBlock;
      fns := fns + [Fn("extracted", [entry])];
      nextBlock := nextBlock + 1;
      var arg := nextValue;
      var base := arg + 1;
      var insts;
      insts, amap := BuildEntry(args, base, arg);
      blocks := blocks[entry := Block(insts, Terminator(base + |args|, Br, [first], []))];
      nextValue := base + |args| + 1;
    }

    /**
     * `createExtracted`: when `removeLoop` succeeds, the new function
     * `extracted` (returned as `f`, the index of the new function) takes the
     * removed blocks, reading their captures from its va_list; `args` are
     * the captures.  Otherwise nothing changes.
     */
    method CreateExtracted(l: nat) returns (f: Option<nat>, args: seq<ValueId>)
      requires l < |loops| && Preheader(Snapshot(), l).Some?
      modifies this
      ensures f.Some? == Removable(old(Snapshot()), l)
      ensures f.Some? ==> f.value == |old(fns)| && args == ExtractedCaptures(old(Snapshot()), l) &&
                          Snapshot() == ExtractedState(old(Snapshot()), l)
      ensures f.None? ==> Snapshot() == old(Snapshot())
    {
      ghost var st := Snapshot();
      var ok, moved := RemoveLoop(l);
      if !ok {
        return None, [];
      }
      assert Snapshot() == AfterRemoval(st, l);
      f := Some(|fns|);
      args := BuildExtracted(moved);
    }

    /**
     * `extractLoopIntoFunction`: when `createExtracted` succeeds, the
     * preheader calls `looper` with the new function and the captures just
     * before its terminator.
     */
    method ExtractLoopIntoFunction(l: nat) returns (changed: bool)
      requires l < |loops|
      modifies this
      ensures (Snapshot(), changed) == ExtractedLoopInto(old(Snapshot()), l)
    {
      var ph := Preheader(Snapshot(), l);
      if ph.None? {
        return false;
      }
      var f, args := CreateExtracted(l);
      if f.None? {
        return false;
      }
      ghost var st := old(Snapshot());
      ghost var st2 := ExtractedState(st, l);
      assert Snapshot() == st2;
      ghost var blk := BlockIn(st2.blocks, ph.value);
      ghost var call := LooperCall(st2.nextValue, |st.fns|, ExtractedCaptures(st, l));
      ghost var target := st2.(blocks := st2.blocks[ph.value := blk.(insts := blk.insts + [call])], nextValue := st2.nextValue + 1);
      assert target == ExtractedLoop(st, l);
      AddLooperCall(ph.value, f.value, args);
      assert Snapshot() == target;
      changed := true;
    }

    /** The builder's `CreateCall` of `extractLoopIntoFunction`: `looper(f, args...)` at the end of block `ph`. */
    method AddLooperCall(ph: BlockId, f: nat, args: seq<ValueId>)
      modifies this
      ensures var blk := BlockIn(old(blocks), ph);
        Snapshot() == old(Snapshot()).(blocks := old(blocks)[ph := blk.(insts := blk.insts + [LooperCall(old(nextValue), f, args)])],
                                       nextValue := old(nextValue) + 1)
    {
      var blk := BlockIn(blocks, ph);
      blocks := blocks[ph := blk.(insts := blk.insts + [LooperCall(nextValue, f, args)])];
      nextValue := nextValue + 1;
    }

    /** The `replaceUsesOfWith(d, p)` loop of `restoreSSA`, over every block outside the loop and the exit block. */
    method ReplaceUses(body: seq<BlockId>, exit: BlockId, d: ValueId, p: ValueId)
      modifies this
      ensures Snapshot() == old(Snapshot()).(blocks := RedirectUses(old(blocks), body, exit, map[d := p]))
    {
      ghost var b0 := blocks;
      var todo := blocks.Keys;
      while todo != {}
        invariant blocks.Keys == b0.Keys && todo <= b0.Keys
        invariant forall b :: b in b0 ==>
          blocks[b] == (if b !in todo && RedirectsIn(body, exit, b) then RewriteBlock(b0[b], map[d := p]) else b0[b])
        invariant Snapshot() == old(Snapshot()).(blocks := blocks)
        decreases todo
      {
        var b :| b in todo;
        if RedirectsIn(body, exit, b) {
          var nb := RewriteInBlock(blocks[b], map[d := p]);
          blocks := blocks[b := nb];
        }
        todo := todo - {b};
      }
      assert blocks == RedirectUses(b0, body, exit, map[d := p]);
    }

    /** One iteration of the second loop of `restoreSSA`: the phi for `d` and the redirection of its outside uses. */
    method RestoreDefinition(body: seq<BlockId>, incs: seq<BlockId>, exit: BlockId,
                             dom: (ValueId, BlockId) -> bool, d: ValueId)
      modifies this
      ensures Snapshot() == RestoreDef(old(Snapshot()), body, incs, exit, dom, d)
    {
      var home := HomeIn(Snapshot(), d, body);
      var name := NameOf(Snapshot(), Local(d)) + ".moved";
      var id := nextValue;
      var ops := PhiIncomings(d, home, incs, dom);
      var phi := Inst(id, Phi(incs), ops);
      assert phi == NewPhi(id, d, home, incs, dom);
      var e := BlockIn(blocks, exit);
      blocks := blocks[exit := e.(insts := [phi] + e.insts)];
      names := names[id := name];
      nextValue := id + 1;
      ReplaceUses(body, exit, d, id);
    }

    /**
     * `restoreSSA`: a phi in the exit block for each definition of the loop
     * used outside it, and those uses redirected to the phi.
     */
    method RestoreSsa(body: seq<BlockId>, incs: seq<BlockId>, exit: BlockId, dom: (ValueId, BlockId) -> bool)
      modifies this
      ensures Snapshot() == RestoredSsa(old(Snapshot()), body, incs, exit, dom)
    {
      var st := Snapshot();
      var defs := FindExternalUsers(st, body, exit);
      for k := 0 to |defs|
        invariant Snapshot() == RestoreDefs(st, body, incs, exit, dom, defs[..k])
      {
        RestoreDefinition(body, incs, exit, dom, defs[k]);
        RestoreDefsSnoc(st, body, incs, exit, dom, defs, k);
      }
      assert defs[..|defs|] == defs;
    }

    /** `addBasicBlockToLoop` on loop `j` for each guard block: it joins `j` and every loop around it. */
    method AddGuardBlocks(j: nat, guards: seq<BlockId>)
      modifies this
      ensures Snapshot() == old(Snapshot()).(loops := AddGuards(old(loops), j, guards))
    {
      for i := 0 to |guards|
        invariant Snapshot() == old(Snapshot()).(loops := AddGuards(old(loops), j, guards[..i]))
      {
        loops := AddToChain(loops, j, guards[i]);
        assert guards[..i + 1][..i] == guards[..i];
      }
      assert guards[..|guards|] == guards;
    }

    /**
     * `unifyLoopExits`: with two or more exit blocks, the hub becomes the
     * loop's only exit, SSA is restored around it, and its guard blocks join
     * the parent loop; otherwise nothing changes.
     */
    method UnifyLoopExits(l: nat, hub: (IrState, seq<BlockId>, seq<BlockId>) -> Hub,
                          dom: (ValueId, BlockId) -> bool) returns (changed: bool)
      requires l < |loops|
      modifies this
      ensures (Snapshot(), changed) == UnifiedLoopExits(old(Snapshot()), l, hub, dom)
    {
      var st := Snapshot();
      var exiting, exits := CollectExitSets(st, l);
      if |exits| <= 1 {
        return false;
      }
      var h := hub(st, exiting, exits);
      blocks, fns, nextBlock, nextValue := h.blocks, h.fns, h.nextBlock, h.nextValue;
      ghost var st1 := st.(blocks := h.blocks, fns := h.fns, nextBlock := h.nextBlock, nextValue := h.nextValue);
      assert Snapshot() == st1;
      RestoreSsa(st.loops[l].blocks, exiting, h.unified, dom);
      ghost var st2 := RestoredSsa(st1, st.loops[l].blocks, exiting, h.unified, dom);
      assert st2.loops == st.loops;
      var p := st.loops[l].parent;
      if p.Some? {
        AddGuardBlocks(p.value, h.guards);
      }
      changed := true;
    }

    /**
     * One iteration of the loop of `run`: a marked loop gets a preheader if
     * it lacks one, then its exits are unified, then it is extracted.
     */
    method ProcessLoop(l: nat, insertPh: (IrState, nat) -> Option<Insertion>,
                       hub: (IrState, seq<BlockId>, seq<BlockId>) -> Hub,
                       dom: (ValueId, BlockId) -> bool) returns (changed: bool)
      requires l < |loops|
      modifies this
      ensures (Snapshot(), changed) == Step(old(Snapshot()), l, insertPh, hub, dom)
    {
      if !Marked(loops[l]) {
        return false;
      }
      var inserted: Option<Insertion> := None;
      if Preheader(Snapshot(), l).None? {
        inserted := insertPh(Snapshot(), l);
        if inserted.Some? {
          var s := WithPreheader(Snapshot(), l, inserted.value);
          blocks, fns, loops, nextBlock, nextValue := s.blocks, s.fns, s.loops, s.nextBlock, s.nextValue;
        }
      }
      var unified := UnifyLoopExits(l, hub, dom);
      var extracted := ExtractLoopIntoFunction(l);
      changed := inserted.Some? || unified || extracted;
    }

    /**
     * `run`: every loop of the host function in preorder; every analysis is
     * reported preserved only when nothing changed, and then the IR is as it
     * was.
     */
    method Run(insertPh: (IrState, nat) -> Option<Insertion>,
               hub: (IrState, seq<BlockId>, seq<BlockId>) -> Hub,
               dom: (ValueId, BlockId) -> bool) returns (preserved: Preserved)
      modifies this
      ensures (Snapshot(), preserved) == PassSpec.Run(old(Snapshot()), insertPh, hub, dom)
      ensures preserved == PreservedAll ==> Snapshot() == old(Snapshot())
    {
      ghost var st := Snapshot();
      var changed := false;
      var n := |loops|;
      for i := 0 to n
        invariant |loops| == n
        invariant (Snapshot(), changed) == RunUpTo(st, i, insertPh, hub, dom)
      {
        var c := ProcessLoop(i, insertPh, hub, dom);
        changed := changed || c;
      }
      preserved := if changed then PreservedNone else PreservedAll;
      RunPreservedAllMeansUnchanged(st, insertPh, hub, dom);
    }
  }
}
