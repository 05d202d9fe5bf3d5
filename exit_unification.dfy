/**
 * `unifyLoopExits` and `restoreSSA` of the LambdaizeLoop pass, as functions
 * of the state before each step.  The control-flow hub itself is built by an
 * LLVM utility, which the model takes as a given function `hub`; dominance
 * is a given relation `dom`.
 */
module ExitUnification {
  import opened Ir
  import opened LambdaizeSpec

  // ---- exit-block collection --------------------------------------------

  /** `SetVector::insert` of each block of `bs` in turn. */
  function Dedup(bs: seq<BlockId>): (r: seq<BlockId>)
    ensures NoDuplicates(r)
    ensures forall b :: b in r <==> b in bs
    decreases |bs|
  {
    if bs == [] then []
    else
      var init := Dedup(bs[..|bs| - 1]);
      InsertKeepsNoDuplicates(init, bs[|bs| - 1]);
      assert forall b :: b in bs <==> b in bs[..|bs| - 1] || b == bs[|bs| - 1];
      Insert(init, bs[|bs| - 1])
  }

  /**
   * The inner loop of the collection: each successor that `getLoopFor` does
   * not place in loop `l` or one of its subloops is inserted into `acc`.
   */
  function AddExits(loops: seq<Loop>, l: nat, acc: seq<BlockId>, succs: seq<BlockId>): seq<BlockId>
    decreases |succs|
  {
    if succs == [] then acc
    else
      var r := AddExits(loops, l, acc, succs[..|succs| - 1]);
      var s := succs[|succs| - 1];
      if InLoopNest(loops, l, s) then r else Insert(r, s)
  }

  /** The outer loop of the collection, over the exiting blocks `es`. */
  function CollectExits(st: IrState, l: nat, es: seq<BlockId>): seq<BlockId>
    decreases |es|
  {
    if es == [] then []
    else AddExits(st.loops, l, CollectExits(st, l, es[..|es| - 1]), Succs(st, es[|es| - 1]))
  }

  /** The `ExitBlocks` set vector `unifyLoopExits` builds. */
  function ExitBlocks(st: IrState, l: nat): seq<BlockId>
    requires l < |st.loops|
  {
    CollectExits(st, l, ExitingBlocks(st, l))
  }

  lemma {:induction false} AddExitsMembers(loops: seq<Loop>, l: nat, acc: seq<BlockId>, succs: seq<BlockId>)
    requires NoDuplicates(acc)
    ensures NoDuplicates(AddExits(loops, l, acc, succs))
    ensures forall x :: x in AddExits(loops, l, acc, succs) <==>
      x in acc || (x in succs && !InLoopNest(loops, l, x))
    decreases |succs|
  {
    if succs != [] {
      var init := succs[..|succs| - 1];
      AddExitsMembers(loops, l, acc, init);
      InsertKeepsNoDuplicates(AddExits(loops, l, acc, init), succs[|succs| - 1]);
      assert forall x :: x in succs <==> x in init || x == succs[|succs| - 1];
    }
  }

  lemma {:induction false} CollectExitsMembers(st: IrState, l: nat, es: seq<BlockId>)
    ensures NoDuplicates(CollectExits(st, l, es))
    ensures forall x :: x in CollectExits(st, l, es) <==>
      exists e :: e in es && x in Succs(st, e) && !InLoopNest(st.loops, l, x)
    decreases |es|
  {
    if es != [] {
      var init := es[..|es| - 1];
      var last := es[|es| - 1];
      CollectExitsMembers(st, l, init);
      AddExitsMembers(st.loops, l, CollectExits(st, l, init), Succs(st, last));
      forall x ensures x in CollectExits(st, l, es) <==>
        exists e :: e in es && x in Succs(st, e) && !InLoopNest(st.loops, l, x)
      {
        if exists e :: e in es && x in Succs(st, e) && !InLoopNest(st.loops, l, x) {
          var e :| e in es && x in Succs(st, e) && !InLoopNest(st.loops, l, x);
          if e != last {
            assert e in init;
          }
        }
        if x in CollectExits(st, l, init) {
          var e :| e in init && x in Succs(st, e) && !InLoopNest(st.loops, l, x);
          assert e in es;
        }
        assert last in es;
      }
    }
  }

  /**
   * In a well-formed loop nest, the collected exit blocks are exactly the
   * targets of edges leaving the loop, each listed once.
   */
  lemma ExitBlocksAreExits(st: IrState, l: nat)
    requires NestWellFormed(st.loops) && l < |st.loops|
    ensures NoDuplicates(ExitBlocks(st, l))
    ensures forall x :: x in ExitBlocks(st, l) <==> IsExit(st, st.loops[l].blocks, x)
  {
    var body := st.loops[l].blocks;
    CollectExitsMembers(st, l, ExitingBlocks(st, l));
    forall x ensures x in ExitBlocks(st, l) <==> IsExit(st, body, x) {
      InLoopNestIsMembership(st.loops, l, x);
      if IsExit(st, body, x) {
        var b :| b in body && x in Succs(st, b) && x !in body;
        assert LeavesBody(st, body, b);
        assert b in ExitingBlocks(st, l);
      }
    }
  }

  /**
   * The collection finds one block exactly when every edge leaving the loop
   * reaches one block (`getUniqueExitBlock` finds one), so such a loop is
   * left alone; in particular so is a loop on which `getExitBlock` finds one.
   */
  lemma OneExitBlockIffUniqueExitBlock(st: IrState, l: nat)
    requires NestWellFormed(st.loops) && l < |st.loops|
    ensures |ExitBlocks(st, l)| == 1 <==> UniqueExitBlock(st, l).Some?
    ensures ExitBlock(st, l).Some? ==> |ExitBlocks(st, l)| == 1
  {
    ExitBlockIsUnique(st, l);
    OneExitBlockGivesUnique(st, l);
    UniqueGivesOneExitBlock(st, l);
  }

  /** One collected exit block means every exit edge reaches it. */
  lemma OneExitBlockGivesUnique(st: IrState, l: nat)
    requires NestWellFormed(st.loops) && l < |st.loops|
    ensures |ExitBlocks(st, l)| == 1 ==> UniqueExitBlock(st, l).Some?
  {
    var body := st.loops[l].blocks;
    var es := ExitBlocks(st, l);
    if |es| == 1 {
      ExitBlocksAreExits(st, l);
      var x := es[0];
      assert x in es && es == [x];
      forall s | IsExit(st, body, s) ensures s == x {
        assert s in es;
      }
      UniqueExitBlockIsTheOnlyExit(st, l, x);
    }
  }

  /** Exit edges that all reach one block leave one block in the collection. */
  lemma UniqueGivesOneExitBlock(st: IrState, l: nat)
    requires NestWellFormed(st.loops) && l < |st.loops|
    ensures UniqueExitBlock(st, l).Some? ==> |ExitBlocks(st, l)| == 1
  {
    var es := ExitBlocks(st, l);
    if UniqueExitBlock(st, l).Some? {
      ExitBlocksAreExits(st, l);
      var x := UniqueExitBlock(st, l).value;
      UniqueExitBlockIsTheOnlyExit(st, l, x);
      assert x in es;
      AtMostOne(es, x);
    }
  }

  // ---- restoreSSA -------------------------------------------------------

  /** Whether `restoreSSA` redirects uses in block `b`: it is neither a loop block nor the unified exit. */
  predicate RedirectsIn(body: seq<BlockId>, exit: BlockId, b: BlockId)
  {
    b !in body && b != exit
  }

  /** Every block where `restoreSSA` redirects uses, rewritten by `pm`; the others as they are. */
  function RedirectUses(m: map<BlockId, Block>, body: seq<BlockId>, exit: BlockId,
                        pm: map<ValueId, ValueId>): map<BlockId, Block>
  {
    map b | b in m :: if RedirectsIn(body, exit, b) then RewriteBlock(m[b], pm) else m[b]
  }

  /** Whether value `d` has a use in a block where `restoreSSA` redirects uses. */
  predicate UsedOutside(st: IrState, body: seq<BlockId>, exit: BlockId, d: ValueId)
  {
    exists b :: b in st.blocks && RedirectsIn(body, exit, b) && Local(d) in OperandsOf(st.blocks[b])
  }

  /** The instructions of a block in order, terminator last. */
  function DefSeq(blk: Block): (r: seq<ValueId>)
    ensures forall d :: d in r <==> d in BlockDefs(blk)
  {
    var r := seq(|blk.insts|, i requires 0 <= i < |blk.insts| => blk.insts[i].id) + [blk.term.id];
    assert forall d :: d in r <==> d in BlockDefs(blk) by {
      forall d | d in BlockDefs(blk) ensures d in r {
        if d != blk.term.id {
          var i :| 0 <= i < |blk.insts| && blk.insts[i].id == d;
          assert r[i] == d;
        }
      }
    }
    r
  }

  /** The inner loops of the `ExternalUsers` collection, over the instructions `ds` of one block. */
  function AddExternal(st: IrState, body: seq<BlockId>, exit: BlockId, acc: seq<ValueId>, ds: seq<ValueId>): seq<ValueId>
    decreases |ds|
  {
    if ds == [] then acc
    else
      var r := AddExternal(st, body, exit, acc, ds[..|ds| - 1]);
      var d := ds[|ds| - 1];
      if UsedOutside(st, body, exit, d) then Insert(r, d) else r
  }

  /** The keys of `ExternalUsers` after the loop over the blocks `bs`. */
  function ExternalDefsIn(st: IrState, body: seq<BlockId>, exit: BlockId, bs: seq<BlockId>): seq<ValueId>
    decreases |bs|
  {
    if bs == [] then []
    else AddExternal(st, body, exit, ExternalDefsIn(st, body, exit, bs[..|bs| - 1]), DefSeq(BlockAt(st, bs[|bs| - 1])))
  }

  /** The definitions of the loop used outside it, in the order `ExternalUsers` holds them. */
  function ExternalDefs(st: IrState, body: seq<BlockId>, exit: BlockId): seq<ValueId>
  {
    ExternalDefsIn(st, body, exit, body)
  }

  lemma {:induction false} AddExternalMembers(st: IrState, body: seq<BlockId>, exit: BlockId, acc: seq<ValueId>, ds: seq<ValueId>)
    requires NoDuplicates(acc)
    ensures NoDuplicates(AddExternal(st, body, exit, acc, ds))
    ensures forall d :: d in AddExternal(st, body, exit, acc, ds) <==>
      d in acc || (d in ds && UsedOutside(st, body, exit, d))
    decreases |ds|
  {
    if ds != [] {
      var init := ds[..|ds| - 1];
      AddExternalMembers(st, body, exit, acc, init);
      InsertKeepsNoDuplicates(AddExternal(st, body, exit, acc, init), ds[|ds| - 1]);
      assert forall d :: d in ds <==> d in init || d == ds[|ds| - 1];
    }
  }

  lemma {:induction false} ExternalDefsInMembers(st: IrState, body: seq<BlockId>, exit: BlockId, bs: seq<BlockId>)
    ensures NoDuplicates(ExternalDefsIn(st, body, exit, bs))
    ensures forall d :: d in ExternalDefsIn(st, body, exit, bs) <==>
      d in DefinedIn(st.blocks, bs) && UsedOutside(st, body, exit, d)
    decreases |bs|
  {
    if bs != [] {
      var init := bs[..|bs| - 1];
      ExternalDefsInMembers(st, body, exit, init);
      AddExternalMembers(st, body, exit, ExternalDefsIn(st, body, exit, init), DefSeq(BlockAt(st, bs[|bs| - 1])));
      assert BlockAt(st, bs[|bs| - 1]) == BlockIn(st.blocks, bs[|bs| - 1]);
    }
  }

  /**
   * `ExternalUsers` holds each definition of the loop that is used in a block
   * outside the loop other than the unified exit, and nothing else, once.
   */
  lemma ExternalDefsExactly(st: IrState, body: seq<BlockId>, exit: BlockId)
    ensures NoDuplicates(ExternalDefs(st, body, exit))
    ensures forall d :: d in ExternalDefs(st, body, exit) <==>
      d in DefinedIn(st.blocks, body) && UsedOutside(st, body, exit, d)
  {
    ExternalDefsInMembers(st, body, exit, body);
  }

  /** The first loop block defining `d`: the `getParent()` of the definition. */
  function HomeIn(st: IrState, d: ValueId, bs: seq<BlockId>): (r: Option<BlockId>)
    ensures r.Some? ==> r.value in bs && d in BlockDefs(BlockAt(st, r.value))
    ensures r.None? ==> forall b :: b in bs ==> d !in BlockDefs(BlockAt(st, b))
  {
    if bs == [] then None
    else if d in BlockDefs(BlockAt(st, bs[0])) then Some(bs[0])
    else HomeIn(st, d, bs[1..])
  }

  /** The value the new phi for `d` takes along the edge from `inc`. */
  function IncomingValue(d: ValueId, home: Option<BlockId>, inc: BlockId, dom: (ValueId, BlockId) -> bool): Operand
  {
    if home == Some(inc) || dom(d, inc) then Local(d) else Poison
  }

  /** The phi `restoreSSA` creates for `d`, with one incoming per block of `incs`. */
  function NewPhi(id: ValueId, d: ValueId, home: Option<BlockId>, incs: seq<BlockId>,
                  dom: (ValueId, BlockId) -> bool): Inst
  {
    Inst(id, Phi(incs), seq(|incs|, i requires 0 <= i < |incs| => IncomingValue(d, home, incs[i], dom)))
  }

  /** The phis for the definitions `defs`, the k-th with id `base + k`, each put in front of the exit block. */
  function PrependPhis(st: IrState, body: seq<BlockId>, insts: seq<Inst>, defs: seq<ValueId>, base: ValueId,
                       incs: seq<BlockId>, dom: (ValueId, BlockId) -> bool): seq<Inst>
    decreases |defs|
  {
    if defs == [] then insts
    else
      var k := |defs| - 1;
      [NewPhi(base + k, defs[k], HomeIn(st, defs[k], body), incs, dom)] +
      PrependPhis(st, body, insts, defs[..k], base, incs, dom)
  }

  /** The names of the new phis: the definition's name followed by `.moved`. */
  function PhiNames(st: IrState, names: map<ValueId, string>, defs: seq<ValueId>, base: ValueId): map<ValueId, string>
    decreases |defs|
  {
    if defs == [] then names
    else
      var k := |defs| - 1;
      PhiNames(st, names, defs[..k], base)[base + k := NameOf(st, Local(defs[k])) + ".moved"]
  }

  /**
   * One iteration of the second loop of `restoreSSA`, for definition `d`: a
   * new phi in front of the exit block, named after `d`, with one incoming
   * per block of `incs`, and every use of `d` outside the loop and the exit
   * block redirected to it.
   */
  function RestoreDef(s: IrState, body: seq<BlockId>, incs: seq<BlockId>, exit: BlockId,
                      dom: (ValueId, BlockId) -> bool, d: ValueId): IrState
  {
    var id := s.nextValue;
    var phi := NewPhi(id, d, HomeIn(s, d, body), incs, dom);
    var e := BlockIn(s.blocks, exit);
    var withPhi := s.blocks[exit := e.(insts := [phi] + e.insts)];
    s.(blocks := RedirectUses(withPhi, body, exit, map[d := id]),
       names := s.names[id := NameOf(s, Local(d)) + ".moved"],
       nextValue := id + 1)
  }

  /** `RestoreDef` for each definition of `ds` in turn. */
  function RestoreDefs(st: IrState, body: seq<BlockId>, incs: seq<BlockId>, exit: BlockId,
                       dom: (ValueId, BlockId) -> bool, ds: seq<ValueId>): (r: IrState)
    ensures r.loops == st.loops && r.fns == st.fns && r.nextBlock == st.nextBlock
    ensures r.nextValue == st.nextValue + |ds|
    decreases |ds|
  {
    if ds == [] then st
    else RestoreDef(RestoreDefs(st, body, incs, exit, dom, ds[..|ds| - 1]), body, incs, exit, dom, ds[|ds| - 1])
  }

  /** Handling one more definition of `ds` is one more `RestoreDef`. */
  lemma RestoreDefsSnoc(st: IrState, body: seq<BlockId>, incs: seq<BlockId>, exit: BlockId,
                        dom: (ValueId, BlockId) -> bool, ds: seq<ValueId>, k: nat)
    requires k < |ds|
    ensures RestoreDefs(st, body, incs, exit, dom, ds[..k + 1]) ==
            RestoreDef(RestoreDefs(st, body, incs, exit, dom, ds[..k]), body, incs, exit, dom, ds[k])
  {
    assert ds[..k + 1][..k] == ds[..k];
  }

  /** The state after `restoreSSA`. */
  function RestoredSsa(st: IrState, body: seq<BlockId>, incs: seq<BlockId>, exit: BlockId,
                       dom: (ValueId, BlockId) -> bool): IrState
  {
    RestoreDefs(st, body, incs, exit, dom, ExternalDefs(st, body, exit))
  }

  /**
   * All of `restoreSSA`'s work on the definitions `defs` at once: the phi of
   * `defs[k]` has id `nextValue + k`, the exit block starts with all phis, and
   * every use of a definition outside the loop and the exit block reads its
   * phi.
   */
  function RestoredAtOnce(st: IrState, body: seq<BlockId>, incs: seq<BlockId>, exit: BlockId,
                          dom: (ValueId, BlockId) -> bool, defs: seq<ValueId>): IrState
  {
    var pm := ArgAddrMap(defs, st.nextValue);
    var redirected := RedirectUses(st.blocks, body, exit, pm);
    var e := BlockIn(st.blocks, exit);
    st.(blocks := redirected[exit := e.(insts := PrependPhis(st, body, e.insts, defs, st.nextValue, incs, dom))],
        names := PhiNames(st, st.names, defs, st.nextValue),
        nextValue := st.nextValue + |defs|)
  }

  /** The loop blocks exist and read and define only values below the next free id. */
  ghost predicate LoopValuesFresh(st: IrState, body: seq<BlockId>)
  {
    forall b :: b in body ==> b in st.blocks && ValuesBelow(st.blocks[b], st.nextValue)
  }

  lemma ExternalDefsBelow(st: IrState, body: seq<BlockId>, exit: BlockId)
    requires LoopValuesFresh(st, body)
    ensures NoDuplicates(ExternalDefs(st, body, exit))
    ensures forall d :: d in ExternalDefs(st, body, exit) ==> d < st.nextValue
  {
    var defs := ExternalDefs(st, body, exit);
    ExternalDefsExactly(st, body, exit);
    forall d | d in defs ensures d < st.nextValue {
      DefinedInSomeBlock(st.blocks, body, d);
      var b :| b in body && d in BlockDefs(BlockIn(st.blocks, b));
      assert ValuesBelow(st.blocks[b], st.nextValue);
    }
  }

  lemma {:induction false} PhiNamesBelow(st: IrState, names: map<ValueId, string>, defs: seq<ValueId>,
                                         base: ValueId, x: ValueId)
    requires x < base
    ensures (x in PhiNames(st, names, defs, base)) == (x in names)
    ensures x in names ==> PhiNames(st, names, defs, base)[x] == names[x]
    decreases |defs|
  {
    if defs != [] {
      PhiNamesBelow(st, names, defs[..|defs| - 1], base, x);
    }
  }

  /** The names of one more phi: the previous names plus the name of the phi for `d`. */
  lemma PhiNamesSnoc(st: IrState, names: map<ValueId, string>, ds: seq<ValueId>, base: ValueId, d: ValueId)
    ensures PhiNames(st, names, ds + [d], base) == PhiNames(st, names, ds, base)[base + |ds| := NameOf(st, Local(d)) + ".moved"]
  {
    assert (ds + [d])[..|ds|] == ds;
  }

  lemma {:induction false} HomeInSame(s: IrState, st: IrState, d: ValueId, bs: seq<BlockId>)
    requires forall b :: b in bs ==> BlockAt(s, b) == BlockAt(st, b)
    ensures HomeIn(s, d, bs) == HomeIn(st, d, bs)
    decreases |bs|
  {
    if bs != [] {
      assert bs[0] in bs;
      HomeInSame(s, st, d, bs[1..]);
    }
  }

  lemma RewriteOpsCompose(ops: seq<Operand>, a: map<ValueId, ValueId>, d: ValueId, p: ValueId)
    requires d !in a && forall x :: x in a ==> a[x] != d
    ensures RewriteOps(RewriteOps(ops, a), map[d := p]) == RewriteOps(ops, a[d := p])
  {
  }

  /** Redirecting `d` after the earlier definitions is redirecting all of them together. */
  lemma RewriteBlockCompose(blk: Block, a: map<ValueId, ValueId>, d: ValueId, p: ValueId)
    requires d !in a && forall x :: x in a ==> a[x] != d
    ensures RewriteBlock(RewriteBlock(blk, a), map[d := p]) == RewriteBlock(blk, a[d := p])
  {
    forall i | 0 <= i < |blk.insts|
      ensures RewriteInst(RewriteInst(blk.insts[i], a), map[d := p]) == RewriteInst(blk.insts[i], a[d := p])
    {
      RewriteOpsCompose(blk.insts[i].operands, a, d, p);
    }
    RewriteOpsCompose(blk.term.operands, a, d, p);
  }

  lemma RewriteBlockEmpty(blk: Block)
    ensures RewriteBlock(blk, map[]) == blk
  {
    assert RewriteOps(blk.term.operands, map[]) == blk.term.operands;
    forall i | 0 <= i < |blk.insts| ensures RewriteInst(blk.insts[i], map[]) == blk.insts[i] {
      assert RewriteOps(blk.insts[i].operands, map[]) == blk.insts[i].operands;
    }
  }

  /** Redirection leaves the exit block alone. */
  lemma RedirectUsesExit(m: map<BlockId, Block>, body: seq<BlockId>, exit: BlockId,
                         pm: map<ValueId, ValueId>, blk: Block)
    ensures RedirectUses(m[exit := blk], body, exit, pm) == RedirectUses(m, body, exit, pm)[exit := blk]
  {
  }

  /** Redirecting by `a` and then by `d := p` is redirecting by `a[d := p]`, when `a` neither reads nor yields `d`. */
  lemma RedirectUsesTwice(m: map<BlockId, Block>, body: seq<BlockId>, exit: BlockId,
                          a: map<ValueId, ValueId>, d: ValueId, p: ValueId)
    requires d !in a && forall x :: x in a ==> a[x] != d
    ensures RedirectUses(RedirectUses(m, body, exit, a), body, exit, map[d := p]) == RedirectUses(m, body, exit, a[d := p])
  {
    forall b | b in m && RedirectsIn(body, exit, b)
      ensures RewriteBlock(RewriteBlock(m[b], a), map[d := p]) == RewriteBlock(m[b], a[d := p])
    {
      RewriteBlockCompose(m[b], a, d, p);
    }
  }

  /** A definition older than every id the map hands out, and not among its keys, is neither read nor yielded by it. */
  lemma ArgAddrMapAvoids(ds: seq<ValueId>, n0: ValueId, d: ValueId)
    requires d !in ds && NoDuplicates(ds) && d < n0
    ensures d !in ArgAddrMap(ds, n0) && forall x :: x in ArgAddrMap(ds, n0) ==> ArgAddrMap(ds, n0)[x] != d
  {
    var a := ArgAddrMap(ds, n0);
    ArgAddrMapOrder(ds, n0);
    forall x | x in a ensures a[x] != d {
      var k :| 0 <= k < |ds| && ds[k] == x;
    }
  }

  /** Handling some definitions leaves the loop blocks, and so the home of any other definition, unchanged. */
  lemma RestoredAtOnceHome(st: IrState, body: seq<BlockId>, incs: seq<BlockId>, exit: BlockId,
                           dom: (ValueId, BlockId) -> bool, ds: seq<ValueId>, d: ValueId)
    requires exit !in body
    ensures HomeIn(RestoredAtOnce(st, body, incs, exit, dom, ds), d, body) == HomeIn(st, d, body)
  {
    var s := RestoredAtOnce(st, body, incs, exit, dom, ds);
    forall b | b in body ensures BlockAt(s, b) == BlockAt(st, b) {
    }
    HomeInSame(s, st, d, body);
  }

  lemma RestoreDefStepBlocks(st: IrState, body: seq<BlockId>, incs: seq<BlockId>, exit: BlockId,
                             dom: (ValueId, BlockId) -> bool, ds: seq<ValueId>, d: ValueId)
    requires exit !in body && d !in ds && NoDuplicates(ds)
    requires d < st.nextValue && forall x :: x in ds ==> x < st.nextValue
    ensures RestoreDef(RestoredAtOnce(st, body, incs, exit, dom, ds), body, incs, exit, dom, d).blocks ==
            RestoredAtOnce(st, body, incs, exit, dom, ds + [d]).blocks
  {
    RestoreDefAfter(st, body, incs, exit, dom, ds, d);
    RestoredAtOnceSnoc(st, body, incs, exit, dom, ds, d);
  }

  /** One more restoration after the first `ds`: the exit gains the phi of `d`, then the uses of `d` are redirected. */
  lemma RestoreDefAfter(st: IrState, body: seq<BlockId>, incs: seq<BlockId>, exit: BlockId,
                        dom: (ValueId, BlockId) -> bool, ds: seq<ValueId>, d: ValueId)
    requires exit !in body
    ensures var n0 := st.nextValue;
      var e := BlockIn(st.blocks, exit);
      var x := e.(insts := [NewPhi(n0 + |ds|, d, HomeIn(st, d, body), incs, dom)] + PrependPhis(st, body, e.insts, ds, n0, incs, dom));
      RestoreDef(RestoredAtOnce(st, body, incs, exit, dom, ds), body, incs, exit, dom, d).blocks ==
      RedirectUses(RedirectUses(st.blocks, body, exit, ArgAddrMap(ds, n0))[exit := x], body, exit, map[d := n0 + |ds|])
  {
    var s := RestoredAtOnce(st, body, incs, exit, dom, ds);
    var n0 := st.nextValue;
    var e := BlockIn(st.blocks, exit);
    var r := RedirectUses(st.blocks, body, exit, ArgAddrMap(ds, n0));
    var pre := PrependPhis(st, body, e.insts, ds, n0, incs, dom);
    assert s.blocks == r[exit := e.(insts := pre)];
    assert s.nextValue == n0 + |ds|;
    RestoredAtOnceHome(st, body, incs, exit, dom, ds, d);
    RestoreDefOn(s, body, incs, exit, dom, d, r, e, pre, HomeIn(st, d, body));
  }

  /** `RestoreDef` on a state whose exit block is `e` with the instructions `pre`. */
  lemma RestoreDefOn(s: IrState, body: seq<BlockId>, incs: seq<BlockId>, exit: BlockId,
                     dom: (ValueId, BlockId) -> bool, d: ValueId,
                     r: map<BlockId, Block>, e: Block, pre: seq<Inst>, home: Option<BlockId>)
    requires s.blocks == r[exit := e.(insts := pre)] && HomeIn(s, d, body) == home
    ensures RestoreDef(s, body, incs, exit, dom, d).blocks ==
            RedirectUses(r[exit := e.(insts := [NewPhi(s.nextValue, d, home, incs, dom)] + pre)], body, exit, map[d := s.nextValue])
  {
    var e1 := BlockIn(s.blocks, exit);
    assert e1 == e.(insts := pre);
  }

  /** All of `ds + [d]` at once: the phis of `ds` and of `d` at the exit, and the uses of all of them redirected. */
  lemma RestoredAtOnceSnoc(st: IrState, body: seq<BlockId>, incs: seq<BlockId>, exit: BlockId,
                           dom: (ValueId, BlockId) -> bool, ds: seq<ValueId>, d: ValueId)
    requires d !in ds && NoDuplicates(ds)
    requires d < st.nextValue && forall x :: x in ds ==> x < st.nextValue
    ensures var n0 := st.nextValue;
      var e := BlockIn(st.blocks, exit);
      var x := e.(insts := [NewPhi(n0 + |ds|, d, HomeIn(st, d, body), incs, dom)] + PrependPhis(st, body, e.insts, ds, n0, incs, dom));
      RestoredAtOnce(st, body, incs, exit, dom, ds + [d]).blocks ==
      RedirectUses(RedirectUses(st.blocks, body, exit, ArgAddrMap(ds, n0))[exit := x], body, exit, map[d := n0 + |ds|])
  {
    var n0 := st.nextValue;
    var a := ArgAddrMap(ds, n0);
    var id := n0 + |ds|;
    assert (ds + [d])[..|ds|] == ds;
    assert ArgAddrMap(ds + [d], n0) == a[d := id];
    ArgAddrMapAvoids(ds, n0, d);
    var e := BlockIn(st.blocks, exit);
    var x := e.(insts := [NewPhi(id, d, HomeIn(st, d, body), incs, dom)] + PrependPhis(st, body, e.insts, ds, n0, incs, dom));
    assert x == e.(insts := PrependPhis(st, body, e.insts, ds + [d], n0, incs, dom));
    RedirectUsesExit(RedirectUses(st.blocks, body, exit, a), body, exit, map[d := id], x);
    RedirectUsesTwice(st.blocks, body, exit, a, d, id);
  }

  lemma RestoreDefStep(st: IrState, body: seq<BlockId>, incs: seq<BlockId>, exit: BlockId,
                       dom: (ValueId, BlockId) -> bool, ds: seq<ValueId>, d: ValueId)
    requires exit !in body && d !in ds && NoDuplicates(ds)
    requires d < st.nextValue && forall x :: x in ds ==> x < st.nextValue
    ensures RestoreDef(RestoredAtOnce(st, body, incs, exit, dom, ds), body, incs, exit, dom, d) ==
            RestoredAtOnce(st, body, incs, exit, dom, ds + [d])
  {
    var s := RestoredAtOnce(st, body, incs, exit, dom, ds);
    var t := RestoredAtOnce(st, body, incs, exit, dom, ds + [d]);
    var u := RestoreDef(s, body, incs, exit, dom, d);
    PhiNamesBelow(st, st.names, ds, st.nextValue, d);
    PhiNamesSnoc(st, st.names, ds, st.nextValue, d);
    assert NameOf(s, Local(d)) == NameOf(st, Local(d));
    assert s.names == PhiNames(st, st.names, ds, st.nextValue) && s.nextValue == st.nextValue + |ds|;
    assert u.names == s.names[s.nextValue := NameOf(s, Local(d)) + ".moved"];
    assert u.names == t.names;
    RestoreDefStepBlocks(st, body, incs, exit, dom, ds, d);
    assert u.blocks == t.blocks && u.nextValue == t.nextValue;
  }

  /** Under fresh ids, handling the definitions one by one is handling them all at once. */
  lemma {:induction false} RestoreDefsAtOnce(st: IrState, body: seq<BlockId>, incs: seq<BlockId>, exit: BlockId,
                                             dom: (ValueId, BlockId) -> bool, ds: seq<ValueId>)
    requires exit !in body && exit in st.blocks && NoDuplicates(ds)
    requires forall x :: x in ds ==> x < st.nextValue
    ensures RestoreDefs(st, body, incs, exit, dom, ds) == RestoredAtOnce(st, body, incs, exit, dom, ds)
    decreases |ds|
  {
    if ds == [] {
      forall b | b in st.blocks ensures RewriteBlock(st.blocks[b], map[]) == st.blocks[b] {
        RewriteBlockEmpty(st.blocks[b]);
      }
      assert RestoredAtOnce(st, body, incs, exit, dom, ds).blocks == st.blocks;
    } else {
      var init := ds[..|ds| - 1];
      var d := ds[|ds| - 1];
      assert init + [d] == ds;
      assert d !in init;
      assert forall x :: x in init ==> x in ds;
      assert d in ds;
      RestoreDefsAtOnce(st, body, incs, exit, dom, init);
      RestoreDefStep(st, body, incs, exit, dom, init, d);
    }
  }

  /** `restoreSSA`, summed up, when the loop's values are fresh and the exit block is a block outside the loop. */
  lemma RestoredSsaIsAtOnce(st: IrState, body: seq<BlockId>, incs: seq<BlockId>, exit: BlockId,
                            dom: (ValueId, BlockId) -> bool)
    requires LoopValuesFresh(st, body) && exit !in body && exit in st.blocks
    ensures RestoredSsa(st, body, incs, exit, dom) ==
            RestoredAtOnce(st, body, incs, exit, dom, ExternalDefs(st, body, exit))
  {
    ExternalDefsBelow(st, body, exit);
    RestoreDefsAtOnce(st, body, incs, exit, dom, ExternalDefs(st, body, exit));
  }

  lemma {:induction false} PrependPhisShape(st: IrState, body: seq<BlockId>, insts: seq<Inst>, defs: seq<ValueId>,
                                            base: ValueId, incs: seq<BlockId>, dom: (ValueId, BlockId) -> bool)
    ensures var r := PrependPhis(st, body, insts, defs, base, incs, dom);
      |r| == |defs| + |insts| && r[|defs|..] == insts &&
      forall k :: 0 <= k < |defs| ==>
        r[|defs| - 1 - k] == NewPhi(base + k, defs[k], HomeIn(st, defs[k], body), incs, dom)
    decreases |defs|
  {
    if defs != [] {
      var k := |defs| - 1;
      PrependPhisShape(st, body, insts, defs[..k], base, incs, dom);
    }
  }

  /**
   * The phis `restoreSSA` creates: the exit block starts with one phi per
   * definition used outside, the latest first, followed by its old
   * instructions.  Along each incoming block the phi for `d` takes `d` when
   * `d` is defined in that block or dominates it, and poison otherwise.
   */
  lemma RestoredPhis(st: IrState, body: seq<BlockId>, incs: seq<BlockId>, exit: BlockId,
                     dom: (ValueId, BlockId) -> bool)
    requires LoopValuesFresh(st, body) && exit !in body && exit in st.blocks
    ensures var r := RestoredSsa(st, body, incs, exit, dom);
      var defs := ExternalDefs(st, body, exit);
      var insts := BlockAt(r, exit).insts;
      |insts| == |defs| + |BlockIn(st.blocks, exit).insts| &&
      insts[|defs|..] == BlockIn(st.blocks, exit).insts &&
      forall k :: 0 <= k < |defs| ==>
        var phi := insts[|defs| - 1 - k];
        var home := HomeIn(st, defs[k], body);
        phi.id == st.nextValue + k && phi.opcode == Phi(incs) && |phi.operands| == |incs| &&
        home.Some? &&
        forall i :: 0 <= i < |incs| ==>
          phi.operands[i] == (if home.value == incs[i] || dom(defs[k], incs[i]) then Local(defs[k]) else Poison)
  {
    var defs := ExternalDefs(st, body, exit);
    RestoredSsaIsAtOnce(st, body, incs, exit, dom);
    var r := RestoredAtOnce(st, body, incs, exit, dom, defs);
    var e := BlockIn(st.blocks, exit);
    assert BlockAt(r, exit).insts == PrependPhis(st, body, e.insts, defs, st.nextValue, incs, dom);
    PrependPhisShape(st, body, e.insts, defs, st.nextValue, incs, dom);
    ExternalDefsExactly(st, body, exit);
    forall k | 0 <= k < |defs| ensures HomeIn(st, defs[k], body).Some? {
      assert defs[k] in defs;
      DefinedInSomeBlock(st.blocks, body, defs[k]);
    }
    forall k, i | 0 <= k < |defs| && 0 <= i < |incs|
      ensures NewPhi(st.nextValue + k, defs[k], HomeIn(st, defs[k], body), incs, dom).operands[i] ==
        (if HomeIn(st, defs[k], body).value == incs[i] || dom(defs[k], incs[i]) then Local(defs[k]) else Poison)
    {
    }
  }

  /** A value defined in the blocks `bs` is defined in one of them. */
  lemma {:induction false} DefinedInSomeBlock(m: map<BlockId, Block>, bs: seq<BlockId>, d: ValueId)
    requires d in DefinedIn(m, bs)
    ensures exists b :: b in bs && d in BlockDefs(BlockIn(m, b))
    decreases |bs|
  {
    var last := bs[|bs| - 1];
    if d !in BlockDefs(BlockIn(m, last)) {
      DefinedInSomeBlock(m, bs[..|bs| - 1], d);
      var b :| b in bs[..|bs| - 1] && d in BlockDefs(BlockIn(m, b));
      assert b in bs;
    } else {
      assert last in bs;
    }
  }

  /**
   * The uses `restoreSSA` redirects: blocks of the loop are kept as they
   * were, and in every other block but the exit each use of the k-th
   * definition used outside becomes a use of its phi, while every other
   * operand is kept.
   */
  lemma RestoredUses(st: IrState, body: seq<BlockId>, incs: seq<BlockId>, exit: BlockId,
                     dom: (ValueId, BlockId) -> bool)
    requires LoopValuesFresh(st, body) && exit !in body && exit in st.blocks
    ensures var r := RestoredSsa(st, body, incs, exit, dom);
      var defs := ExternalDefs(st, body, exit);
      var pm := ArgAddrMap(defs, st.nextValue);
      (forall b :: b in st.blocks && b in body && b != exit ==> BlockAt(r, b) == st.blocks[b]) &&
      (forall b :: b in st.blocks && RedirectsIn(body, exit, b) ==> BlockAt(r, b) == RewriteBlock(st.blocks[b], pm)) &&
      (forall k :: 0 <= k < |defs| ==> Rewritten(Local(defs[k]), pm) == Local(st.nextValue + k)) &&
      (forall op: Operand :: !(op.Local? && op.id in defs) ==> Rewritten(op, pm) == op)
  {
    var defs := ExternalDefs(st, body, exit);
    var pm := ArgAddrMap(defs, st.nextValue);
    RestoredSsaIsAtOnce(st, body, incs, exit, dom);
    ExternalDefsExactly(st, body, exit);
    ArgAddrMapOrder(defs, st.nextValue);
    forall k | 0 <= k < |defs| ensures Rewritten(Local(defs[k]), pm) == Local(st.nextValue + k) {
      assert defs[k] in defs;
    }
  }

  /**
   * After `restoreSSA`, no block where uses are redirected reads any of the
   * definitions it found used outside the loop: every such use now reads the
   * definition's phi.
   */
  lemma RestoredNoOutsideUse(st: IrState, body: seq<BlockId>, incs: seq<BlockId>, exit: BlockId,
                             dom: (ValueId, BlockId) -> bool)
    requires LoopValuesFresh(st, body) && exit !in body && exit in st.blocks
    ensures forall d :: d in ExternalDefs(st, body, exit) ==>
      !UsedOutside(RestoredSsa(st, body, incs, exit, dom), body, exit, d)
  {
    var defs := ExternalDefs(st, body, exit);
    var pm := ArgAddrMap(defs, st.nextValue);
    RestoredSsaIsAtOnce(st, body, incs, exit, dom);
    var r := RestoredAtOnce(st, body, incs, exit, dom, defs);
    ExternalDefsBelow(st, body, exit);
    ArgAddrMapOrder(defs, st.nextValue);
    forall x | x in pm ensures pm[x] !in pm {
      var k :| 0 <= k < |defs| && defs[k] == x;
      assert pm[x] >= st.nextValue;
    }
    forall d | d in defs ensures !UsedOutside(r, body, exit, d) {
      forall b | b in r.blocks && RedirectsIn(body, exit, b) ensures Local(d) !in OperandsOf(r.blocks[b]) {
        assert b in st.blocks;
        RewriteRemovesKeys(st.blocks[b], pm);
        assert r.blocks[b] == RewriteBlock(st.blocks[b], pm);
      }
    }
  }

  // ---- unifyLoopExits ---------------------------------------------------

  /**
   * What `CreateControlFlowHub` produces: the new blocks and layouts, the
   * guard blocks it created, the block it returns, and the next free ids.
   * It does not update the loop nest.
   */
  datatype Hub = Hub(blocks: map<BlockId, Block>, fns: seq<Fn>, guards: seq<BlockId>, unified: BlockId,
                     nextBlock: BlockId, nextValue: ValueId)

  /** `addBasicBlockToLoop(g)` on loop `j`: `g` is appended to `j` and each of its ancestors. */
  function AddToChain(loops: seq<Loop>, j: nat, g: BlockId): (r: seq<Loop>)
    ensures |r| == |loops|
    decreases j
  {
    if j >= |loops| then loops
    else
      var loops' := loops[j := loops[j].(blocks := loops[j].blocks + [g])];
      var p := loops[j].parent;
      if p.Some? && p.value < j then AddToChain(loops', p.value, g) else loops'
  }

  /** `AddToChain` for each guard block in turn. */
  function AddGuards(loops: seq<Loop>, j: nat, guards: seq<BlockId>): (r: seq<Loop>)
    ensures |r| == |loops|
    decreases |guards|
  {
    if guards == [] then loops
    else AddToChain(AddGuards(loops, j, guards[..|guards| - 1]), j, guards[|guards| - 1])
  }

  lemma {:induction false} AddToChainEffect(loops: seq<Loop>, j: nat, g: BlockId)
    requires j < |loops|
    ensures var r := AddToChain(loops, j, g);
      forall i :: 0 <= i < |loops| ==>
        r[i] == (if Encloses(loops, i, j) then loops[i].(blocks := loops[i].blocks + [g]) else loops[i])
    decreases j
  {
    var loops' := loops[j := loops[j].(blocks := loops[j].blocks + [g])];
    var p := loops[j].parent;
    if p.Some? && p.value < j {
      AddToChainEffect(loops', p.value, g);
      forall i | 0 <= i < |loops| ensures Encloses(loops', i, p.value) <==> Encloses(loops, i, p.value) {
        EnclosesSameParents(loops, loops', i, p.value);
      }
      if Encloses(loops, j, p.value) {
        EnclosesBelow(loops, j, p.value);
      }
    }
  }

  /**
   * After the guards are added to loop `j`, `j` and each of its ancestors
   * end with the guard blocks in order, and every other loop is untouched;
   * no parent link changes.
   */
  lemma {:induction false} AddGuardsEffect(loops: seq<Loop>, j: nat, guards: seq<BlockId>)
    requires j < |loops|
    ensures var r := AddGuards(loops, j, guards);
      forall i :: 0 <= i < |loops| ==>
        r[i].parent == loops[i].parent &&
        r[i] == (if Encloses(loops, i, j) then loops[i].(blocks := loops[i].blocks + guards) else loops[i])
    decreases |guards|
  {
    if guards != [] {
      var init := guards[..|guards| - 1];
      var mid := AddGuards(loops, j, init);
      AddGuardsEffect(loops, j, init);
      AddToChainEffect(mid, j, guards[|guards| - 1]);
      forall i | 0 <= i < |loops| ensures Encloses(mid, i, j) <==> Encloses(loops, i, j) {
        EnclosesSameParents(loops, mid, i, j);
      }
      forall i | 0 <= i < |loops| && Encloses(loops, i, j)
        ensures loops[i].blocks + init + [guards[|guards| - 1]] == loops[i].blocks + guards
      {
        assert init + [guards[|guards| - 1]] == guards;
      }
    }
  }

  /**
   * The state after `unifyLoopExits` and whether it changed anything: with
   * at most one exit block nothing is done; otherwise the hub is built, SSA
   * is restored around its unified exit block, and the guard blocks join the
   * parent loop and its ancestors.
   */
  function UnifiedLoopExits(st: IrState, l: nat,
                            hub: (IrState, seq<BlockId>, seq<BlockId>) -> Hub,
                            dom: (ValueId, BlockId) -> bool): (r: (IrState, bool))
    requires l < |st.loops|
    ensures |r.0.loops| == |st.loops|
  {
    var exiting := Dedup(ExitingBlocks(st, l));
    var exits := ExitBlocks(st, l);
    if |exits| <= 1 then (st, false)
    else
      var h := hub(st, exiting, exits);
      var st1 := st.(blocks := h.blocks, fns := h.fns, nextBlock := h.nextBlock, nextValue := h.nextValue);
      var st2 := RestoredSsa(st1, st.loops[l].blocks, exiting, h.unified, dom);
      var p := st.loops[l].parent;
      (if p.Some? then st2.(loops := AddGuards(st2.loops, p.value, h.guards)) else st2, true)
  }

  /**
   * `unifyLoopExits` reports a change exactly when the loop has two or more
   * exit blocks, and leaves the state alone otherwise; in a well-formed nest
   * a loop whose exit edges all reach one block is therefore never touched.
   */
  lemma UnifyChangesIffManyExits(st: IrState, l: nat,
                                 hub: (IrState, seq<BlockId>, seq<BlockId>) -> Hub,
                                 dom: (ValueId, BlockId) -> bool)
    requires l < |st.loops|
    ensures var (r, changed) := UnifiedLoopExits(st, l, hub, dom);
      (changed <==> |ExitBlocks(st, l)| >= 2) && (!changed ==> r == st)
    ensures NestWellFormed(st.loops) && UniqueExitBlock(st, l).Some? ==> UnifiedLoopExits(st, l, hub, dom) == (st, false)
  {
    if NestWellFormed(st.loops) {
      OneExitBlockIffUniqueExitBlock(st, l);
    }
  }

  /**
   * After a change, the hub received the exiting blocks (each once, those
   * with an edge leaving the loop) and the exit blocks (each once, every
   * target of such an edge); the loop nest differs only in the guard blocks
   * appended to the parent and its ancestors.
   */
  lemma UnifyHandsHubTheExits(st: IrState, l: nat,
                              hub: (IrState, seq<BlockId>, seq<BlockId>) -> Hub,
                              dom: (ValueId, BlockId) -> bool)
    requires NestWellFormed(st.loops) && l < |st.loops|
    requires |ExitBlocks(st, l)| >= 2
    ensures var body := st.loops[l].blocks;
      var exiting := Dedup(ExitingBlocks(st, l));
      var h := hub(st, exiting, ExitBlocks(st, l));
      var r := UnifiedLoopExits(st, l, hub, dom).0;
      NoDuplicates(exiting) &&
      (forall b :: b in exiting <==> b in body && LeavesBody(st, body, b)) &&
      (forall x :: x in ExitBlocks(st, l) <==> IsExit(st, body, x)) &&
      |r.loops| == |st.loops| &&
      forall i :: 0 <= i < |st.loops| ==>
        r.loops[i] == (if st.loops[l].parent.Some? && Encloses(st.loops, i, st.loops[l].parent.value)
                       then st.loops[i].(blocks := st.loops[i].blocks + h.guards)
                       else st.loops[i])
  {
    ExitBlocksAreExits(st, l);
    var p := st.loops[l].parent;
    if p.Some? {
      assert p.value < l;
      AddGuardsEffect(st.loops, p.value, hub(st, Dedup(ExitingBlocks(st, l)), ExitBlocks(st, l)).guards);
    }
  }
}
