/**
 * An abstract picture of the LLVM IR the loop passes work on.
 *
 * Basic blocks are named by `BlockId`s and the values instructions produce by
 * `ValueId`s; every operand is tagged with the kind of value it is, which is
 * all the passes look at.  A loop is its block list (header first, in the
 * order `Loop::blocks()` yields them), its parent in the loop nest and its
 * `llvm.loop` metadata.  The queries at the end of the module are the parts of
 * the LLVM `Loop` API the passes call (`getExitingBlocks`, `getExitBlock`,
 * `getLoopPreheader`, `getLoopLatch`, ...), written out over this picture.
 */
module Ir {
  type BlockId = nat
  type ValueId = nat

  datatype Option<T> = None | Some(value: T)

  /** An operand of an instruction, tagged by the kind of value it is. */
  datatype Operand =
    | Label(block: BlockId)            // a basic block used as a value (label type)
    | Global(name: string)             // a global variable or a function declaration
    | Function(index: nat)             // the address of a function the passes created
    | Constant(value: int)             // an integer constant
    | Poison                           // the poison constant
    | Local(id: ValueId)               // an instruction result or a function argument

  /** Labels, global values and constants; everything else is a local variable. */
  predicate IsLocal(op: Operand)
  {
    op.Local?
  }

  predicate IsGlobalValue(op: Operand)
  {
    op.Global? || op.Function?
  }

  /** Global values are constants too in LLVM; poison is a constant. */
  predicate IsConstant(op: Operand)
  {
    op.Global? || op.Function? || op.Constant? || op.Poison?
  }

  datatype Opcode =
    | Phi(incoming: seq<BlockId>)      // incoming blocks, parallel to the operands
    | VaArg                            // va_arg on the function's va_list argument
    | Call(callee: string)
    | Other(code: nat)

  datatype Inst = Inst(id: ValueId, opcode: Opcode, operands: seq<Operand>)

  datatype TermKind = Br | Switch | Ret | OtherTerminator

  /**
   * A terminator.  `succs` are its successor labels in successor order; the
   * label operands of a branch are represented by this list only.
   */
  datatype Terminator = Terminator(id: ValueId, kind: TermKind, succs: seq<BlockId>, operands: seq<Operand>)

  datatype Block = Block(insts: seq<Inst>, term: Terminator)

  /** An operand of an `MDNode`: a metadata string, or anything else. */
  datatype MdOperand = MdString(str: string) | MdOther

  datatype MdNode = MdNode(operands: seq<MdOperand>)

  /**
   * A loop of the loop nest.  `loopId` is the `llvm.loop` node's operand list;
   * its first operand is the node's reference to itself.
   */
  datatype Loop = Loop(blocks: seq<BlockId>, parent: Option<nat>, loopId: Option<seq<MdNode>>)

  /** A function: its name and its block list, entry block first. */
  datatype Fn = Fn(name: string, layout: seq<BlockId>)

  /**
   * The IR of a module: the contents of every basic block, the functions,
   * the loop nest of the host function in preorder (`fns[0]` is the host
   * function), the names of the named local values, and the next unused
   * block and value ids.
   */
  datatype IrState = IrState(
    blocks: map<BlockId, Block>,
    fns: seq<Fn>,
    loops: seq<Loop>,
    names: map<ValueId, string>,
    nextBlock: BlockId,
    nextValue: ValueId)

  /** `Value::getName`: empty for unnamed values, constants and poison. */
  function NameOf(st: IrState, op: Operand): string
  {
    match op
    case Label(_) => ""
    case Global(n) => n
    case Function(k) => if k < |st.fns| then st.fns[k].name else ""
    case Constant(_) => ""
    case Poison => ""
    case Local(id) => if id in st.names then st.names[id] else ""
  }

  /** A block with no instructions and no successors, for ids that name no block. */
  const NoBlock := Block([], Terminator(0, OtherTerminator, [], []))

  function BlockAt(st: IrState, b: BlockId): Block
  {
    if b in st.blocks then st.blocks[b] else NoBlock
  }

  function Succs(st: IrState, b: BlockId): seq<BlockId>
  {
    BlockAt(st, b).term.succs
  }

  /** Every operand an instruction or terminator of `blk` reads. */
  function OperandsOf(blk: Block): seq<Operand>
  {
    InstOperands(blk.insts) + blk.term.operands
  }

  function InstOperands(insts: seq<Inst>): seq<Operand>
    decreases |insts|
  {
    if insts == [] then [] else InstOperands(insts[..|insts| - 1]) + insts[|insts| - 1].operands
  }

  /**
   * The state is closed and its counters are fresh: placed blocks, loop blocks
   * and successors name existing blocks, all below `nextBlock`; instruction,
   * terminator and operand value ids are below `nextValue`; and a loop's
   * parent comes before it in preorder.
   */
  ghost predicate Valid(st: IrState)
  {
    (forall b :: b in st.blocks ==> b < st.nextBlock) &&
    (forall b :: b in Placed(st.fns) ==> b in st.blocks) &&
    (forall b, s :: b in st.blocks && s in st.blocks[b].term.succs ==> s in st.blocks) &&
    (forall j, b :: 0 <= j < |st.loops| && b in st.loops[j].blocks ==> b in st.blocks) &&
    (forall b :: b in st.blocks ==> ValuesBelow(st.blocks[b], st.nextValue)) &&
    ParentsBefore(st.loops)
  }

  ghost predicate ValuesBelow(blk: Block, n: ValueId)
  {
    blk.term.id < n &&
    (forall i :: 0 <= i < |blk.insts| ==> blk.insts[i].id < n) &&
    (forall op :: op in OperandsOf(blk) && op.Local? ==> op.id < n)
  }

  // ---- sequence helpers -------------------------------------------------

  /** Every occurrence of `x` in `s` replaced by `y`. */
  function ReplaceAll(s: seq<BlockId>, x: BlockId, y: BlockId): (r: seq<BlockId>)
    ensures |r| == |s|
    ensures forall i :: 0 <= i < |s| ==> r[i] == (if s[i] == x then y else s[i])
  {
    if s == [] then [] else [if s[0] == x then y else s[0]] + ReplaceAll(s[1..], x, y)
  }

  /** `s` without any occurrence of `x`. */
  function RemoveAll<T(==,!new)>(s: seq<T>, x: T): (r: seq<T>)
    ensures x !in r
    ensures forall y :: y in r <==> y in s && y != x
    ensures |r| <= |s|
  {
    if s == [] then [] else (if s[0] == x then [] else [s[0]]) + RemoveAll(s[1..], x)
  }

  /** `s` without any element of `xs`. */
  function RemoveEach<T(==,!new)>(s: seq<T>, xs: seq<T>): (r: seq<T>)
    ensures forall y :: y in r <==> y in s && y !in xs
    decreases |xs|
  {
    if xs == [] then s else RemoveEach(RemoveAll(s, xs[0]), xs[1..])
  }

  /** `SetVector::insert`: append `x` unless it is already there. */
  function Insert<T(==,!new)>(s: seq<T>, x: T): (r: seq<T>)
    ensures x in r
    ensures forall y :: y in r <==> y in s || y == x
  {
    if x in s then s else s + [x]
  }

  predicate NoDuplicates<T(==)>(s: seq<T>)
  {
    forall i, j :: 0 <= i < j < |s| ==> s[i] != s[j]
  }

  /** A sequence with two or more entries and no repeats has two different entries. */
  lemma TwoDistinct<T(!new)>(s: seq<T>)
    requires |s| >= 2 && NoDuplicates(s)
    ensures s[0] in s && s[1] in s && s[0] != s[1]
  {
  }

  /** A sequence without repeats whose entries all equal `x` has at most one entry. */
  lemma AtMostOne<T(!new)>(s: seq<T>, x: T)
    requires NoDuplicates(s) && forall y :: y in s ==> y == x
    ensures |s| <= 1
  {
    if |s| >= 2 {
      TwoDistinct(s);
      assert false;
    }
  }

  lemma InsertKeepsNoDuplicates<T(!new)>(s: seq<T>, x: T)
    requires NoDuplicates(s)
    ensures NoDuplicates(Insert(s, x))
  {
  }

  // ---- the Loop API -----------------------------------------------------

  /** `Loop::getHeader`: the first block of the loop. */
  function Header(lp: Loop): Option<BlockId>
  {
    if |lp.blocks| > 0 then Some(lp.blocks[0]) else None
  }

  /** Whether some successor of `b` lies outside the block list `body`. */
  predicate LeavesBody(st: IrState, body: seq<BlockId>, b: BlockId)
  {
    exists s :: s in Succs(st, b) && s !in body
  }

  /** `Loop::getExitingBlocks`: the loop blocks with a successor outside the loop, in loop order. */
  function ExitingBlocksIn(st: IrState, body: seq<BlockId>, bs: seq<BlockId>): (r: seq<BlockId>)
    ensures forall b :: b in r <==> b in bs && LeavesBody(st, body, b)
    decreases |bs|
  {
    if bs == [] then []
    else (if LeavesBody(st, body, bs[0]) then [bs[0]] else []) + ExitingBlocksIn(st, body, bs[1..])
  }

  function ExitingBlocks(st: IrState, l: nat): seq<BlockId>
    requires l < |st.loops|
  {
    ExitingBlocksIn(st, st.loops[l].blocks, st.loops[l].blocks)
  }

  /** The successors of `b` outside `body`, with repeats, in successor order. */
  function ExitEdges(body: seq<BlockId>, succs: seq<BlockId>): (r: seq<BlockId>)
    ensures forall s :: s in r <==> s in succs && s !in body
  {
    if succs == [] then []
    else (if succs[0] !in body then [succs[0]] else []) + ExitEdges(body, succs[1..])
  }

  /** Whether `s` is the target of an edge from a block of `body` to a block outside it. */
  predicate IsExit(st: IrState, body: seq<BlockId>, s: BlockId)
  {
    exists b :: b in body && s in Succs(st, b) && s !in body
  }

  /** `Loop::getExitBlocks`: the targets of all edges leaving the loop, with repeats. */
  function ExitTargets(st: IrState, body: seq<BlockId>, bs: seq<BlockId>): (r: seq<BlockId>)
    ensures forall s :: s in r <==> exists b :: b in bs && s in Succs(st, b) && s !in body
  {
    if bs == [] then []
    else
      var r := ExitEdges(body, Succs(st, bs[0])) + ExitTargets(st, body, bs[1..]);
      assert forall s :: s in r <==> exists b :: b in bs && s in Succs(st, b) && s !in body by {
        forall s | s in r ensures exists b :: b in bs && s in Succs(st, b) && s !in body {
          if s in ExitEdges(body, Succs(st, bs[0])) {
            assert bs[0] in bs;
          } else {
            var b :| b in bs[1..] && s in Succs(st, b) && s !in body;
            assert b in bs;
          }
        }
        forall s | exists b :: b in bs && s in Succs(st, b) && s !in body ensures s in r {
          var b :| b in bs && s in Succs(st, b) && s !in body;
          if b != bs[0] {
            assert b in bs[1..];
          }
        }
      }
      r
  }

  /** The single element every entry of `s` equals, if `s` is non-empty and constant. */
  function Singleton(s: seq<BlockId>): (r: Option<BlockId>)
    ensures r.Some? <==> |s| > 0 && forall i :: 0 <= i < |s| ==> s[i] == s[0]
    ensures r.Some? ==> forall x :: x in s <==> x == r.value
  {
    if |s| > 0 && forall i :: 0 <= i < |s| ==> s[i] == s[0] then Some(s[0]) else None
  }

  /** A non-empty sequence whose elements are all `x` is what `Singleton` recognises. */
  lemma SingletonOf(s: seq<BlockId>, x: BlockId)
    requires x in s && forall y :: y in s ==> y == x
    ensures Singleton(s) == Some(x)
  {
    forall i | 0 <= i < |s| ensures s[i] == s[0] {
      assert s[i] in s && s[0] in s;
    }
  }

  /** The entry of `s`, if it has exactly one. */
  function SoleEntry(s: seq<BlockId>): (r: Option<BlockId>)
    ensures r.Some? <==> |s| == 1
    ensures r.Some? ==> forall x :: x in s <==> x == r.value
  {
    if |s| == 1 then Some(s[0]) else None
  }

  /**
   * `Loop::getExitBlock`: the exit block when exactly one edge leaves the
   * loop, and nothing otherwise; two edges leaving the loop give nothing even
   * when they reach the same block.
   */
  function ExitBlock(st: IrState, l: nat): (r: Option<BlockId>)
    requires l < |st.loops|
  {
    var body := st.loops[l].blocks;
    SoleEntry(ExitTargets(st, body, body))
  }

  /**
   * `Loop::getUniqueExitBlock`: the exit block when every edge leaving the
   * loop goes to one and the same block, and nothing otherwise.
   */
  function UniqueExitBlock(st: IrState, l: nat): (r: Option<BlockId>)
    requires l < |st.loops|
  {
    var body := st.loops[l].blocks;
    Singleton(ExitTargets(st, body, body))
  }

  /** Successor i of block bs[k] is the target of an edge leaving `body`. */
  predicate ExitEdgeAt(st: IrState, body: seq<BlockId>, bs: seq<BlockId>, k: int, i: int)
  {
    0 <= k < |bs| && 0 <= i < |Succs(st, bs[k])| && Succs(st, bs[k])[i] !in body
  }

  /** Exactly one successor position of the blocks `bs` leaves `body`. */
  ghost predicate OneExitEdge(st: IrState, body: seq<BlockId>, bs: seq<BlockId>)
  {
    exists k, i :: ExitEdgeAt(st, body, bs, k, i) &&
      forall k', i' :: ExitEdgeAt(st, body, bs, k', i') ==> k' == k && i' == i
  }

  /** Exactly one position of `succs` holds a block outside `body`. */
  ghost predicate OneOutside(body: seq<BlockId>, succs: seq<BlockId>)
  {
    exists i :: 0 <= i < |succs| && succs[i] !in body && forall j :: 0 <= j < |succs| && succs[j] !in body ==> j == i
  }

  /** When the first successor leaves `body`, it is the only one that does exactly when the rest stay inside. */
  lemma OneOutsideAtHead(body: seq<BlockId>, succs: seq<BlockId>)
    requires succs != [] && succs[0] !in body
    ensures OneOutside(body, succs) <==> |ExitEdges(body, succs[1..])| == 0
    ensures |ExitEdges(body, succs)| == 1 + |ExitEdges(body, succs[1..])|
  {
    var tl := succs[1..];
    if |ExitEdges(body, tl)| != 0 {
      var x := ExitEdges(body, tl)[0];
      assert x in ExitEdges(body, tl);
      var j :| 0 <= j < |tl| && tl[j] == x;
      assert succs[j + 1] == tl[j];
    } else {
      assert forall j :: 0 < j < |succs| ==> succs[j] == tl[j - 1];
      forall j | 0 <= j < |tl| ensures tl[j] in body {
        assert tl[j] in tl;
      }
      forall j | 0 <= j < |succs| && succs[j] !in body ensures j == 0 {
      }
    }
  }

  /** When the first successor stays inside `body`, exactly one position leaves it exactly when one in the rest does. */
  lemma OneOutsideInTail(body: seq<BlockId>, succs: seq<BlockId>)
    requires succs != [] && succs[0] in body
    ensures OneOutside(body, succs) <==> OneOutside(body, succs[1..])
    ensures |ExitEdges(body, succs)| == |ExitEdges(body, succs[1..])|
  {
    var tl := succs[1..];
    if OneOutside(body, succs) {
      var i :| 0 <= i < |succs| && succs[i] !in body && forall j :: 0 <= j < |succs| && succs[j] !in body ==> j == i;
      assert tl[i - 1] !in body;
      forall j | 0 <= j < |tl| && tl[j] !in body ensures j == i - 1 {
        assert succs[j + 1] == tl[j];
      }
    }
    if OneOutside(body, tl) {
      var i :| 0 <= i < |tl| && tl[i] !in body && forall j :: 0 <= j < |tl| && tl[j] !in body ==> j == i;
      assert succs[i + 1] == tl[i];
      forall j | 0 <= j < |succs| && succs[j] !in body ensures j == i + 1 {
        assert tl[j - 1] == succs[j];
      }
    }
  }

  /** A successor list has one entry outside `body` exactly when exactly one position leaves it. */
  lemma {:induction false} ExitEdgesOne(body: seq<BlockId>, succs: seq<BlockId>)
    ensures |ExitEdges(body, succs)| == 1 <==> OneOutside(body, succs)
    decreases |succs|
  {
    if succs != [] {
      ExitEdgesOne(body, succs[1..]);
      if succs[0] !in body {
        OneOutsideAtHead(body, succs);
      } else {
        OneOutsideInTail(body, succs);
      }
    }
  }

  /** A successor list has no entry outside `body` exactly when no position leaves it. */
  lemma ExitEdgesEmpty(body: seq<BlockId>, succs: seq<BlockId>)
    ensures |ExitEdges(body, succs)| == 0 <==> forall i :: 0 <= i < |succs| ==> succs[i] in body
  {
    var e := ExitEdges(body, succs);
    if |e| != 0 {
      assert e[0] in e;
    }
    forall i | 0 <= i < |succs| && succs[i] !in body ensures |e| != 0 {
      assert succs[i] in e;
    }
  }

  /** `getExitBlocks` returns nothing exactly when no successor position of `bs` leaves `body`. */
  lemma ExitTargetsEmpty(st: IrState, body: seq<BlockId>, bs: seq<BlockId>)
    ensures |ExitTargets(st, body, bs)| == 0 <==> forall k, i :: !ExitEdgeAt(st, body, bs, k, i)
  {
    var t := ExitTargets(st, body, bs);
    if |t| != 0 {
      var x := t[0];
      assert x in t;
      var b :| b in bs && x in Succs(st, b) && x !in body;
      var k :| 0 <= k < |bs| && bs[k] == b;
      var i :| 0 <= i < |Succs(st, b)| && Succs(st, b)[i] == x;
      assert ExitEdgeAt(st, body, bs, k, i);
    }
    forall k, i | ExitEdgeAt(st, body, bs, k, i) ensures |t| != 0 {
      assert bs[k] in bs && Succs(st, bs[k])[i] in Succs(st, bs[k]);
      assert Succs(st, bs[k])[i] in t;
    }
  }

  /** The exit positions of `bs` are those of its first block and, shifted by one, those of the rest. */
  lemma ExitEdgeShift(st: IrState, body: seq<BlockId>, bs: seq<BlockId>)
    requires bs != []
    ensures forall k, i :: 0 <= k ==> (ExitEdgeAt(st, body, bs[1..], k, i) <==> ExitEdgeAt(st, body, bs, k + 1, i))
    ensures forall i :: ExitEdgeAt(st, body, bs, 0, i) <==> 0 <= i < |Succs(st, bs[0])| && Succs(st, bs[0])[i] !in body
    ensures |ExitTargets(st, body, bs)| == |ExitEdges(body, Succs(st, bs[0]))| + |ExitTargets(st, body, bs[1..])|
  {
    assert forall k :: 0 <= k < |bs[1..]| ==> bs[1..][k] == bs[k + 1];
  }

  /** The one exit position of the first block, with none in the rest, is the one exit position of `bs`. */
  lemma OneExitEdgeAtHead(st: IrState, body: seq<BlockId>, bs: seq<BlockId>)
    requires bs != [] && |ExitEdges(body, Succs(st, bs[0]))| == 1
    requires forall k, i :: !ExitEdgeAt(st, body, bs[1..], k, i)
    ensures OneExitEdge(st, body, bs)
  {
    var succs, rest := Succs(st, bs[0]), bs[1..];
    ExitEdgesOne(body, succs);
    ExitEdgeShift(st, body, bs);
    var i :| 0 <= i < |succs| && succs[i] !in body && forall j :: 0 <= j < |succs| && succs[j] !in body ==> j == i;
    assert ExitEdgeAt(st, body, bs, 0, i);
    forall k', i' | ExitEdgeAt(st, body, bs, k', i') ensures k' == 0 && i' == i {
      assert k' > 0 ==> ExitEdgeAt(st, body, rest, k' - 1, i');
    }
  }

  /** With no exit position in the first block, the one exit position of the rest is that of `bs`. */
  lemma OneExitEdgeInTail(st: IrState, body: seq<BlockId>, bs: seq<BlockId>)
    requires bs != [] && forall i :: !ExitEdgeAt(st, body, bs, 0, i)
    requires OneExitEdge(st, body, bs[1..])
    ensures OneExitEdge(st, body, bs)
  {
    ExitEdgeShift(st, body, bs);
    var k, i :| ExitEdgeAt(st, body, bs[1..], k, i) &&
      forall k', i' :: ExitEdgeAt(st, body, bs[1..], k', i') ==> k' == k && i' == i;
    assert ExitEdgeAt(st, body, bs, k + 1, i);
    forall k', i' | ExitEdgeAt(st, body, bs, k', i') ensures k' == k + 1 && i' == i {
      assert k' != 0;
      assert ExitEdgeAt(st, body, bs[1..], k' - 1, i');
    }
  }

  /** The one exit position of `bs` lies either in the first block, alone, or in the rest. */
  lemma OneExitEdgeSplit(st: IrState, body: seq<BlockId>, bs: seq<BlockId>)
    requires bs != [] && OneExitEdge(st, body, bs)
    ensures (|ExitEdges(body, Succs(st, bs[0]))| == 1 && forall k, i :: !ExitEdgeAt(st, body, bs[1..], k, i)) ||
            ((forall i :: !ExitEdgeAt(st, body, bs, 0, i)) && OneExitEdge(st, body, bs[1..]))
  {
    var succs := Succs(st, bs[0]);
    ExitEdgesOne(body, succs);
    ExitEdgeShift(st, body, bs);
    var k, i :| ExitEdgeAt(st, body, bs, k, i) &&
      forall k', i' :: ExitEdgeAt(st, body, bs, k', i') ==> k' == k && i' == i;
    if k == 0 {
      forall k', i' | 0 <= k' ensures !ExitEdgeAt(st, body, bs[1..], k', i') {
        assert ExitEdgeAt(st, body, bs[1..], k', i') ==> ExitEdgeAt(st, body, bs, k' + 1, i');
      }
      assert succs[i] !in body;
    } else {
      assert ExitEdgeAt(st, body, bs[1..], k - 1, i);
      forall k', i' | ExitEdgeAt(st, body, bs[1..], k', i') ensures k' == k - 1 && i' == i {
        assert ExitEdgeAt(st, body, bs, k' + 1, i');
      }
    }
  }

  /** `getExitBlocks` returns one entry exactly when one successor position of `bs` leaves `body`. */
  lemma {:induction false} ExitTargetsOne(st: IrState, body: seq<BlockId>, bs: seq<BlockId>)
    ensures |ExitTargets(st, body, bs)| == 1 <==> OneExitEdge(st, body, bs)
    decreases |bs|
  {
    if bs == [] {
      assert forall k, i :: !ExitEdgeAt(st, body, bs, k, i);
    } else {
      var succs := Succs(st, bs[0]);
      ExitTargetsOne(st, body, bs[1..]);
      ExitEdgesEmpty(body, succs);
      ExitTargetsEmpty(st, body, bs[1..]);
      ExitEdgeShift(st, body, bs);
      if OneExitEdge(st, body, bs) {
        OneExitEdgeSplit(st, body, bs);
      }
      if |ExitTargets(st, body, bs)| == 1 {
        if |ExitEdges(body, succs)| == 1 {
          OneExitEdgeAtHead(st, body, bs);
        } else {
          OneExitEdgeInTail(st, body, bs);
        }
      }
    }
  }

  /**
   * `getExitBlock` finds a block exactly when one edge leaves the loop, and
   * then it is that edge's target; what it finds `getUniqueExitBlock` finds
   * too.
   */
  lemma ExitBlockIffOneExitEdge(st: IrState, l: nat)
    requires l < |st.loops|
    ensures var body := st.loops[l].blocks;
      ExitBlock(st, l).Some? <==> OneExitEdge(st, body, body)
    ensures var body := st.loops[l].blocks;
      ExitBlock(st, l).Some? ==>
        (forall k, i :: ExitEdgeAt(st, body, body, k, i) ==> Succs(st, body[k])[i] == ExitBlock(st, l).value) &&
        UniqueExitBlock(st, l) == ExitBlock(st, l)
  {
    var body := st.loops[l].blocks;
    ExitTargetsOne(st, body, body);
    ExitBlockIsUnique(st, l);
    ExitEdgeTargets(st, body, body);
  }

  /** When `getExitBlocks` returns one entry, every edge from `bs` leaving `body` goes there. */
  lemma ExitEdgeTargets(st: IrState, body: seq<BlockId>, bs: seq<BlockId>)
    ensures var t := ExitTargets(st, body, bs);
      |t| == 1 ==> forall k, i :: ExitEdgeAt(st, body, bs, k, i) ==> Succs(st, bs[k])[i] == t[0]
  {
    var t := ExitTargets(st, body, bs);
    if |t| == 1 {
      forall k, i | ExitEdgeAt(st, body, bs, k, i) ensures Succs(st, bs[k])[i] == t[0] {
        assert bs[k] in bs && Succs(st, bs[k])[i] in Succs(st, bs[k]);
        assert Succs(st, bs[k])[i] in t;
      }
    }
  }

  /** What `getExitBlock` finds, `getUniqueExitBlock` finds too. */
  lemma ExitBlockIsUnique(st: IrState, l: nat)
    requires l < |st.loops|
    ensures ExitBlock(st, l).Some? ==> UniqueExitBlock(st, l) == ExitBlock(st, l)
  {
    var body := st.loops[l].blocks;
    var t := ExitTargets(st, body, body);
    if |t| == 1 {
      SingletonOf(t, t[0]);
    }
  }

  /** Two different exit edges leave `getExitBlock` empty-handed, wherever they lead. */
  lemma TwoExitEdgesNoExitBlock(st: IrState, l: nat, k1: nat, i1: nat, k2: nat, i2: nat)
    requires l < |st.loops|
    requires ExitEdgeAt(st, st.loops[l].blocks, st.loops[l].blocks, k1, i1)
    requires ExitEdgeAt(st, st.loops[l].blocks, st.loops[l].blocks, k2, i2)
    requires k1 != k2 || i1 != i2
    ensures ExitBlock(st, l).None?
  {
    ExitBlockIffOneExitEdge(st, l);
  }

  /** `getExitBlock` finds only the loop's one exit block. */
  lemma ExitBlockIsTheOnlyExit(st: IrState, l: nat, x: BlockId)
    requires l < |st.loops|
    ensures var body := st.loops[l].blocks;
      ExitBlock(st, l) == Some(x) ==> IsExit(st, body, x) && forall s :: IsExit(st, body, s) ==> s == x
  {
    var body := st.loops[l].blocks;
    assert forall s :: s in ExitTargets(st, body, body) <==> IsExit(st, body, s);
  }

  /** `getUniqueExitBlock` finds `x` exactly when `x` is an exit and the only one. */
  lemma UniqueExitBlockIsTheOnlyExit(st: IrState, l: nat, x: BlockId)
    requires l < |st.loops|
    ensures var body := st.loops[l].blocks;
      UniqueExitBlock(st, l) == Some(x) <==> IsExit(st, body, x) && forall s :: IsExit(st, body, s) ==> s == x
  {
    var body := st.loops[l].blocks;
    var t := ExitTargets(st, body, body);
    assert forall s :: s in t <==> IsExit(st, body, s);
    if IsExit(st, body, x) && forall s :: IsExit(st, body, s) ==> s == x {
      SingletonOf(t, x);
    }
  }

  /** Every block placed in some function, function by function. */
  function Placed(fns: seq<Fn>): seq<BlockId>
  {
    if fns == [] then [] else fns[0].layout + Placed(fns[1..])
  }

  /** The placed blocks outside `body` with an edge to `h`, with repeats, in layout order. */
  function OutsidePreds(st: IrState, body: seq<BlockId>, h: BlockId, bs: seq<BlockId>): (r: seq<BlockId>)
    ensures forall p :: p in r <==> p in bs && p !in body && h in Succs(st, p)
  {
    if bs == [] then []
    else (if bs[0] !in body && h in Succs(st, bs[0]) then [bs[0]] else []) + OutsidePreds(st, body, h, bs[1..])
  }

  /**
   * `Loop::getLoopPreheader`: the only predecessor of the header outside the
   * loop, provided it has the header as its one successor.
   */
  function Preheader(st: IrState, l: nat): (r: Option<BlockId>)
    requires l < |st.loops|
    ensures r.Some? ==> |Succs(st, r.value)| == 1 && r.value !in st.loops[l].blocks
  {
    var lp := st.loops[l];
    match Header(lp)
    case None => None
    case Some(h) =>
      var out := Singleton(OutsidePreds(st, lp.blocks, h, Placed(st.fns)));
      if out.Some? && |Succs(st, out.value)| == 1 then
        assert out.value in OutsidePreds(st, lp.blocks, h, Placed(st.fns));
        out
      else None
  }

  /** Block `p` once for every occurrence of `h` among its successors `succs`. */
  function BackEdges(p: BlockId, h: BlockId, succs: seq<BlockId>): (r: seq<BlockId>)
    ensures forall q :: q in r <==> q == p && h in succs
  {
    if succs == [] then []
    else (if succs[0] == h then [p] else []) + BackEdges(p, h, succs[1..])
  }

  /**
   * The loop blocks with an edge to `h`, once per edge, in loop order: the
   * header's predecessors inside the loop as LLVM's predecessor list holds
   * them.
   */
  function InsidePreds(st: IrState, h: BlockId, bs: seq<BlockId>): (r: seq<BlockId>)
    ensures forall p :: p in r <==> p in bs && h in Succs(st, p)
  {
    if bs == [] then []
    else BackEdges(bs[0], h, Succs(st, bs[0])) + InsidePreds(st, h, bs[1..])
  }

  /**
   * `Loop::getLoopLatch`: the block of the loop whose edge is the only one
   * back to the header; a second such edge, even from the same block, gives
   * nothing.
   */
  function Latch(st: IrState, l: nat): Option<BlockId>
    requires l < |st.loops|
  {
    var lp := st.loops[l];
    match Header(lp)
    case None => None
    case Some(h) => SoleEntry(InsidePreds(st, h, lp.blocks))
  }

  /** Successor i of block bs[k] is `h`. */
  predicate BackEdgeAt(st: IrState, h: BlockId, bs: seq<BlockId>, k: int, i: int)
  {
    0 <= k < |bs| && 0 <= i < |Succs(st, bs[k])| && Succs(st, bs[k])[i] == h
  }

  /** Exactly one successor position of the blocks `bs` is `h`. */
  ghost predicate OneBackEdge(st: IrState, h: BlockId, bs: seq<BlockId>)
  {
    exists k, i :: BackEdgeAt(st, h, bs, k, i) &&
      forall k', i' :: BackEdgeAt(st, h, bs, k', i') ==> k' == k && i' == i
  }

  /** Exactly one position of `succs` holds `h`. */
  ghost predicate OneOccurrence(h: BlockId, succs: seq<BlockId>)
  {
    exists i :: 0 <= i < |succs| && succs[i] == h && forall j :: 0 <= j < |succs| && succs[j] == h ==> j == i
  }

  /** When the first successor is `h`, it is the only one exactly when `h` is not among the rest. */
  lemma OneOccurrenceAtHead(p: BlockId, h: BlockId, succs: seq<BlockId>)
    requires succs != [] && succs[0] == h
    ensures OneOccurrence(h, succs) <==> |BackEdges(p, h, succs[1..])| == 0
    ensures |BackEdges(p, h, succs)| == 1 + |BackEdges(p, h, succs[1..])|
  {
    var tl := succs[1..];
    var e := BackEdges(p, h, tl);
    if |e| != 0 {
      assert e[0] in e;
      var j :| 0 <= j < |tl| && tl[j] == h;
      assert succs[j + 1] == tl[j];
    } else {
      assert forall j :: 0 < j < |succs| ==> succs[j] == tl[j - 1];
      assert p !in e;
      assert h !in tl;
      forall j | 0 <= j < |tl| ensures tl[j] != h {
        assert tl[j] in tl;
      }
      forall j | 0 <= j < |succs| && succs[j] == h ensures j == 0 {
      }
    }
  }

  /** When the first successor is not `h`, exactly one position holds `h` exactly when one in the rest does. */
  lemma OneOccurrenceInTail(p: BlockId, h: BlockId, succs: seq<BlockId>)
    requires succs != [] && succs[0] != h
    ensures OneOccurrence(h, succs) <==> OneOccurrence(h, succs[1..])
    ensures |BackEdges(p, h, succs)| == |BackEdges(p, h, succs[1..])|
  {
    var tl := succs[1..];
    if OneOccurrence(h, succs) {
      var i :| 0 <= i < |succs| && succs[i] == h && forall j :: 0 <= j < |succs| && succs[j] == h ==> j == i;
      assert tl[i - 1] == h;
      forall j | 0 <= j < |tl| && tl[j] == h ensures j == i - 1 {
        assert succs[j + 1] == tl[j];
      }
    }
    if OneOccurrence(h, tl) {
      var i :| 0 <= i < |tl| && tl[i] == h && forall j :: 0 <= j < |tl| && tl[j] == h ==> j == i;
      assert succs[i + 1] == tl[i];
      forall j | 0 <= j < |succs| && succs[j] == h ensures j == i + 1 {
        assert tl[j - 1] == succs[j];
      }
    }
  }

  /** `p` appears once exactly when `h` occurs at exactly one position of `succs`. */
  lemma {:induction false} BackEdgesOne(p: BlockId, h: BlockId, succs: seq<BlockId>)
    ensures |BackEdges(p, h, succs)| == 1 <==> OneOccurrence(h, succs)
    decreases |succs|
  {
    if succs != [] {
      BackEdgesOne(p, h, succs[1..]);
      if succs[0] == h {
        OneOccurrenceAtHead(p, h, succs);
      } else {
        OneOccurrenceInTail(p, h, succs);
      }
    }
  }

  /** `p` does not appear exactly when `h` is not among `succs`. */
  lemma BackEdgesEmpty(p: BlockId, h: BlockId, succs: seq<BlockId>)
    ensures |BackEdges(p, h, succs)| == 0 <==> forall i :: 0 <= i < |succs| ==> succs[i] != h
  {
    var e := BackEdges(p, h, succs);
    if |e| != 0 {
      assert e[0] in e;
    }
    forall i | 0 <= i < |succs| && succs[i] == h ensures |e| != 0 {
      assert p in e;
    }
  }

  /** `InsidePreds` is empty exactly when no successor position of `bs` is `h`. */
  lemma InsidePredsEmpty(st: IrState, h: BlockId, bs: seq<BlockId>)
    ensures |InsidePreds(st, h, bs)| == 0 <==> forall k, i :: !BackEdgeAt(st, h, bs, k, i)
  {
    var t := InsidePreds(st, h, bs);
    if |t| != 0 {
      assert t[0] in t;
      var k :| 0 <= k < |bs| && bs[k] == t[0];
      var i :| 0 <= i < |Succs(st, bs[k])| && Succs(st, bs[k])[i] == h;
      assert BackEdgeAt(st, h, bs, k, i);
    }
    forall k, i | BackEdgeAt(st, h, bs, k, i) ensures |t| != 0 {
      assert bs[k] in bs && Succs(st, bs[k])[i] in Succs(st, bs[k]);
      assert bs[k] in t;
    }
  }

  /** The positions of `h` in `bs` are those of its first block and, shifted by one, those of the rest. */
  lemma BackEdgeShift(st: IrState, h: BlockId, bs: seq<BlockId>)
    requires bs != []
    ensures forall k, i :: 0 <= k ==> (BackEdgeAt(st, h, bs[1..], k, i) <==> BackEdgeAt(st, h, bs, k + 1, i))
    ensures forall i :: BackEdgeAt(st, h, bs, 0, i) <==> 0 <= i < |Succs(st, bs[0])| && Succs(st, bs[0])[i] == h
    ensures |InsidePreds(st, h, bs)| == |BackEdges(bs[0], h, Succs(st, bs[0]))| + |InsidePreds(st, h, bs[1..])|
  {
    assert forall k :: 0 <= k < |bs[1..]| ==> bs[1..][k] == bs[k + 1];
  }

  /** The one back edge of the first block, with none in the rest, is the one back edge of `bs`. */
  lemma OneBackEdgeAtHead(st: IrState, h: BlockId, bs: seq<BlockId>)
    requires bs != [] && |BackEdges(bs[0], h, Succs(st, bs[0]))| == 1
    requires forall k, i :: !BackEdgeAt(st, h, bs[1..], k, i)
    ensures OneBackEdge(st, h, bs)
  {
    var succs, rest := Succs(st, bs[0]), bs[1..];
    BackEdgesOne(bs[0], h, succs);
    BackEdgeShift(st, h, bs);
    var i :| 0 <= i < |succs| && succs[i] == h && forall j :: 0 <= j < |succs| && succs[j] == h ==> j == i;
    assert BackEdgeAt(st, h, bs, 0, i);
    forall k', i' | BackEdgeAt(st, h, bs, k', i') ensures k' == 0 && i' == i {
      assert k' > 0 ==> BackEdgeAt(st, h, rest, k' - 1, i');
    }
  }

  /** With no back edge in the first block, the one back edge of the rest is that of `bs`. */
  lemma OneBackEdgeInTail(st: IrState, h: BlockId, bs: seq<BlockId>)
    requires bs != [] && forall i :: !BackEdgeAt(st, h, bs, 0, i)
    requires OneBackEdge(st, h, bs[1..])
    ensures OneBackEdge(st, h, bs)
  {
    BackEdgeShift(st, h, bs);
    var k, i :| BackEdgeAt(st, h, bs[1..], k, i) &&
      forall k', i' :: BackEdgeAt(st, h, bs[1..], k', i') ==> k' == k && i' == i;
    assert BackEdgeAt(st, h, bs, k + 1, i);
    forall k', i' | BackEdgeAt(st, h, bs, k', i') ensures k' == k + 1 && i' == i {
      assert k' != 0;
      assert BackEdgeAt(st, h, bs[1..], k' - 1, i');
    }
  }

  /** The one back edge of `bs` lies either in the first block, alone, or in the rest. */
  lemma OneBackEdgeSplit(st: IrState, h: BlockId, bs: seq<BlockId>)
    requires bs != [] && OneBackEdge(st, h, bs)
    ensures (|BackEdges(bs[0], h, Succs(st, bs[0]))| == 1 && forall k, i :: !BackEdgeAt(st, h, bs[1..], k, i)) ||
            ((forall i :: !BackEdgeAt(st, h, bs, 0, i)) && OneBackEdge(st, h, bs[1..]))
  {
    var succs := Succs(st, bs[0]);
    BackEdgesOne(bs[0], h, succs);
    BackEdgeShift(st, h, bs);
    var k, i :| BackEdgeAt(st, h, bs, k, i) &&
      forall k', i' :: BackEdgeAt(st, h, bs, k', i') ==> k' == k && i' == i;
    if k == 0 {
      forall k', i' | 0 <= k' ensures !BackEdgeAt(st, h, bs[1..], k', i') {
        assert BackEdgeAt(st, h, bs[1..], k', i') ==> BackEdgeAt(st, h, bs, k' + 1, i');
      }
      assert succs[i] == h;
    } else {
      assert BackEdgeAt(st, h, bs[1..], k - 1, i);
      forall k', i' | BackEdgeAt(st, h, bs[1..], k', i') ensures k' == k - 1 && i' == i {
        assert BackEdgeAt(st, h, bs, k' + 1, i');
      }
    }
  }

  /** `InsidePreds` has one entry exactly when one successor position of `bs` is `h`. */
  lemma {:induction false} InsidePredsOne(st: IrState, h: BlockId, bs: seq<BlockId>)
    ensures |InsidePreds(st, h, bs)| == 1 <==> OneBackEdge(st, h, bs)
    decreases |bs|
  {
    if bs == [] {
      assert forall k, i :: !BackEdgeAt(st, h, bs, k, i);
    } else {
      var succs := Succs(st, bs[0]);
      InsidePredsOne(st, h, bs[1..]);
      BackEdgesEmpty(bs[0], h, succs);
      InsidePredsEmpty(st, h, bs[1..]);
      BackEdgeShift(st, h, bs);
      if OneBackEdge(st, h, bs) {
        OneBackEdgeSplit(st, h, bs);
      }
      if |InsidePreds(st, h, bs)| == 1 {
        if |BackEdges(bs[0], h, succs)| == 1 {
          OneBackEdgeAtHead(st, h, bs);
        } else {
          OneBackEdgeInTail(st, h, bs);
        }
      }
    }
  }

  /**
   * `getLoopLatch` finds a block exactly when one edge of the loop goes back
   * to the header, and then it is that edge's source, a loop block.
   */
  lemma LatchIffOneBackEdge(st: IrState, l: nat)
    requires l < |st.loops|
    ensures var lp := st.loops[l];
      Latch(st, l).Some? <==> Header(lp).Some? && OneBackEdge(st, Header(lp).value, lp.blocks)
    ensures var lp := st.loops[l];
      Latch(st, l).Some? ==>
        Latch(st, l).value in lp.blocks &&
        forall k, i :: BackEdgeAt(st, Header(lp).value, lp.blocks, k, i) ==> lp.blocks[k] == Latch(st, l).value
  {
    var lp := st.loops[l];
    if Header(lp).Some? {
      InsidePredsOne(st, Header(lp).value, lp.blocks);
      BackEdgeSources(st, Header(lp).value, lp.blocks);
    }
  }

  /** When `InsidePreds` has one entry, every edge from `bs` to `h` starts there. */
  lemma BackEdgeSources(st: IrState, h: BlockId, bs: seq<BlockId>)
    ensures var t := InsidePreds(st, h, bs);
      |t| == 1 ==> t[0] in bs && forall k, i :: BackEdgeAt(st, h, bs, k, i) ==> bs[k] == t[0]
  {
    var t := InsidePreds(st, h, bs);
    if |t| == 1 {
      assert t[0] in t;
      forall k, i | BackEdgeAt(st, h, bs, k, i) ensures bs[k] == t[0] {
        assert bs[k] in bs && Succs(st, bs[k])[i] in Succs(st, bs[k]);
        assert bs[k] in t;
      }
    }
  }

  /** Two different edges back to the header leave `getLoopLatch` empty-handed, even from one block. */
  lemma TwoBackEdgesNoLatch(st: IrState, l: nat, k1: nat, i1: nat, k2: nat, i2: nat)
    requires l < |st.loops| && Header(st.loops[l]).Some?
    requires BackEdgeAt(st, Header(st.loops[l]).value, st.loops[l].blocks, k1, i1)
    requires BackEdgeAt(st, Header(st.loops[l]).value, st.loops[l].blocks, k2, i2)
    requires k1 != k2 || i1 != i2
    ensures Latch(st, l).None?
  {
    LatchIffOneBackEdge(st, l);
  }

  /** `Loop::getExitingBlock`: the exiting block, when there is exactly one. */
  function ExitingBlock(st: IrState, l: nat): Option<BlockId>
    requires l < |st.loops|
  {
    Singleton(ExitingBlocks(st, l))
  }

  /** `Loop::isInnermost`: no loop of the nest has this one as its parent. */
  predicate IsInnermost(st: IrState, l: nat)
  {
    forall j :: 0 <= j < |st.loops| ==> st.loops[j].parent != Some(l)
  }

  /** `Loop::contains(Loop *)`: `j` is `l` or nested in it, following parent links. */
  predicate Encloses(loops: seq<Loop>, l: nat, j: nat)
    decreases j
  {
    j == l ||
    (j < |loops| && loops[j].parent.Some? && loops[j].parent.value < j &&
     Encloses(loops, l, loops[j].parent.value))
  }

  /** Every loop's parent comes before it in preorder. */
  predicate ParentsBefore(loops: seq<Loop>)
  {
    forall j :: 0 <= j < |loops| && loops[j].parent.Some? ==> loops[j].parent.value < j
  }

  /** `LoopInfo::getLoopFor`: the innermost loop containing `b`, the last in preorder. */
  function LoopFor(loops: seq<Loop>, b: BlockId): (r: Option<nat>)
    ensures r.Some? ==> r.value < |loops| && b in loops[r.value].blocks
    ensures r.Some? ==> forall j :: r.value < j < |loops| ==> b !in loops[j].blocks
    ensures r.None? ==> forall j :: 0 <= j < |loops| ==> b !in loops[j].blocks
  {
    LoopForUpTo(loops, b, |loops|)
  }

  function LoopForUpTo(loops: seq<Loop>, b: BlockId, n: nat): (r: Option<nat>)
    requires n <= |loops|
    ensures r.Some? ==> r.value < n && b in loops[r.value].blocks
    ensures r.Some? ==> forall j :: r.value < j < n ==> b !in loops[j].blocks
    ensures r.None? ==> forall j :: 0 <= j < n ==> b !in loops[j].blocks
  {
    if n == 0 then None
    else if b in loops[n - 1].blocks then Some(n - 1)
    else LoopForUpTo(loops, b, n - 1)
  }

  /**
   * The loop nest is well formed: a loop's blocks lie within its parent's,
   * and a block in two loops lies in a loop nested in both.
   */
  ghost predicate NestWellFormed(loops: seq<Loop>)
  {
    ParentsBefore(loops) &&
    (forall j, b :: 0 <= j < |loops| && loops[j].parent.Some? && b in loops[j].blocks ==>
       b in loops[loops[j].parent.value].blocks) &&
    (forall i, j, b :: 0 <= i < j < |loops| && b in loops[i].blocks && b in loops[j].blocks ==>
       Encloses(loops, i, j))
  }

  lemma EnclosedBlocks(loops: seq<Loop>, l: nat, j: nat, b: BlockId)
    requires NestWellFormed(loops) && l < |loops| && j < |loops|
    requires Encloses(loops, l, j) && b in loops[j].blocks
    ensures b in loops[l].blocks
    decreases j
  {
    if j != l {
      EnclosedBlocks(loops, l, loops[j].parent.value, b);
    }
  }

  /** Whether `b` lies in loop `l` or one of its subloops, asked the way `LoopInfo` is asked. */
  predicate InLoopNest(loops: seq<Loop>, l: nat, b: BlockId)
  {
    var sl := LoopFor(loops, b);
    sl.Some? && (sl.value == l || Encloses(loops, l, sl.value))
  }

  /**
   * In a well-formed nest, "the innermost loop of `b` is `l` or inside it"
   * is exactly membership of `b` in `l`'s block list.
   */
  lemma InLoopNestIsMembership(loops: seq<Loop>, l: nat, b: BlockId)
    requires NestWellFormed(loops) && l < |loops|
    ensures InLoopNest(loops, l, b) <==> b in loops[l].blocks
  {
    var sl := LoopFor(loops, b);
    if InLoopNest(loops, l, b) {
      EnclosedBlocks(loops, l, sl.value, b);
    }
    if b in loops[l].blocks {
      assert sl.Some?;
      if sl.value != l {
        assert l < sl.value;
        assert Encloses(loops, l, sl.value);
      }
    }
  }
}
