/**
 * The first version of the pass, a loop pass: a loop that is innermost, has
 * a preheader, a latch (a single edge back to the header), one exiting
 * block and an exit block (a single edge leaving the loop) is replaced by
 * a call to `looper` with a new function `extractedN` and the values the
 * loop reads by name.  Values are compared by their names, as the prototype
 * compares them.
 */
module Prototype {
  import opened Ir
  import opened LambdaizeSpec
  import opened PassSpec
  import opened Lambdaize

  // ---- ordering by name ---------------------------------------------------

  /** `StringRef::compare(a, b) < 0`: lexicographic, a proper prefix first. */
  predicate NameLess(a: string, b: string)
    decreases |a|
  {
    if a == [] then b != []
    else if b == [] then false
    else if a[0] != b[0] then a[0] < b[0]
    else NameLess(a[1..], b[1..])
  }

  lemma {:induction false} NameLessIrreflexive(a: string)
    ensures !NameLess(a, a)
    decreases |a|
  {
    if a != [] {
      NameLessIrreflexive(a[1..]);
    }
  }

  lemma {:induction false} NameLessTransitive(a: string, b: string, c: string)
    requires NameLess(a, b) && NameLess(b, c)
    ensures NameLess(a, c)
    decreases |a|
  {
    if a != [] && a[0] == b[0] && b[0] == c[0] {
      NameLessTransitive(a[1..], b[1..], c[1..]);
    }
  }

  /** Two names neither of which is less than the other are equal. */
  lemma {:induction false} NameLessTotal(a: string, b: string)
    requires !NameLess(a, b) && !NameLess(b, a)
    ensures a == b
    decreases |a|
  {
    if a != [] && b != [] {
      NameLessTotal(a[1..], b[1..]);
      assert a == [a[0]] + a[1..] && b == [b[0]] + b[1..];
    }
  }

  /** "Not less" chains: the order `std::sort` sorts by is a total preorder. */
  lemma NameLeTransitive(a: string, b: string, c: string)
    requires !NameLess(b, a) && !NameLess(c, b)
    ensures !NameLess(c, a)
  {
    if NameLess(c, a) {
      if NameLess(a, b) {
        NameLessTransitive(c, a, b);
        if a == b {
          NameLessIrreflexive(a);
        } else {
          NameLessTotal(b, c);
          NameLessIrreflexive(c);
        }
      } else {
        NameLessTotal(a, b);
      }
    }
  }

  /** The values of `s` are in order of their names, equal names allowed. */
  predicate SortedByName(st: IrState, s: seq<Operand>)
  {
    forall i, j :: 0 <= i < j < |s| ==> !NameLess(NameOf(st, s[j]), NameOf(st, s[i]))
  }

  /** The values of `s` are in strictly increasing order of their names. */
  predicate StrictlyByName(st: IrState, s: seq<Operand>)
  {
    forall i, j :: 0 <= i < j < |s| ==> NameLess(NameOf(st, s[i]), NameOf(st, s[j]))
  }

  /** How many values of `s` carry the name `n`. */
  function CountName(st: IrState, s: seq<Operand>, n: string): nat
    decreases |s|
  {
    if s == [] then 0 else CountName(st, s[1..], n) + (if NameOf(st, s[0]) == n then 1 else 0)
  }

  // ---- what getUnreferencedVariables collects ------------------------------

  /** The named instructions among `insts`, in order. */
  function NamedInsts(st: IrState, insts: seq<Inst>): seq<Operand>
    decreases |insts|
  {
    if insts == [] then []
    else
      var n := |insts| - 1;
      NamedInsts(st, insts[..n]) + (if NameOf(st, Local(insts[n].id)) != "" then [Local(insts[n].id)] else [])
  }

  /** The named non-label operands among `ops`, in order, with repeats. */
  function NamedOperands(st: IrState, ops: seq<Operand>): seq<Operand>
    decreases |ops|
  {
    if ops == [] then []
    else
      var n := |ops| - 1;
      NamedOperands(st, ops[..n]) + (if !ops[n].Label? && NameOf(st, ops[n]) != "" then [ops[n]] else [])
  }

  /** `Instruction::operand_values()`: the callee of a call is its last operand. */
  function ValuesOf(inst: Inst): (r: seq<Operand>)
    ensures forall op :: op in r <==> op in inst.operands || (inst.opcode.Call? && op == Global(inst.opcode.callee))
  {
    inst.operands + (if inst.opcode.Call? then [Global(inst.opcode.callee)] else [])
  }

  /** The operand values of the instructions `insts`, instruction by instruction. */
  function InstValues(insts: seq<Inst>): seq<Operand>
    decreases |insts|
  {
    if insts == [] then [] else InstValues(insts[..|insts| - 1]) + ValuesOf(insts[|insts| - 1])
  }

  /** The operand values of a block, its terminator last. */
  function BlockValues(blk: Block): seq<Operand>
  {
    InstValues(blk.insts) + blk.term.operands
  }

  /** The `Declared` pushes of one block, its terminator last. */
  function BlockDeclared(st: IrState, blk: Block): seq<Operand>
  {
    NamedInsts(st, blk.insts) + (if NameOf(st, Local(blk.term.id)) != "" then [Local(blk.term.id)] else [])
  }

  /** `Declared` after the loop over the blocks `bs`. */
  function DeclaredIn(st: IrState, bs: seq<BlockId>): seq<Operand>
    decreases |bs|
  {
    if bs == [] then [] else DeclaredIn(st, bs[..|bs| - 1]) + BlockDeclared(st, BlockAt(st, bs[|bs| - 1]))
  }

  /** `Arguments` after the loop over the blocks `bs`. */
  function ArgumentsIn(st: IrState, bs: seq<BlockId>): seq<Operand>
    decreases |bs|
  {
    if bs == [] then [] else ArgumentsIn(st, bs[..|bs| - 1]) + NamedOperands(st, BlockValues(BlockAt(st, bs[|bs| - 1])))
  }

  lemma {:induction false} NamedOperandsAppend(st: IrState, a: seq<Operand>, b: seq<Operand>)
    ensures NamedOperands(st, a + b) == NamedOperands(st, a) + NamedOperands(st, b)
    decreases |b|
  {
    if b != [] {
      var n := |b| - 1;
      assert (a + b)[..|a + b| - 1] == a + b[..n];
      NamedOperandsAppend(st, a, b[..n]);
    } else {
      assert a + b == a;
    }
  }

  lemma {:induction false} NamedOperandsNamed(st: IrState, ops: seq<Operand>)
    ensures forall op :: op in NamedOperands(st, ops) ==> op in ops && !op.Label? && NameOf(st, op) != ""
    decreases |ops|
  {
    if ops != [] {
      NamedOperandsNamed(st, ops[..|ops| - 1]);
    }
  }

  lemma {:induction false} ArgumentsInNamed(st: IrState, bs: seq<BlockId>)
    ensures forall op :: op in ArgumentsIn(st, bs) ==>
      !op.Label? && NameOf(st, op) != "" && exists b :: b in bs && op in BlockValues(BlockAt(st, b))
    decreases |bs|
  {
    if bs != [] {
      var last := bs[|bs| - 1];
      ArgumentsInNamed(st, bs[..|bs| - 1]);
      NamedOperandsNamed(st, BlockValues(BlockAt(st, last)));
      forall op | op in ArgumentsIn(st, bs)
        ensures exists b :: b in bs && op in BlockValues(BlockAt(st, b))
      {
        if op in ArgumentsIn(st, bs[..|bs| - 1]) {
          var b :| b in bs[..|bs| - 1] && op in BlockValues(BlockAt(st, b));
          assert b in bs;
        } else {
          assert last in bs;
        }
      }
    }
  }

  // ---- std::set_difference and std::unique, by name ------------------------

  /** `std::set_difference(a, b)` comparing names: a value of `a` is dropped for each equally named value of `b`. */
  function NameDiff(st: IrState, a: seq<Operand>, b: seq<Operand>): seq<Operand>
    decreases |a| + |b|
  {
    if a == [] then []
    else if b == [] then a
    else if NameLess(NameOf(st, a[0]), NameOf(st, b[0])) then [a[0]] + NameDiff(st, a[1..], b)
    else if NameLess(NameOf(st, b[0]), NameOf(st, a[0])) then NameDiff(st, a, b[1..])
    else NameDiff(st, a[1..], b[1..])
  }

  /** `std::unique`: every run of equal adjacent values is kept once, by its first element. */
  function AdjacentUnique(s: seq<Operand>): seq<Operand>
    decreases |s|
  {
    if |s| <= 1 then s
    else
      var n := |s| - 1;
      var r := AdjacentUnique(s[..n]);
      if s[n - 1] == s[n] then r else r + [s[n]]
  }

  lemma SortedTail(st: IrState, s: seq<Operand>)
    requires SortedByName(st, s) && s != []
    ensures SortedByName(st, s[1..])
    ensures forall i :: 0 <= i < |s| ==> !NameLess(NameOf(st, s[i]), NameOf(st, s[0]))
  {
    forall i | 0 <= i < |s| ensures !NameLess(NameOf(st, s[i]), NameOf(st, s[0])) {
      if i == 0 {
        NameLessIrreflexive(NameOf(st, s[0]));
      }
    }
  }

  /** A name less than the first of a sorted sequence occurs nowhere in it. */
  lemma AbsentBelowFirst(st: IrState, s: seq<Operand>, n: string)
    requires SortedByName(st, s) && s != [] && NameLess(n, NameOf(st, s[0]))
    ensures CountName(st, s, n) == 0
  {
    CountNameZero(st, s, n);
    SortedTail(st, s);
  }

  lemma {:induction false} CountNameZero(st: IrState, s: seq<Operand>, n: string)
    ensures (forall i :: 0 <= i < |s| ==> NameOf(st, s[i]) != n) ==> CountName(st, s, n) == 0
    ensures CountName(st, s, n) > 0 <==> exists i :: 0 <= i < |s| && NameOf(st, s[i]) == n
    decreases |s|
  {
    if s != [] {
      CountNameZero(st, s[1..], n);
      if CountName(st, s[1..], n) > 0 {
        var i :| 0 <= i < |s[1..]| && NameOf(st, s[1..][i]) == n;
        assert NameOf(st, s[i + 1]) == n;
      }
      if exists i :: 0 <= i < |s| && NameOf(st, s[i]) == n {
        var i :| 0 <= i < |s| && NameOf(st, s[i]) == n;
        if i > 0 {
          assert NameOf(st, s[1..][i - 1]) == n;
        }
      }
    }
  }

  /**
   * On sorted inputs the name-wise set difference keeps, for each name, as
   * many values as `a` has beyond those of `b`; its values come from `a`,
   * in sorted order.
   */
  lemma {:induction false} NameDiffCounts(st: IrState, a: seq<Operand>, b: seq<Operand>)
    requires SortedByName(st, a) && SortedByName(st, b)
    ensures var r := NameDiff(st, a, b);
      SortedByName(st, r) &&
      (forall x :: x in r ==> x in a) &&
      forall n :: CountName(st, r, n) ==
        if CountName(st, a, n) > CountName(st, b, n) then CountName(st, a, n) - CountName(st, b, n) else 0
    decreases |a| + |b|
  {
    if a != [] && b != [] {
      var x, y := NameOf(st, a[0]), NameOf(st, b[0]);
      SortedTail(st, a);
      SortedTail(st, b);
      if NameLess(x, y) {
        NameDiffCounts(st, a[1..], b);
        AbsentBelowFirst(st, b, x);
        var r' := NameDiff(st, a[1..], b);
        forall j | 0 <= j < |r'| ensures !NameLess(NameOf(st, r'[j]), x) {
          assert r'[j] in a[1..];
        }
        assert NameDiff(st, a, b) == [a[0]] + r';
      } else if NameLess(y, x) {
        NameDiffCounts(st, a, b[1..]);
        AbsentBelowFirst(st, a, y);
      } else {
        NameLessTotal(x, y);
        NameDiffCounts(st, a[1..], b[1..]);
      }
    }
  }

  /** `AdjacentUnique` keeps the order and the elements, and leaves no equal neighbours. */
  lemma {:induction false} AdjacentUniqueShape(st: IrState, s: seq<Operand>)
    requires SortedByName(st, s)
    ensures var r := AdjacentUnique(s);
      SortedByName(st, r) &&
      (forall x :: x in r <==> x in s) &&
      (forall i :: 0 <= i < |r| - 1 ==> r[i] != r[i + 1]) &&
      (s != [] ==> r != [] && r[|r| - 1] == s[|s| - 1])
    decreases |s|
  {
    if |s| > 1 {
      var n := |s| - 1;
      var init := s[..n];
      AdjacentUniqueShape(st, init);
      var r' := AdjacentUnique(init);
      assert forall x :: x in s <==> x in init || x == s[n];
      assert init[n - 1] == s[n - 1];
      if s[n - 1] != s[n] {
        forall y | y in r' ensures !NameLess(NameOf(st, s[n]), NameOf(st, y)) {
          var k :| 0 <= k < n && init[k] == y;
        }
        AppendSorted(st, r', s[n]);
      }
    }
  }

  lemma AppendSorted(st: IrState, r: seq<Operand>, x: Operand)
    requires SortedByName(st, r)
    requires forall y :: y in r ==> !NameLess(NameOf(st, x), NameOf(st, y))
    ensures SortedByName(st, r + [x])
  {
    forall i, j | 0 <= i < j < |r| + 1 ensures !NameLess(NameOf(st, (r + [x])[j]), NameOf(st, (r + [x])[i])) {
      if j == |r| {
        assert r[i] in r;
      }
    }
  }

  /**
   * When no two distinct values of a sorted sequence share a name,
   * `AdjacentUnique` leaves its names strictly increasing.
   */
  lemma UniqueIsStrict(st: IrState, s: seq<Operand>)
    requires SortedByName(st, s)
    requires forall x, y :: x in s && y in s && NameOf(st, x) == NameOf(st, y) ==> x == y
    ensures StrictlyByName(st, AdjacentUnique(s))
  {
    AdjacentUniqueShape(st, s);
    var r := AdjacentUnique(s);
    forall i, j | 0 <= i < j < |r| ensures NameLess(NameOf(st, r[i]), NameOf(st, r[j])) {
      StrictStep(st, r, i, j);
    }
  }

  lemma {:induction false} StrictStep(st: IrState, r: seq<Operand>, i: nat, j: nat)
    requires SortedByName(st, r) && 0 <= i < j < |r|
    requires forall k :: 0 <= k < |r| - 1 ==> r[k] != r[k + 1]
    requires forall x, y :: x in r && y in r && NameOf(st, x) == NameOf(st, y) ==> x == y
    ensures NameLess(NameOf(st, r[i]), NameOf(st, r[j]))
    decreases j - i
  {
    var a, b := NameOf(st, r[i]), NameOf(st, r[i + 1]);
    if !NameLess(a, b) {
      NameLessTotal(a, b);
    }
    if j > i + 1 {
      StrictStep(st, r, i + 1, j);
      var c := NameOf(st, r[j]);
      NameLessTransitive(a, b, c);
    }
  }

  // ---- counting names ------------------------------------------------------

  lemma {:induction false} CountNameAppend(st: IrState, a: seq<Operand>, b: seq<Operand>, n: string)
    ensures CountName(st, a + b, n) == CountName(st, a, n) + CountName(st, b, n)
    decreases |a|
  {
    if a == [] {
      assert a + b == b;
    } else {
      assert (a + b)[1..] == a[1..] + b;
      CountNameAppend(st, a[1..], b, n);
    }
  }

  /** Taking the value at `k` out of `b` takes one count of its name out. */
  lemma RemoveAt(st: IrState, b: seq<Operand>, k: nat, n: string)
    requires k < |b|
    ensures CountName(st, b, n) == CountName(st, b[..k] + b[k + 1..], n) + (if NameOf(st, b[k]) == n then 1 else 0)
  {
    assert b == b[..k] + ([b[k]] + b[k + 1..]);
    CountNameAppend(st, b[..k], [b[k]] + b[k + 1..], n);
    CountNameAppend(st, b[..k], b[k + 1..], n);
    assert ([b[k]] + b[k + 1..])[1..] == b[k + 1..];
  }

  /** The first value of `a` sits somewhere in its permutation `b`; the rests are permutations again. */
  lemma MatchFirst<T>(a: seq<T>, b: seq<T>) returns (k: nat)
    requires multiset(a) == multiset(b) && a != []
    ensures k < |b| && b[k] == a[0]
    ensures multiset(a[1..]) == multiset(b[..k] + b[k + 1..])
  {
    assert a[0] in multiset(b);
    k :| 0 <= k < |b| && b[k] == a[0];
    var c := b[..k] + b[k + 1..];
    assert b == b[..k] + [b[k]] + b[k + 1..];
    assert a == [a[0]] + a[1..];
    forall o ensures multiset(a[1..])[o] == multiset(c)[o] {
      assert multiset(a)[o] == multiset([a[0]])[o] + multiset(a[1..])[o];
      assert multiset(b)[o] == multiset(b[..k])[o] + multiset([b[k]])[o] + multiset(b[k + 1..])[o];
      assert multiset(c)[o] == multiset(b[..k])[o] + multiset(b[k + 1..])[o];
    }
  }

  /** Equal multisets hold every name equally often. */
  lemma {:induction false} CountNamePermutation(st: IrState, a: seq<Operand>, b: seq<Operand>, n: string)
    requires multiset(a) == multiset(b)
    ensures CountName(st, a, n) == CountName(st, b, n)
    decreases |a|
  {
    if a != [] {
      var k := MatchFirst(a, b);
      RemoveAt(st, b, k, n);
      CountNamePermutation(st, a[1..], b[..k] + b[k + 1..], n);
    } else {
      assert |b| == |multiset(b)|;
    }
  }

  // ---- getUnreferencedVariables --------------------------------------------

  /** The push-back loops of `getUnreferencedVariables` over the blocks `bs`. */
  method CollectNamed(st: IrState, bs: seq<BlockId>) returns (declared: seq<Operand>, arguments: seq<Operand>)
    ensures declared == DeclaredIn(st, bs) && arguments == ArgumentsIn(st, bs)
  {
    declared, arguments := [], [];
    for k := 0 to |bs|
      invariant declared == DeclaredIn(st, bs[..k]) && arguments == ArgumentsIn(st, bs[..k])
    {
      assert bs[..k + 1][..k] == bs[..k];
      var d, a := CollectBlock(st, BlockAt(st, bs[k]));
      declared, arguments := declared + d, arguments + a;
    }
    assert bs[..|bs|] == bs;
  }

  /** The instruction loop of one block: its named instructions and their named operands are pushed. */
  method CollectBlock(st: IrState, blk: Block) returns (declared: seq<Operand>, arguments: seq<Operand>)
    ensures declared == BlockDeclared(st, blk)
    ensures arguments == NamedOperands(st, BlockValues(blk))
  {
    declared, arguments := CollectInsts(st, blk.insts);
    if NameOf(st, Local(blk.term.id)) != "" {
      declared := declared + [Local(blk.term.id)];
    }
    arguments := PushNamedOperands(st, arguments, blk.term.operands);
    NamedOperandsAppend(st, InstValues(blk.insts), blk.term.operands);
  }

  /** The loop over the instructions `insts` of a block. */
  method CollectInsts(st: IrState, insts: seq<Inst>) returns (declared: seq<Operand>, arguments: seq<Operand>)
    ensures declared == NamedInsts(st, insts)
    ensures arguments == NamedOperands(st, InstValues(insts))
  {
    declared, arguments := [], [];
    for i := 0 to |insts|
      invariant declared == NamedInsts(st, insts[..i])
      invariant arguments == NamedOperands(st, InstValues(insts[..i]))
    {
      InstStep(st, insts, i);
      if NameOf(st, Local(insts[i].id)) != "" {
        declared := declared + [Local(insts[i].id)];
      }
      arguments := PushNamedOperands(st, arguments, ValuesOf(insts[i]));
    }
    assert insts[..|insts|] == insts;
  }

  /** What one more instruction adds to both collections. */
  lemma InstStep(st: IrState, insts: seq<Inst>, i: nat)
    requires i < |insts|
    ensures NamedInsts(st, insts[..i + 1]) ==
      NamedInsts(st, insts[..i]) + (if NameOf(st, Local(insts[i].id)) != "" then [Local(insts[i].id)] else [])
    ensures NamedOperands(st, InstValues(insts[..i + 1])) ==
      NamedOperands(st, InstValues(insts[..i])) + NamedOperands(st, ValuesOf(insts[i]))
  {
    assert insts[..i + 1][..i] == insts[..i];
    NamedOperandsAppend(st, InstValues(insts[..i]), ValuesOf(insts[i]));
  }

  /** The operand loop of one instruction: each named operand that is not a label is pushed. */
  method PushNamedOperands(st: IrState, acc: seq<Operand>, ops: seq<Operand>) returns (r: seq<Operand>)
    ensures r == acc + NamedOperands(st, ops)
  {
    r := acc;
    for j := 0 to |ops|
      invariant r == acc + NamedOperands(st, ops[..j])
    {
      assert ops[..j + 1][..j] == ops[..j];
      if !ops[j].Label? && NameOf(st, ops[j]) != "" {
        r := r + [ops[j]];
      }
    }
    assert ops[..|ops|] == ops;
  }

  lemma NameLessAsymmetric(a: string, b: string)
    requires NameLess(a, b)
    ensures !NameLess(b, a)
  {
    if NameLess(b, a) {
      NameLessTransitive(a, b, a);
      NameLessIrreflexive(a);
    }
  }

  /** The positions `lo` to `hi` of `r` are in order of their names. */
  predicate SortedBetween(st: IrState, r: seq<Operand>, lo: nat, hi: nat)
    requires lo <= hi <= |r|
  {
    forall p, q :: lo <= p < q < hi ==> !NameLess(NameOf(st, r[q]), NameOf(st, r[p]))
  }

  /** Every position before `j` is in order with every position from `j + 1` to `i`. */
  predicate OrderedAcross(st: IrState, r: seq<Operand>, j: nat, i: nat)
    requires j <= i < |r|
  {
    forall p, q :: 0 <= p < j && j < q <= i ==> !NameLess(NameOf(st, r[q]), NameOf(st, r[p]))
  }

  /** The end of one insertion step: the positions up to `i` are in order. */
  lemma InsertionDone(st: IrState, r: seq<Operand>, j: nat, i: nat)
    requires j <= i < |r|
    requires SortedBetween(st, r, 0, j) && SortedBetween(st, r, j, i + 1) && OrderedAcross(st, r, j, i)
    requires j > 0 ==> !NameLess(NameOf(st, r[j]), NameOf(st, r[j - 1]))
    ensures SortedBetween(st, r, 0, i + 1)
  {
    forall p, q | 0 <= p < q <= i ensures !NameLess(NameOf(st, r[q]), NameOf(st, r[p])) {
      if q == j && p < j - 1 {
        NameLeTransitive(NameOf(st, r[p]), NameOf(st, r[j - 1]), NameOf(st, r[j]));
      }
    }
  }

  /** `std::sort` by name: insertion sort of the vector. */
  method SortByName(st: IrState, s: seq<Operand>) returns (r: seq<Operand>)
    ensures SortedByName(st, r) && multiset(r) == multiset(s)
  {
    r := s;
    for i := 0 to |r|
      invariant |r| == |s| && multiset(r) == multiset(s)
      invariant SortedBetween(st, r, 0, i)
    {
      var j := i;
      while j > 0 && NameLess(NameOf(st, r[j]), NameOf(st, r[j - 1]))
        invariant 0 <= j <= i
        invariant |r| == |s| && multiset(r) == multiset(s)
        invariant SortedBetween(st, r, 0, j) && SortedBetween(st, r, j, i + 1) && OrderedAcross(st, r, j, i)
        decreases j
      {
        SwapStep(st, r, j, i);
        r := r[j - 1 := r[j]][j := r[j - 1]];
        j := j - 1;
      }
      InsertionDone(st, r, j, i);
    }
  }

  /** Swapping the moving value one place down keeps the insertion invariants. */
  lemma SwapStep(st: IrState, r: seq<Operand>, j: nat, i: nat)
    requires 0 < j <= i < |r|
    requires SortedBetween(st, r, 0, j) && SortedBetween(st, r, j, i + 1) && OrderedAcross(st, r, j, i)
    requires NameLess(NameOf(st, r[j]), NameOf(st, r[j - 1]))
    ensures var r' := r[j - 1 := r[j]][j := r[j - 1]];
      multiset(r') == multiset(r) &&
      SortedBetween(st, r', 0, j - 1) && SortedBetween(st, r', j - 1, i + 1) && OrderedAcross(st, r', j - 1, i)
  {
    var r' := r[j - 1 := r[j]][j := r[j - 1]];
    NameLessAsymmetric(NameOf(st, r[j]), NameOf(st, r[j - 1]));
    assert forall p :: 0 <= p < |r| && p != j - 1 && p != j ==> r'[p] == r[p];
  }

  /** `std::set_difference` with the name comparison, writing through an inserter at the front. */
  method SetDifferenceByName(st: IrState, a: seq<Operand>, b: seq<Operand>) returns (r: seq<Operand>)
    ensures r == NameDiff(st, a, b)
  {
    r := [];
    var i, j := 0, 0;
    while i < |a|
      invariant 0 <= i <= |a| && 0 <= j <= |b|
      invariant r + NameDiff(st, a[i..], b[j..]) == NameDiff(st, a, b)
      decreases |a| - i + |b| - j
    {
      assert a[i..][0] == a[i] && a[i..][1..] == a[i + 1..];
      if j == |b| {
        r := r + a[i..];
        i := |a|;
      } else {
        assert b[j..][0] == b[j] && b[j..][1..] == b[j + 1..];
        if NameLess(NameOf(st, a[i]), NameOf(st, b[j])) {
          r := r + [a[i]];
          i := i + 1;
        } else {
          if !NameLess(NameOf(st, b[j]), NameOf(st, a[i])) {
            i := i + 1;
          }
          j := j + 1;
        }
      }
    }
  }

  /** `erase(unique(...))`: each value equal to the one kept before it is dropped. */
  method Unique(s: seq<Operand>) returns (r: seq<Operand>)
    ensures r == AdjacentUnique(s)
  {
    r := [];
    for i := 0 to |s|
      invariant r == AdjacentUnique(s[..i])
      invariant i > 0 ==> r != [] && r[|r| - 1] == s[i - 1]
    {
      assert s[..i + 1][..i] == s[..i];
      if i == 0 || r[|r| - 1] != s[i] {
        r := r + [s[i]];
      }
    }
    assert s[..|s|] == s;
  }

  lemma {:induction false} CountNamePositive(st: IrState, s: seq<Operand>, n: string)
    ensures CountName(st, s, n) > 0 <==> exists x :: x in s && NameOf(st, x) == n
    decreases |s|
  {
    if s != [] {
      CountNamePositive(st, s[1..], n);
      assert forall x :: x in s <==> x == s[0] || x in s[1..];
    }
  }

  /** The sorted, subtracted and uniqued vector, over any two collections. */
  lemma UnreferencedShape(st: IrState, declared: seq<Operand>, arguments: seq<Operand>,
                          sortedDeclared: seq<Operand>, sortedArguments: seq<Operand>)
    requires SortedByName(st, sortedDeclared) && multiset(sortedDeclared) == multiset(declared)
    requires SortedByName(st, sortedArguments) && multiset(sortedArguments) == multiset(arguments)
    ensures var r := AdjacentUnique(NameDiff(st, sortedArguments, sortedDeclared));
      SortedByName(st, r) &&
      (forall x :: x in r ==> x in arguments) &&
      (forall i :: 0 <= i < |r| - 1 ==> r[i] != r[i + 1]) &&
      (forall n :: HasName(st, r, n) <==> CountName(st, arguments, n) > CountName(st, declared, n)) &&
      (NamesDistinct(st, arguments) ==> StrictlyByName(st, r))
  {
    var unreferenced := NameDiff(st, sortedArguments, sortedDeclared);
    var r := AdjacentUnique(unreferenced);
    NameDiffCounts(st, sortedArguments, sortedDeclared);
    AdjacentUniqueShape(st, unreferenced);
    forall x ensures x in sortedArguments <==> x in arguments {
      assert x in sortedArguments <==> x in multiset(sortedArguments);
      assert x in arguments <==> x in multiset(arguments);
    }
    forall n ensures HasName(st, r, n) <==> CountName(st, arguments, n) > CountName(st, declared, n) {
      CountNamePermutation(st, sortedArguments, arguments, n);
      CountNamePermutation(st, sortedDeclared, declared, n);
      CountNamePositive(st, unreferenced, n);
    }
    if NamesDistinct(st, arguments) {
      UniqueIsStrict(st, unreferenced);
    }
  }

  /** Some value of `s` carries the name `n`. */
  ghost predicate HasName(st: IrState, s: seq<Operand>, n: string)
  {
    exists x :: x in s && NameOf(st, x) == n
  }

  /** No two distinct values of `s` share a name. */
  ghost predicate NamesDistinct(st: IrState, s: seq<Operand>)
  {
    forall x, y :: x in s && y in s && NameOf(st, x) == NameOf(st, y) ==> x == y
  }

  /**
   * What `getUnreferencedVariables` promises of its result `r` for loop `l`:
   * the named non-label operand values of the loop, sorted by name, less one
   * for each equally named value the loop defines, without adjacent repeats.
   * A name shows up in `r` exactly when the loop uses it more often than it
   * defines it; when no two distinct operands share a name, `r` is strictly
   * ordered.  `std::sort` leaves the order of equally named values open, so
   * this is a relation and not a function.
   */
  ghost predicate Unreferenced(st: IrState, l: nat, r: seq<Operand>)
    requires l < |st.loops|
  {
    var body := st.loops[l].blocks;
    var declared := DeclaredIn(st, body);
    var arguments := ArgumentsIn(st, body);
    SortedByName(st, r) &&
    (forall x :: x in r ==> x in arguments) &&
    (forall x :: x in r ==> !x.Label? && NameOf(st, x) != "" && exists b :: b in body && x in BlockValues(BlockAt(st, b))) &&
    (forall i :: 0 <= i < |r| - 1 ==> r[i] != r[i + 1]) &&
    (forall n :: HasName(st, r, n) <==> CountName(st, arguments, n) > CountName(st, declared, n)) &&
    (NamesDistinct(st, arguments) ==> StrictlyByName(st, r))
  }

  /** `getUnreferencedVariables` on loop `l`. */
  method GetUnreferencedVariables(st: IrState, l: nat) returns (r: seq<Operand>)
    requires l < |st.loops|
    ensures Unreferenced(st, l, r)
  {
    var declared, arguments := CollectNamed(st, st.loops[l].blocks);
    var sortedDeclared := SortByName(st, declared);
    var sortedArguments := SortByName(st, arguments);
    var unreferenced := SetDifferenceByName(st, sortedArguments, sortedDeclared);
    r := Unique(unreferenced);
    UnreferencedShape(st, declared, arguments, sortedDeclared, sortedArguments);
    ArgumentsInNamed(st, st.loops[l].blocks);
  }

  /** Two strictly ordered vectors with the same elements are equal. */
  lemma {:induction false} StrictlySameElements(st: IrState, r1: seq<Operand>, r2: seq<Operand>)
    requires StrictlyByName(st, r1) && StrictlyByName(st, r2)
    requires forall x :: x in r1 <==> x in r2
    ensures r1 == r2
    decreases |r1|
  {
    assert r2 != [] ==> r2[0] in r1;
    if r1 != [] {
      assert r1[0] in r2;
      assert r2 != [];
      assert r2[0] in r1;
      var i :| 0 <= i < |r1| && r1[i] == r2[0];
      var j :| 0 <= j < |r2| && r2[j] == r1[0];
      if i > 0 && j > 0 {
        NameLessAsymmetric(NameOf(st, r1[0]), NameOf(st, r1[i]));
        assert false;
      } else if i > 0 {
        NameLessIrreflexive(NameOf(st, r1[0]));
        assert false;
      } else if j > 0 {
        NameLessIrreflexive(NameOf(st, r2[0]));
        assert false;
      }
      assert r1[0] == r2[0];
      forall x | x in r1[1..] ensures x in r2[1..] {
        TailElement(st, r1, r2, x);
      }
      forall x | x in r2[1..] ensures x in r1[1..] {
        TailElement(st, r2, r1, x);
      }
      StrictlySameElements(st, r1[1..], r2[1..]);
      assert r1 == [r1[0]] + r1[1..] && r2 == [r2[0]] + r2[1..];
    }
  }

  lemma TailElement(st: IrState, r1: seq<Operand>, r2: seq<Operand>, x: Operand)
    requires StrictlyByName(st, r1) && r1 != [] && r2 != [] && r1[0] == r2[0]
    requires x in r1[1..] && x in r2
    ensures x in r2[1..]
  {
    var k :| 1 <= k < |r1| && r1[k] == x;
    if x == r1[0] {
      NameLessIrreflexive(NameOf(st, x));
    }
    var m :| 0 <= m < |r2| && r2[m] == x;
    assert r2[1..][m - 1] == x;
  }

  /**
   * When no two distinct operands of the loop share a name, the result of
   * `getUnreferencedVariables` is determined: any two vectors it could return
   * are equal.
   */
  lemma UnreferencedDeterminate(st: IrState, l: nat, r1: seq<Operand>, r2: seq<Operand>)
    requires l < |st.loops|
    requires NamesDistinct(st, ArgumentsIn(st, st.loops[l].blocks))
    requires Unreferenced(st, l, r1) && Unreferenced(st, l, r2)
    ensures r1 == r2
  {
    var body := st.loops[l].blocks;
    var arguments := ArgumentsIn(st, body);
    forall x | x in r1 ensures x in r2 {
      assert HasName(st, r1, NameOf(st, x));
      var y :| y in r2 && NameOf(st, y) == NameOf(st, x);
      assert x in arguments && y in arguments;
    }
    forall x | x in r2 ensures x in r1 {
      assert HasName(st, r2, NameOf(st, x));
      var y :| y in r1 && NameOf(st, y) == NameOf(st, x);
      assert x in arguments && y in arguments;
    }
    StrictlySameElements(st, r1, r2);
  }

  // ---- the name of the extracted function ----------------------------------

  function Digit(d: nat): char
    requires d < 10
  {
    ('0' as int + d) as char
  }

  /** `std::to_string` of a non-negative number: its decimal digits, no leading zero. */
  function NatToString(k: nat): (r: string)
    ensures |r| > 0 && forall i :: 0 <= i < |r| ==> '0' <= r[i] <= '9'
    ensures (r[0] == '0') == (k == 0)
    decreases k
  {
    if k < 10 then [Digit(k)] else NatToString(k / 10) + [Digit(k % 10)]
  }

  /** The value of a string of decimal digits. */
  function DecimalValue(s: string): nat
    decreases |s|
  {
    if s == [] then 0
    else
      var c := s[|s| - 1];
      DecimalValue(s[..|s| - 1]) * 10 + (if '0' <= c <= '9' then c as int - '0' as int else 0)
  }

  lemma {:induction false} DecimalValueOfString(k: nat)
    ensures DecimalValue(NatToString(k)) == k
    decreases k
  {
    if k >= 10 {
      DecimalValueOfString(k / 10);
      var s := NatToString(k);
      assert s[..|s| - 1] == NatToString(k / 10);
    }
  }

  lemma NatToStringInjective(a: nat, b: nat)
    requires NatToString(a) == NatToString(b)
    ensures a == b
  {
    DecimalValueOfString(a);
    DecimalValueOfString(b);
  }

  /** `BaseName + std::to_string(Count)` with the default base name. */
  function ExtractedName(k: nat): string
  {
    "extracted" + NatToString(k)
  }

  /** Different counts give different names. */
  lemma ExtractedNameInjective(a: nat, b: nat)
    requires ExtractedName(a) == ExtractedName(b)
    ensures a == b
  {
    assert ExtractedName(a)[9..] == NatToString(a);
    assert ExtractedName(b)[9..] == NatToString(b);
    NatToStringInjective(a, b);
  }

  // ---- extractLoopIntoFunction and run -------------------------------------

  /** `Function::Create` in the module: a declaration named `extractedk` is appended. */
  function WithDeclaration(st: IrState, k: nat): IrState
  {
    st.(fns := st.fns + [Fn(ExtractedName(k), [])])
  }

  /**
   * The preheader `ph` branches to `exit` in place of the header, and a call
   * of `looper` with the function `f` followed by `args` goes in before its
   * terminator.
   */
  function WithLooperCall(st: IrState, ph: BlockId, exit: BlockId, f: nat, args: seq<Operand>): IrState
  {
    var blk := WithFirstSuccessor(BlockIn(st.blocks, ph), exit);
    var call := Inst(st.nextValue, Call("looper"), [Function(f)] + args);
    st.(blocks := st.blocks[ph := blk.(insts := blk.insts + [call])], nextValue := st.nextValue + 1)
  }

  /** `eraseFromParent` on each block of `body`: gone from the blocks and from every layout. */
  function Erased(st: IrState, body: seq<BlockId>): IrState
  {
    st.(blocks := st.blocks - (set b | b in body), fns := LayoutsWithout(st.fns, body))
  }

  /**
   * The state after `extractLoopIntoFunction` of loop `l`, with the counter
   * at `k` and `args` the vector `getUnreferencedVariables` returned.
   */
  function PrototypeExtracted(st: IrState, l: nat, k: nat, args: seq<Operand>): IrState
    requires l < |st.loops| && Preheader(st, l).Some? && ExitBlock(st, l).Some?
  {
    var decl := WithDeclaration(st, k);
    Erased(WithLooperCall(decl, Preheader(st, l).value, ExitBlock(st, l).value, |st.fns|, args), st.loops[l].blocks)
  }

  /** Erasing blocks leaves an empty layout empty. */
  lemma {:induction false} LayoutsWithoutEmpty(fns: seq<Fn>, bs: seq<BlockId>, j: nat)
    requires j < |fns| && fns[j].layout == []
    ensures LayoutsWithout(fns, bs)[j] == fns[j]
    decreases |bs|
  {
    if bs != [] {
      LayoutsWithoutEmpty(fns, bs[..|bs| - 1], j);
    }
  }

  /**
   * What extraction leaves: the new declaration at the end of the function
   * list, the other functions without the loop's blocks; the preheader going
   * straight to the exit block after calling `looper` with the new function
   * and `args`; the loop's blocks gone and every other block as it was; the
   * loop nest and the names untouched.
   */
  lemma PrototypeExtractedShape(st: IrState, l: nat, k: nat, args: seq<Operand>)
    requires l < |st.loops| && Preheader(st, l).Some? && ExitBlock(st, l).Some?
    ensures var r := PrototypeExtracted(st, l, k, args);
      |r.fns| == |st.fns| + 1 && r.fns[|st.fns|] == Fn(ExtractedName(k), [])
    ensures var r := PrototypeExtracted(st, l, k, args);
      forall j :: 0 <= j < |st.fns| ==>
        (r.fns[j].name == st.fns[j].name &&
         forall b :: b in r.fns[j].layout <==> b in st.fns[j].layout && b !in st.loops[l].blocks)
    ensures var r := PrototypeExtracted(st, l, k, args);
      var ph := Preheader(st, l).value;
      ph in r.blocks && r.blocks[ph].term.succs == [ExitBlock(st, l).value] &&
      r.blocks[ph].insts == st.blocks[ph].insts + [Inst(st.nextValue, Call("looper"), [Function(|st.fns|)] + args)]
    ensures var r := PrototypeExtracted(st, l, k, args);
      var body := st.loops[l].blocks;
      (forall b :: b in body ==> b !in r.blocks) &&
      (forall b :: b in st.blocks && b !in body && b != Preheader(st, l).value ==> b in r.blocks && r.blocks[b] == st.blocks[b])
    ensures var r := PrototypeExtracted(st, l, k, args);
      r.loops == st.loops && r.names == st.names && r.nextValue == st.nextValue + 1
  {
    var ph := Preheader(st, l).value;
    var body := st.loops[l].blocks;
    var decl := WithDeclaration(st, k);
    LayoutsWithoutEffect(decl.fns, body);
    var r := PrototypeExtracted(st, l, k, args);
    LayoutsWithoutEmpty(decl.fns, body, |st.fns|);
    assert ph in st.blocks;
  }

  /** The checks of `run` on a loop, in the order they are made. */
  predicate Eligible(st: IrState, l: nat)
    requires l < |st.loops|
  {
    IsInnermost(st, l) && Preheader(st, l).Some? && Latch(st, l).Some? &&
    ExitingBlock(st, l).Some? && ExitBlock(st, l).Some?
  }

  /**
   * The prototype pass: the host IR it edits and the counter of
   * `extractLoopIntoFunction`, with the names handed out so far.
   */
  class PrototypePass {
    const ir: HostIr
    var count: nat
    ghost var created: seq<string>

    ghost predicate Valid()
      reads this
    {
      |created| == count && forall k :: 0 <= k < count ==> created[k] == ExtractedName(k + 1)
    }

    constructor (ir: HostIr)
      ensures this.ir == ir && count == 0 && created == [] && Valid()
    {
      this.ir := ir;
      count := 0;
      created := [];
    }

    /**
     * `extractLoopIntoFunction`: the counter is bumped, and the host IR
     * becomes the state `PrototypeExtracted` describes for the vector `args`
     * that `getUnreferencedVariables` returned.  The new name was never
     * handed out before.
     */
    method ExtractLoopIntoFunction(l: nat) returns (f: nat, args: seq<Operand>)
      requires Valid() && l < |ir.loops|
      requires Preheader(ir.Snapshot(), l).Some? && ExitBlock(ir.Snapshot(), l).Some?
      modifies this, ir
      ensures Valid() && count == old(count) + 1 && created == old(created) + [ExtractedName(count)]
      ensures ExtractedName(count) !in old(created)
      ensures f == |old(ir.fns)|
      ensures Unreferenced(WithDeclaration(old(ir.Snapshot()), count), l, args)
      ensures ir.Snapshot() == PrototypeExtracted(old(ir.Snapshot()), l, count, args)
    {
      var st := ir.Snapshot();
      f := DeclareExtracted();
      args := GetUnreferencedVariables(ir.Snapshot(), l);
      CallAndErase(ir, Preheader(st, l).value, ExitBlock(st, l).value, f, args, st.loops[l].blocks);
    }

    /** The counter is bumped and a declaration with the new name is appended to the module's functions. */
    method DeclareExtracted() returns (f: nat)
      requires Valid()
      modifies this, ir
      ensures Valid() && count == old(count) + 1 && created == old(created) + [ExtractedName(count)]
      ensures ExtractedName(count) !in old(created)
      ensures f == |old(ir.fns)|
      ensures ir.Snapshot() == WithDeclaration(old(ir.Snapshot()), count)
    {
      FreshName(created);
      count := count + 1;
      created := created + [ExtractedName(count)];
      f := |ir.fns|;
      ir.fns := ir.fns + [Fn(ExtractedName(count), [])];
    }

    /** The looper call goes into the preheader, then the loop's blocks are erased. */
    static method CallAndErase(ir: HostIr, ph: BlockId, exit: BlockId, f: nat, args: seq<Operand>, body: seq<BlockId>)
      modifies ir
      ensures ir.Snapshot() == Erased(WithLooperCall(old(ir.Snapshot()), ph, exit, f, args), body)
    {
      InsertLooperCall(ir, ph, exit, f, args);
      EraseBlocks(ir, body);
    }

    /** The count after `created` names were handed out gives a name not among them. */
    static lemma FreshName(created: seq<string>)
      requires forall k :: 0 <= k < |created| ==> created[k] == ExtractedName(k + 1)
      ensures ExtractedName(|created| + 1) !in created
    {
      if ExtractedName(|created| + 1) in created {
        var k :| 0 <= k < |created| && created[k] == ExtractedName(|created| + 1);
        ExtractedNameInjective(k + 1, |created| + 1);
      }
    }

    /** `setSuccessor(0, exit)` on the preheader's branch and `CreateCall` of `looper` before it. */
    static method InsertLooperCall(ir: HostIr, ph: BlockId, exit: BlockId, f: nat, args: seq<Operand>)
      modifies ir
      ensures ir.Snapshot() == WithLooperCall(old(ir.Snapshot()), ph, exit, f, args)
    {
      var term := WithFirstSuccessor(BlockIn(ir.blocks, ph), exit);
      ir.blocks := ir.blocks[ph := term.(insts := term.insts + [Inst(ir.nextValue, Call("looper"), [Function(f)] + args)])];
      ir.nextValue := ir.nextValue + 1;
    }

    /** The last loop of `extractLoopIntoFunction`: `eraseFromParent` on every block of the loop. */
    static method EraseBlocks(ir: HostIr, body: seq<BlockId>)
      modifies ir
      ensures ir.Snapshot() == old(ir.Snapshot()).(blocks := old(ir.blocks) - (set b | b in body),
                                                   fns := LayoutsWithout(old(ir.fns), body))
    {
      for i := 0 to |body|
        invariant ir.Snapshot() == old(ir.Snapshot()).(blocks := old(ir.blocks) - (set b | b in body[..i]),
                                                       fns := LayoutsWithout(old(ir.fns), body[..i]))
      {
        assert body[..i + 1][..i] == body[..i];
        ir.blocks := ir.blocks - {body[i]};
        ir.fns := LayoutWithout(ir.fns, body[i]);
      }
      assert body[..|body|] == body;
    }

    /**
     * `run` on loop `l`: a loop that fails one of the checks is left alone
     * and every analysis is preserved; any other loop is extracted and none
     * is.
     */
    method RunOnLoop(l: nat) returns (preserved: Preserved)
      requires Valid() && l < |ir.loops|
      modifies this, ir
      ensures Valid()
      ensures preserved == PreservedAll <==> !Eligible(old(ir.Snapshot()), l)
      ensures preserved == PreservedAll ==> ir.Snapshot() == old(ir.Snapshot()) && count == old(count)
      ensures preserved == PreservedNone ==>
        count == old(count) + 1 &&
        exists args :: Unreferenced(WithDeclaration(old(ir.Snapshot()), count), l, args) &&
          ir.Snapshot() == PrototypeExtracted(old(ir.Snapshot()), l, count, args)
    {
      var st := ir.Snapshot();
      if !IsInnermost(st, l) {
        return PreservedAll;
      }
      if Preheader(st, l).None? || Latch(st, l).None? {
        return PreservedAll;
      }
      if ExitingBlock(st, l).None? || ExitBlock(st, l).None? {
        return PreservedAll;
      }
      var _, args := ExtractLoopIntoFunction(l);
      return PreservedNone;
    }
  }
}
