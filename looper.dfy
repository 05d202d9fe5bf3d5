/**
 * The runtime `looper` the pass calls in place of a loop: it calls the
 * extracted function, the loopee, again and again until it returns false,
 * each time on a fresh copy of the variadic argument cursor, so that every
 * call reads the captured values from the start.
 *
 * The loopee is foreign code: here it is a function of the arguments left
 * on the cursor it is handed and of the memory it reads, giving back its
 * verdict, how many arguments it consumed and the new memory.  The cursor
 * bookkeeping of `va_start`, `va_copy` and `va_end`, the calls made and the
 * recursion depth reached are kept by a `Runtime` object.
 */
module Looper {
  /** `MAX_RECURSION_COUNT` when the build does not define it. */
  const MaxRecursionCount: nat := 512

  /** One call of the loopee: continue or stop, the arguments it read off the cursor, the memory after. */
  datatype Outcome<S> = Outcome(proceed: bool, used: nat, state: S)

  /** A loopee: the arguments left on its cursor and the memory, to its outcome. */
  type Loopee<!A, !S> = (seq<A>, S) -> Outcome<S>

  // ---- the sequence of calls `simple_while` makes -------------------------

  /** The memory after `k` calls, each shown the arguments `args`. */
  function StateAfter<A, S>(loopee: Loopee<A, S>, args: seq<A>, s: S, k: nat): S
    decreases k
  {
    if k == 0 then s else StateAfter(loopee, args, loopee(args, s).state, k - 1)
  }

  /** The calls `k` repetitions make: the arguments and the memory each one sees. */
  function Trace<A, S>(loopee: Loopee<A, S>, args: seq<A>, s: S, k: nat): seq<(seq<A>, S)>
    decreases k
  {
    if k == 0 then [] else [(args, s)] + Trace(loopee, args, loopee(args, s).state, k - 1)
  }

  /** Call `k` returns true. */
  predicate ProceedsAt<A, S>(loopee: Loopee<A, S>, args: seq<A>, s: S, k: nat)
  {
    loopee(args, StateAfter(loopee, args, s, k)).proceed
  }

  /** The first `n` calls return true and call `n` returns false. */
  predicate FirstFalseAt<A, S>(loopee: Loopee<A, S>, args: seq<A>, s: S, n: nat)
  {
    (forall k :: 0 <= k < n ==> ProceedsAt(loopee, args, s, k)) && !ProceedsAt(loopee, args, s, n)
  }

  lemma {:induction false} StateAfterLast<A, S>(loopee: Loopee<A, S>, args: seq<A>, s: S, k: nat)
    ensures StateAfter(loopee, args, s, k + 1) == loopee(args, StateAfter(loopee, args, s, k)).state
    decreases k
  {
    if k > 0 {
      StateAfterLast(loopee, args, loopee(args, s).state, k - 1);
    }
  }

  lemma {:induction false} TraceLast<A, S>(loopee: Loopee<A, S>, args: seq<A>, s: S, k: nat)
    ensures Trace(loopee, args, s, k + 1) == Trace(loopee, args, s, k) + [(args, StateAfter(loopee, args, s, k))]
    decreases k
  {
    if k > 0 {
      TraceLast(loopee, args, loopee(args, s).state, k - 1);
    }
  }

  /** Every call of the trace is shown the same arguments, and call `i` sees the memory after `i` calls. */
  lemma {:induction false} TraceCalls<A, S>(loopee: Loopee<A, S>, args: seq<A>, s: S, k: nat)
    ensures var t := Trace(loopee, args, s, k);
      |t| == k && forall i :: 0 <= i < k ==> t[i] == (args, StateAfter(loopee, args, s, i))
    decreases k
  {
    if k > 0 {
      var s' := loopee(args, s).state;
      TraceCalls(loopee, args, s', k - 1);
      var t := Trace(loopee, args, s, k);
      forall i | 0 < i < k ensures t[i] == (args, StateAfter(loopee, args, s, i)) {
        assert t[i] == Trace(loopee, args, s', k - 1)[i - 1];
      }
    }
  }

  /** After a first call that returns true, the first false is one call nearer. */
  lemma FirstFalseShift<A, S>(loopee: Loopee<A, S>, args: seq<A>, s: S, n: nat)
    requires FirstFalseAt(loopee, args, s, n) && loopee(args, s).proceed
    ensures n > 0 && FirstFalseAt(loopee, args, loopee(args, s).state, n - 1)
  {
    assert StateAfter(loopee, args, s, 0) == s;
    var s' := loopee(args, s).state;
    forall k | 0 <= k < n - 1 ensures ProceedsAt(loopee, args, s', k) {
      assert ProceedsAt(loopee, args, s, k + 1);
    }
    assert StateAfter(loopee, args, s, n) == StateAfter(loopee, args, s', n - 1);
  }

  /** The index of the first false is determined by the loopee, the arguments and the memory. */
  lemma FirstFalseUnique<A, S>(loopee: Loopee<A, S>, args: seq<A>, s: S, n: nat, m: nat)
    requires FirstFalseAt(loopee, args, s, n) && FirstFalseAt(loopee, args, s, m)
    ensures n == m
  {
    assert n < m ==> ProceedsAt(loopee, args, s, n);
    assert m < n ==> ProceedsAt(loopee, args, s, m);
  }

  /** The read position after `used` more arguments of `len` are read from `pos`: it stops at the end. */
  function Advance(pos: nat, used: nat, len: nat): nat { if pos + used <= len then pos + used else len }

  function Max(a: nat, b: nat): nat { if a < b then b else a }
  function Min(a: nat, b: nat): nat { if a < b then a else b }

  // ---- the cursor and the runtime -----------------------------------------

  /** A `va_list`: the variadic arguments and how far they have been read. */
  class VaList<A> {
    const args: seq<A>
    var pos: nat
    ghost var open: bool

    constructor (args: seq<A>, pos: nat)
      ensures this.args == args && this.pos == pos && open
    {
      this.args := args;
      this.pos := pos;
      open := true;
    }

    /** The arguments still to be read. */
    function View(): seq<A>
      reads this
    {
      if pos <= |args| then args[pos..] else []
    }
  }

  /**
   * The memory the loopee reads and writes, with the record of the calls
   * made (the arguments and memory each saw), the number of cursors started
   * or copied and not yet ended, and the deepest recursion count reached.
   */
  class Runtime<A, S> {
    const loopee: Loopee<A, S>
    var mem: S
    ghost var calls: seq<(seq<A>, S)>
    ghost var live: nat
    ghost var deepest: nat

    constructor (loopee: Loopee<A, S>, mem: S)
      ensures this.loopee == loopee && this.mem == mem && calls == [] && live == 0 && deepest == 0
    {
      this.loopee := loopee;
      this.mem := mem;
      calls := [];
      live := 0;
      deepest := 0;
    }

    /** `va_start`: a cursor at the first variadic argument. */
    method VaStart(args: seq<A>) returns (vl: VaList<A>)
      modifies this
      ensures fresh(vl) && vl.View() == args && vl.open
      ensures mem == old(mem) && calls == old(calls) && live == old(live) + 1 && deepest == old(deepest)
    {
      vl := new VaList(args, 0);
      live := live + 1;
    }

    /** `va_copy`: a second cursor at the same place. */
    method VaCopy(vl: VaList<A>) returns (c: VaList<A>)
      requires vl.open
      modifies this
      ensures fresh(c) && c.View() == vl.View() && c.open
      ensures mem == old(mem) && calls == old(calls) && live == old(live) + 1 && deepest == old(deepest)
    {
      c := new VaList(vl.args, vl.pos);
      live := live + 1;
    }

    /** `va_end`: the cursor is released and may not be used again. */
    method VaEnd(vl: VaList<A>)
      requires vl.open && live > 0
      modifies this, vl
      ensures !vl.open && vl.pos == old(vl.pos)
      ensures mem == old(mem) && calls == old(calls) && live == old(live) - 1 && deepest == old(deepest)
    {
      vl.open := false;
      live := live - 1;
    }

    /** `loopee(vl)`: the loopee reads its arguments off `vl`, which is left past them. */
    method Call(vl: VaList<A>) returns (proceed: bool)
      requires vl.open
      modifies this, vl
      ensures var o := loopee(old(vl.View()), old(mem));
        proceed == o.proceed && mem == o.state && calls == old(calls) + [(old(vl.View()), old(mem))]
      ensures var o := loopee(old(vl.View()), old(mem));
        vl.pos == Advance(old(vl.pos), o.used, |vl.args|) &&
        vl.View() == old(vl.View())[Min(o.used, |old(vl.View())|)..]
      ensures vl.open && live == old(live) && deepest == old(deepest)
    {
      var o := loopee(vl.View(), mem);
      calls := calls + [(vl.View(), mem)];
      mem := o.state;
      vl.pos := Advance(vl.pos, o.used, |vl.args|);
      proceed := o.proceed;
    }
  }

  // ---- lambdaize-loop/looper/looper.cpp -----------------------------------

  /**
   * `simple_while`: the loopee is called on a fresh copy of `vl` until it
   * returns false; with the first false at call `n` that is `n + 1` calls,
   * each shown the arguments of `vl`, which itself is never read.
   */
  method SimpleWhile<A, S>(rt: Runtime<A, S>, vl: VaList<A>, ghost n: nat)
    requires vl.open && FirstFalseAt(rt.loopee, vl.View(), rt.mem, n)
    modifies rt
    ensures rt.mem == StateAfter(rt.loopee, vl.View(), old(rt.mem), n + 1)
    ensures rt.calls == old(rt.calls) + Trace(rt.loopee, vl.View(), old(rt.mem), n + 1)
    ensures rt.live == old(rt.live) && rt.deepest == old(rt.deepest)
    ensures vl.pos == old(vl.pos) && vl.open
  {
    ghost var args, s := vl.View(), rt.mem;
    ghost var i: nat := 0;
    while true
      invariant i <= n
      invariant rt.mem == StateAfter(rt.loopee, args, s, i)
      invariant rt.calls == old(rt.calls) + Trace(rt.loopee, args, s, i)
      invariant rt.live == old(rt.live) && rt.deepest == old(rt.deepest)
      decreases n - i
    {
      var stored := rt.VaCopy(vl);
      var result := rt.Call(stored);
      rt.VaEnd(stored);
      StateAfterLast(rt.loopee, args, s, i);
      TraceLast(rt.loopee, args, s, i);
      assert result == ProceedsAt(rt.loopee, args, s, i);
      if !result {
        assert i == n;
        break;
      }
      i := i + 1;
    }
  }

  /**
   * `z_combinator_multiple_arguments` at recursion count `count`: below the
   * cutoff a copy of `vl` is kept, the loopee consumes `vl`, and on true the
   * recursion continues on the copy one level deeper; the copy is released
   * once that returns.  At the cutoff `simple_while` takes over.  The calls
   * made are those of `simple_while`, and the deepest count reached is
   * `count + n`, or the cutoff if that is smaller.
   */
  method ZMultipleArguments<A, S>(rt: Runtime<A, S>, vl: VaList<A>, count: nat, ghost n: nat)
    requires vl.open && count <= MaxRecursionCount && FirstFalseAt(rt.loopee, vl.View(), rt.mem, n)
    modifies rt, vl
    ensures rt.mem == StateAfter(rt.loopee, old(vl.View()), old(rt.mem), n + 1)
    ensures rt.calls == old(rt.calls) + Trace(rt.loopee, old(vl.View()), old(rt.mem), n + 1)
    ensures rt.live == old(rt.live) && vl.open
    ensures rt.deepest == Max(old(rt.deepest), Min(count + n, MaxRecursionCount))
    ensures count < MaxRecursionCount ==>
      vl.pos == Advance(old(vl.pos), rt.loopee(old(vl.View()), old(rt.mem)).used, |vl.args|)
    ensures MaxRecursionCount <= count ==> vl.pos == old(vl.pos)
    decreases MaxRecursionCount - count
  {
    rt.deepest := Max(rt.deepest, count);
    if count < MaxRecursionCount {
      ghost var args, s := vl.View(), rt.mem;
      var stored := rt.VaCopy(vl);
      ghost var consumed := Advance(vl.pos, rt.loopee(args, s).used, |vl.args|);
      var proceed := rt.Call(vl);
      assert vl.pos == consumed;
      assert n > 0 ==> ProceedsAt(rt.loopee, args, s, 0);
      if proceed {
        FirstFalseShift(rt.loopee, args, s, n);
        ZMultipleArguments(rt, stored, count + 1, n - 1);
      }
      rt.VaEnd(stored);
      assert vl.pos == consumed;
    } else {
      SimpleWhile(rt, vl, n);
    }
  }

  /**
   * `looper`: the variadic arguments after the loopee, between `va_start`
   * and `va_end`, handed to the multiple-arguments variant at count 0.  The
   * loopee is called `n + 1` times, each time on all of `args`, and every
   * cursor is released on return.
   */
  method LooperMain<A, S>(rt: Runtime<A, S>, args: seq<A>, ghost n: nat)
    requires FirstFalseAt(rt.loopee, args, rt.mem, n)
    modifies rt
    ensures rt.mem == StateAfter(rt.loopee, args, old(rt.mem), n + 1)
    ensures rt.calls == old(rt.calls) + Trace(rt.loopee, args, old(rt.mem), n + 1)
    ensures rt.live == old(rt.live)
    ensures rt.deepest == Max(old(rt.deepest), Min(n, MaxRecursionCount))
  {
    var vl := rt.VaStart(args);
    ZMultipleArguments(rt, vl, 0, n);
    rt.VaEnd(vl);
  }
}
