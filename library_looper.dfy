/**
 * The library version of the runtime `looper`: the same repetition as the
 * pass's own runtime, with no recursion cutoff.  Each level keeps a copy of
 * the cursor, lets the loopee consume the original and, on true, recurses on
 * the copy, releasing it once the recursion returns; the recursion is as
 * deep as the number of calls that return true.
 */
module LibraryLooper {
  import opened Looper

  /**
   * `looper_internal_multiple_arguments` at recursion level `level` (a
   * ghost count of the frames below `looper`): with the first false at call
   * `n`, the calls are exactly those of `simple_while`, every cursor copied
   * is released, and the recursion reaches level `level + n`.
   */
  method InternalMultipleArguments<A, S>(rt: Runtime<A, S>, vl: VaList<A>, ghost level: nat, ghost n: nat)
    requires vl.open && FirstFalseAt(rt.loopee, vl.View(), rt.mem, n)
    modifies rt, vl
    ensures rt.mem == StateAfter(rt.loopee, old(vl.View()), old(rt.mem), n + 1)
    ensures rt.calls == old(rt.calls) + Trace(rt.loopee, old(vl.View()), old(rt.mem), n + 1)
    ensures rt.live == old(rt.live) && vl.open
    ensures rt.deepest == Max(old(rt.deepest), level + n)
    ensures vl.pos == Advance(old(vl.pos), rt.loopee(old(vl.View()), old(rt.mem)).used, |vl.args|)
    decreases n
  {
    rt.deepest := Max(rt.deepest, level);
    ghost var args, s := vl.View(), rt.mem;
    var stored := rt.VaCopy(vl);
    ghost var consumed := Advance(vl.pos, rt.loopee(args, s).used, |vl.args|);
    var proceed := rt.Call(vl);
    assert vl.pos == consumed;
    assert n > 0 ==> ProceedsAt(rt.loopee, args, s, 0);
    if proceed {
      FirstFalseShift(rt.loopee, args, s, n);
      InternalMultipleArguments(rt, stored, level + 1, n - 1);
    }
    rt.VaEnd(stored);
    assert vl.pos == consumed;
  }

  /**
   * `looper`: `va_start`, the multiple-arguments variant, `va_end`.  The
   * loopee is called `n + 1` times on all of `args` and no cursor is left
   * open.
   */
  method LooperMain<A, S>(rt: Runtime<A, S>, args: seq<A>, ghost n: nat)
    requires FirstFalseAt(rt.loopee, args, rt.mem, n)
    modifies rt
    ensures rt.mem == StateAfter(rt.loopee, args, old(rt.mem), n + 1)
    ensures rt.calls == old(rt.calls) + Trace(rt.loopee, args, old(rt.mem), n + 1)
    ensures rt.live == old(rt.live)
    ensures rt.deepest == Max(old(rt.deepest), n)
  {
    var vl := rt.VaStart(args);
    InternalMultipleArguments(rt, vl, 0, n);
    rt.VaEnd(vl);
  }
}
