/**
 * The small integer loops the pass is tried on.  Each loop the pass extracts
 * is written twice: as the native loop, and with the loop replaced by what
 * the pass leaves behind, a call of `looper` on the extracted function.  The extracted function runs
 * one trip of the loop per call: the header's test, and on success the body
 * and the latch followed by `true`, on failure the exit edge and `false`.
 * The loop's variables live in memory the function reaches through its
 * captured pointers, so they are the memory `S` of the loopee here.
 */
module ReferenceLoops {
  import opened Looper

  // ---- a loop and its extracted function ------------------------------------

  /** `body` applied `k` times. */
  function Iterate<S>(body: S -> S, s: S, k: nat): S
    decreases k
  {
    if k == 0 then s else body(Iterate(body, s, k - 1))
  }

  /** `while (cond) body` leaves after exactly `n` trips. */
  predicate LeavesAfter<S>(cond: S -> bool, body: S -> S, s: S, n: nat)
  {
    (forall k :: 0 <= k < n ==> cond(Iterate(body, s, k))) && !cond(Iterate(body, s, n))
  }

  /** The function the pass extracts from `while (cond) body`; it reads all of its captured arguments. */
  function Extracted<A, S>(cond: S -> bool, body: S -> S): Loopee<A, S>
  {
    (args: seq<A>, s: S) => if cond(s) then Outcome(true, |args|, body(s)) else Outcome(false, |args|, s)
  }

  lemma {:induction false} DrivenStates<A, S>(cond: S -> bool, body: S -> S, args: seq<A>, s: S, n: nat, k: nat)
    requires LeavesAfter(cond, body, s, n) && k <= n
    ensures StateAfter(Extracted(cond, body), args, s, k) == Iterate(body, s, k)
    decreases k
  {
    if k > 0 {
      DrivenStates(cond, body, args, s, n, k - 1);
      StateAfterLast(Extracted(cond, body), args, s, k - 1);
    }
  }

  /**
   * Driving the extracted function with `looper` is running the loop: the
   * first false comes after exactly as many calls as the loop makes trips,
   * and the memory is left as the loop leaves it.
   */
  lemma DrivenIsNative<A, S>(cond: S -> bool, body: S -> S, args: seq<A>, s: S, n: nat)
    requires LeavesAfter(cond, body, s, n)
    ensures FirstFalseAt(Extracted(cond, body), args, s, n)
    ensures StateAfter(Extracted(cond, body), args, s, n + 1) == Iterate(body, s, n)
  {
    var loopee := Extracted<A, S>(cond, body);
    forall k | 0 <= k <= n ensures StateAfter(loopee, args, s, k) == Iterate(body, s, k) {
      DrivenStates(cond, body, args, s, n, k);
    }
    StateAfterLast(loopee, args, s, n);
  }

  /** The loop variable and the accumulator of a test loop. */
  datatype Counters = Counters(i: int, a: int)

  function CountUp(s: Counters): Counters { Counters(s.i + 1, s.a + 1) }
  function CountDown(s: Counters): Counters { Counters(s.i - 1, s.a + 1) }

  lemma {:induction false} CountUpIterate(s: Counters, k: nat)
    ensures Iterate(CountUp, s, k) == Counters(s.i + k, s.a + k)
    decreases k
  {
    if k > 0 {
      CountUpIterate(s, k - 1);
    }
  }

  lemma {:induction false} CountDownIterate(s: Counters, k: nat)
    ensures Iterate(CountDown, s, k) == Counters(s.i - k, s.a + k)
    decreases k
  {
    if k > 0 {
      CountDownIterate(s, k - 1);
    }
  }

  /** `for (i = lo; i < hi; ++i) ++a;` leaves after `hi - lo` trips with `a` grown by as much. */
  lemma CountUpLeaves(lo: int, hi: int, a: int)
    requires lo <= hi
    ensures LeavesAfter((s: Counters) => s.i < hi, CountUp, Counters(lo, a), hi - lo)
    ensures Iterate(CountUp, Counters(lo, a), hi - lo) == Counters(hi, a + hi - lo)
  {
    forall k | 0 <= k < hi - lo ensures Iterate(CountUp, Counters(lo, a), k).i < hi {
      CountUpIterate(Counters(lo, a), k);
    }
    CountUpIterate(Counters(lo, a), hi - lo);
  }

  /** `for (; i > 0; --i) ++a;` from `i = hi` leaves after `hi` trips with `a` grown by `hi`. */
  lemma CountDownLeaves(hi: nat, a: int)
    ensures LeavesAfter((s: Counters) => s.i > 0, CountDown, Counters(hi, a), hi)
    ensures Iterate(CountDown, Counters(hi, a), hi) == Counters(0, a + hi)
  {
    forall k | 0 <= k < hi ensures Iterate(CountDown, Counters(hi, a), k).i > 0 {
      CountDownIterate(Counters(hi, a), k);
    }
    CountDownIterate(Counters(hi, a), hi);
  }

  /** `looper` on the extracted function of `while (cond) body`, from the memory `s`. */
  method RunExtracted(cond: Counters -> bool, body: Counters -> Counters, s: Counters, ghost n: nat)
    returns (r: Counters)
    requires LeavesAfter(cond, body, s, n)
    ensures r == Iterate(body, s, n)
  {
    DrivenIsNative<nat, Counters>(cond, body, [], s, n);
    var rt := new Runtime(Extracted<nat, Counters>(cond, body), s);
    Looper.LooperMain(rt, [], n);
    r := rt.mem;
  }

  // ---- multiple_loops ---------------------------------------------------------

  /** `multiple_loops`: ten trips up and twenty down, one increment each. */
  method MultipleLoops() returns (r: int)
    ensures r == 30
  {
    var a := 0;
    var i := 0;
    while i < 10
      invariant 0 <= i <= 10 && a == i
    {
      a := a + 1;
      i := i + 1;
    }
    i := 20;
    while i > 0
      invariant 0 <= i <= 20 && a == 10 + (20 - i)
    {
      a := a + 1;
      i := i - 1;
    }
    return a;
  }

  /** `multiple_loops` with both loops extracted and driven by `looper`. */
  method MultipleLoopsExtracted() returns (r: int)
    ensures r == 30
  {
    CountUpLeaves(0, 10, 0);
    var s := RunExtracted((s: Counters) => s.i < 10, CountUp, Counters(0, 0), 10);
    CountDownLeaves(20, s.a);
    s := RunExtracted((s: Counters) => s.i > 0, CountDown, s.(i := 20), 20);
    return s.a;
  }

  // ---- return_in_loop ---------------------------------------------------------

  /**
   * `return_in_loop`: the first trip returns 100.  The body always returns,
   * so the increment is never reached and the loop has no back edge that
   * can be taken: loop analysis finds no loop here and the pass leaves the
   * function as it is, so only the native form is written.
   */
  method ReturnInLoop() returns (r: int)
    ensures r == 100
  {
    var i := 20;
    var returned := false;
    r := 0;
    while i < 100 && !returned
      invariant i == 20 && (returned ==> r == 100)
      decreases if returned then 0 else 1
    {
      r := 100;
      returned := true;
    }
    if !returned {
      r := -1;
    }
  }

  // ---- switch_in_loop ---------------------------------------------------------

  /** One trip of the body of `switch_in_loop` at `i`. */
  function SwitchCase(i: int, a: int): int
  {
    if i == 0 then a + 2
    else if i == 5 then a - 1
    else if i == 10 then a + a
    else if i == 15 then a * a
    else a + 1
  }

  /**
   * `a` after `k` trips of `switch_in_loop`, in closed form: 2 after the
   * first, 6 before case 5 and 5 after it, 9 before case 10 and 18 after
   * it, 22 before case 15 and 484 after it, and 488 at the end.
   */
  function SwitchValue(k: nat): int
  {
    if k == 0 then 0
    else if k <= 5 then k + 1
    else if k <= 10 then k - 1
    else if k <= 15 then k + 7
    else k + 468
  }

  lemma SwitchValueStep(k: nat)
    requires k < 20
    ensures SwitchValue(k + 1) == SwitchCase(k, SwitchValue(k))
  {
  }

  /** `switch_in_loop`: the switch on `i` for `i` from 0 to 19. */
  method SwitchInLoop() returns (r: int)
    ensures r == 488 && r == SwitchValue(20)
  {
    var a := 0;
    for i := 0 to 20
      invariant a == SwitchValue(i)
    {
      SwitchValueStep(i);
      if i == 0 {
        a := a + 2;
      } else if i == 5 {
        a := a - 1;
      } else if i == 10 {
        a := a + a;
      } else if i == 15 {
        a := a * a;
      } else {
        a := a + 1;
      }
    }
    return a;
  }

  function SwitchTrip(s: Counters): Counters { Counters(s.i + 1, SwitchCase(s.i, s.a)) }

  lemma {:induction false} SwitchIterate(k: nat)
    requires k <= 20
    ensures Iterate(SwitchTrip, Counters(0, 0), k) == Counters(k, SwitchValue(k))
    decreases k
  {
    if k > 0 {
      SwitchIterate(k - 1);
      SwitchValueStep(k - 1);
    }
  }

  /** `switch_in_loop` with its loop extracted and driven by `looper`. */
  method SwitchInLoopExtracted() returns (r: int)
    ensures r == 488
  {
    forall k | 0 <= k < 20 ensures Iterate(SwitchTrip, Counters(0, 0), k).i < 20 {
      SwitchIterate(k);
    }
    SwitchIterate(20);
    var s := RunExtracted((s: Counters) => s.i < 20, SwitchTrip, Counters(0, 0), 20);
    return s.a;
  }

  // ---- octuple_nested_loop ----------------------------------------------------

  /** `octuple_nested_loop`: eight nested loops of ten trips around one increment. */
  method OctupleNestedLoop() returns (r: int)
    ensures r == 100000000
  {
    var a := 0;
    var i := 0;
    while i < 10
      invariant 0 <= i <= 10 && a == i * 10000000
    {
      var j := 0;
      while j < 10
        invariant 0 <= j <= 10 && a == i * 10000000 + j * 1000000
      {
        var k := 0;
        while k < 10
          invariant 0 <= k <= 10 && a == i * 10000000 + j * 1000000 + k * 100000
        {
          var l := 0;
          while l < 10
            invariant 0 <= l <= 10 && a == i * 10000000 + j * 1000000 + k * 100000 + l * 10000
          {
            var m := 0;
            while m < 10
              invariant 0 <= m <= 10 && a == i * 10000000 + j * 1000000 + k * 100000 + l * 10000 + m * 1000
            {
              a := Inner3(a);
              m := m + 1;
            }
            l := l + 1;
          }
          k := k + 1;
        }
        j := j + 1;
      }
      i := i + 1;
    }
    return a;
  }

  /** The three innermost loops of `octuple_nested_loop`. */
  method Inner3(a0: int) returns (a: int)
    ensures a == a0 + 1000
  {
    a := a0;
    var n := 0;
    while n < 10
      invariant 0 <= n <= 10 && a == a0 + n * 100
    {
      var o := 0;
      while o < 10
        invariant 0 <= o <= 10 && a == a0 + n * 100 + o * 10
      {
        var p := 0;
        while p < 10
          invariant 0 <= p <= 10 && a == a0 + n * 100 + o * 10 + p
        {
          a := a + 1;
          p := p + 1;
        }
        o := o + 1;
      }
      n := n + 1;
    }
  }

  /** `octuple_nested_loop` with its innermost loop extracted and driven by `looper`. */
  method OctupleNestedLoopExtracted() returns (r: int)
    ensures r == 100000000
  {
    var a := 0;
    var i := 0;
    while i < 10
      invariant 0 <= i <= 10 && a == i * 10000000
    {
      var j := 0;
      while j < 10
        invariant 0 <= j <= 10 && a == i * 10000000 + j * 1000000
      {
        var k := 0;
        while k < 10
          invariant 0 <= k <= 10 && a == i * 10000000 + j * 1000000 + k * 100000
        {
          var l := 0;
          while l < 10
            invariant 0 <= l <= 10 && a == i * 10000000 + j * 1000000 + k * 100000 + l * 10000
          {
            var m := 0;
            while m < 10
              invariant 0 <= m <= 10 && a == i * 10000000 + j * 1000000 + k * 100000 + l * 10000 + m * 1000
            {
              a := Inner3Extracted(a);
              m := m + 1;
            }
            l := l + 1;
          }
          k := k + 1;
        }
        j := j + 1;
      }
      i := i + 1;
    }
    return a;
  }

  /** The three innermost loops, the innermost one replaced by a `looper` call. */
  method Inner3Extracted(a0: int) returns (a: int)
    ensures a == a0 + 1000
  {
    a := a0;
    var n := 0;
    while n < 10
      invariant 0 <= n <= 10 && a == a0 + n * 100
    {
      var o := 0;
      while o < 10
        invariant 0 <= o <= 10 && a == a0 + n * 100 + o * 10
      {
        CountUpLeaves(0, 10, a);
        var s := RunExtracted((s: Counters) => s.i < 10, CountUp, Counters(0, a), 10);
        a := s.a;
        o := o + 1;
      }
      n := n + 1;
    }
  }
}
