/**
 * The lock-free memory budget: threads run `try_allocate` and `release` as
 * atomic loads and compare-exchanges that interleave freely. Additions wrap
 * at the word size, as release builds do.
 */
module MemoryLimiter {
  const USIZE: nat := 0x1_0000_0000_0000_0000

  /** Where a thread is between two atomic operations. */
  datatype Pc =
    | Idle
    | Allocating(bytes: nat)                        // before the load
    | AllocLoaded(bytes: nat, seen: nat, raised: nat)  // before the compare-exchange
    | AllocSwapped(bytes: nat, raised: nat)            // before `fetch_max` on the peak
    | Releasing(bytes: nat)                         // before the first load
    | ReleaseLoaded(bytes: nat, seen: nat)          // before the compare-exchange

  datatype State = State(
    limit: nat,
    current: nat,
    peak: nat,
    threads: seq<Pc>,
    granted: nat,   // bytes of all successful allocations
    released: nat,  // bytes of all completed releases
    owed: nat,      // granted to callers that have not begun to release them
    highest: nat,   // the largest usage so far
    refusals: seq<(nat, nat)>)  // (usage loaded, bytes asked) of every refusal

  datatype Step =
    | BeginAllocate(t: nat, bytes: nat)
    | LoadAllocate(t: nat)
    | SwapAllocate(t: nat)
    | RaisePeak(t: nat)
    | BeginRelease(t: nat, bytes: nat)
    | LoadRelease(t: nat)
    | SwapRelease(t: nat, spurious: bool)

  function Max(a: nat, b: nat): (m: nat)
  {
    if a < b then b else a
  }

  function Start(limit: nat, threads: nat): (s: State)
  {
    State(limit, 0, 0, seq(threads, _ => Idle), 0, 0, 0, 0, [])
  }

  function Moved(s: State, t: nat, pc: Pc): (next: State)
    requires t < |s.threads|
  {
    s.(threads := s.threads[t := pc])
  }

  /** One atomic operation of one thread; a step the thread is not at does nothing. */
  function Next(s: State, step: Step): (next: State)
  {
    if step.t >= |s.threads| then s
    else
      match (step, s.threads[step.t])
      case (BeginAllocate(t, bytes), Idle) => Moved(s, t, Allocating(bytes))
      case (LoadAllocate(t), Allocating(bytes)) =>
        var raised := (s.current + bytes) % USIZE;
        if raised > s.limit then Moved(s, t, Idle).(refusals := s.refusals + [(s.current, bytes)])
        else Moved(s, t, AllocLoaded(bytes, s.current, raised))
      case (SwapAllocate(t), AllocLoaded(bytes, seen, raised)) =>
        if s.current == seen then
          Moved(s, t, AllocSwapped(bytes, raised)).(current := raised, granted := s.granted + bytes, highest := Max(s.highest, raised))
        else Moved(s, t, Allocating(bytes))
      case (RaisePeak(t), AllocSwapped(bytes, raised)) =>
        Moved(s, t, Idle).(peak := Max(s.peak, raised), owed := s.owed + bytes)
      case (BeginRelease(t, bytes), Idle) =>
        // Callers release only what they were granted.
        if bytes <= s.owed then Moved(s, t, Releasing(bytes)).(owed := s.owed - bytes) else s
      case (LoadRelease(t), Releasing(bytes)) => Moved(s, t, ReleaseLoaded(bytes, s.current))
      case (SwapRelease(t, spurious), ReleaseLoaded(bytes, seen)) =>
        if s.current == seen && !spurious then
          Moved(s, t, Idle).(current := if bytes <= seen then seen - bytes else 0, released := s.released + bytes)
        else Moved(s, t, ReleaseLoaded(bytes, s.current))
      case _ => s
  }

  function After(s: State, steps: seq<Step>): (last: State)
  {
    if steps == [] then s else Next(After(s, steps[..|steps| - 1]), steps[|steps| - 1])
  }

  /** Bytes a thread holds that are neither owed nor given back. */
  function Held(pc: Pc): (bytes: nat)
  {
    match pc
    case AllocSwapped(bytes, _) => bytes
    case Releasing(bytes) => bytes
    case ReleaseLoaded(bytes, _) => bytes
    case _ => 0
  }

  function HeldBy(threads: seq<Pc>): (bytes: nat)
  {
    if threads == [] then 0 else Held(threads[0]) + HeldBy(threads[1..])
  }

  lemma {:induction false} HeldAfterMove(threads: seq<Pc>, t: nat, pc: Pc)
    requires t < |threads|
    ensures HeldBy(threads[t := pc]) == HeldBy(threads) - Held(threads[t]) + Held(pc)
    ensures Held(threads[t]) <= HeldBy(threads)
  {
    if t == 0 {
      assert threads[t := pc][1..] == threads[1..];
    } else {
      assert threads[t := pc][1..] == threads[1..][t - 1 := pc];
      HeldAfterMove(threads[1..], t - 1, pc);
    }
  }

  // ---------------------------------------------------------------------------
  // What holds with any request sizes
  // ---------------------------------------------------------------------------

  /** The peak trails the highest usage only while its setter is about to raise it. */
  ghost predicate PeakTrails(s: State)
  {
    && s.current <= s.highest && s.peak <= s.highest
    && (forall t :: 0 <= t < |s.threads| && s.threads[t].AllocSwapped? ==> s.threads[t].raised <= s.highest)
    && (s.peak == s.highest || exists t :: 0 <= t < |s.threads| && RaisesTo(s.threads[t], s.highest))
  }

  ghost predicate RaisesTo(pc: Pc, usage: nat)
  {
    pc.AllocSwapped? && pc.raised == usage
  }

  ghost predicate WithinLimit(s: State)
  {
    && s.current <= s.limit
    && (forall t :: 0 <= t < |s.threads| && s.threads[t].AllocLoaded? ==>
          s.threads[t].raised <= s.limit && s.threads[t].raised == (s.threads[t].seen + s.threads[t].bytes) % USIZE)
  }

  /** Every refusal was right about the usage its thread had loaded. */
  ghost predicate RefusalsRight(s: State)
  {
    forall i :: 0 <= i < |s.refusals| ==> s.refusals[i].0 + s.refusals[i].1 > s.limit
  }

  ghost predicate Safe(s: State)
  {
    WithinLimit(s) && PeakTrails(s) && RefusalsRight(s)
  }

  lemma LimitStep(s: State, step: Step)
    requires WithinLimit(s) && RefusalsRight(s)
    ensures WithinLimit(Next(s, step)) && RefusalsRight(Next(s, step)) && Next(s, step).limit == s.limit
  {
  }

  lemma HighestStep(s: State, step: Step)
    requires s.current <= s.highest
    ensures Next(s, step).highest == Max(s.highest, Next(s, step).current)
  {
  }

  lemma PeakStep(s: State, step: Step)
    requires PeakTrails(s)
    ensures PeakTrails(Next(s, step))
  {
    var next := Next(s, step);
    HighestStep(s, step);
    if next != s && s.peak < s.highest && next.highest == s.highest {
      var t :| 0 <= t < |s.threads| && RaisesTo(s.threads[t], s.highest);
      assert t != step.t ==> RaisesTo(next.threads[t], next.highest);
      assert t == step.t ==> next.peak == next.highest;
    } else if next.highest != s.highest {
      assert RaisesTo(next.threads[step.t], next.highest);
    }
  }

  lemma SafeStep(s: State, step: Step)
    requires Safe(s)
    ensures Safe(Next(s, step)) && Next(s, step).limit == s.limit
  {
    LimitStep(s, step);
    PeakStep(s, step);
  }

  lemma {:induction false} SafeAlways(limit: nat, threads: nat, steps: seq<Step>)
    ensures Safe(After(Start(limit, threads), steps))
    ensures After(Start(limit, threads), steps).limit == limit
  {
    if steps != [] {
      SafeAlways(limit, threads, steps[..|steps| - 1]);
      SafeStep(After(Start(limit, threads), steps[..|steps| - 1]), steps[|steps| - 1]);
    }
  }

  /** `highest` is the largest usage of the run, and some state of the run reached it. */
  lemma {:induction false} HighestIsReached(s: State, steps: seq<Step>)
    requires s.highest == s.current
    ensures After(s, steps).current <= After(s, steps).highest
    ensures forall i :: 0 <= i <= |steps| ==> UsageAt(s, steps, i) <= After(s, steps).highest
    ensures exists i :: 0 <= i <= |steps| && UsageAt(s, steps, i) == After(s, steps).highest
  {
    var n := |steps|;
    assert steps[..n] == steps;
    assert UsageAt(s, steps, n) == After(s, steps).current;
    if n > 0 {
      var init := steps[..n - 1];
      HighestIsReached(s, init);
      HighestStep(After(s, init), steps[n - 1]);
      forall i | 0 <= i < n ensures UsageAt(s, steps, i) == UsageAt(s, init, i) {
        assert init[..i] == steps[..i];
      }
      var i :| 0 <= i <= n - 1 && UsageAt(s, init, i) == After(s, init).highest;
      assert UsageAt(s, steps, i) == After(s, init).highest;
    }
  }

  /** The usage after the first `i` steps. */
  function UsageAt(s: State, steps: seq<Step>, i: nat): (usage: nat)
    requires i <= |steps|
  {
    After(s, steps[..i]).current
  }

  /** With no thread between its swap and its peak update, the peak is the largest usage ever reached. */
  lemma PeakIsHighest(limit: nat, threads: nat, steps: seq<Step>)
    requires forall t :: 0 <= t < |After(Start(limit, threads), steps).threads| ==>
               !After(Start(limit, threads), steps).threads[t].AllocSwapped?
    ensures var last := After(Start(limit, threads), steps);
            && (forall i :: 0 <= i <= |steps| ==> UsageAt(Start(limit, threads), steps, i) <= last.peak)
            && (exists i :: 0 <= i <= |steps| && UsageAt(Start(limit, threads), steps, i) == last.peak)
  {
    SafeAlways(limit, threads, steps);
    HighestIsReached(Start(limit, threads), steps);
  }

  // ---------------------------------------------------------------------------
  // Conservation
  // ---------------------------------------------------------------------------

  /** Every byte of usage was granted and is owed, held by a thread, or being given back. */
  ghost predicate Conserved(s: State)
  {
    s.granted == s.current + s.released && s.current == s.owed + HeldBy(s.threads)
  }

  /** No request is so large that adding it to a full budget wraps. */
  ghost predicate Modest(limit: nat, steps: seq<Step>)
  {
    forall i :: 0 <= i < |steps| && steps[i].BeginAllocate? ==> limit + steps[i].bytes < USIZE
  }

  ghost predicate ModestThreads(s: State)
  {
    forall t :: 0 <= t < |s.threads| ==>
      (s.threads[t].Allocating? || s.threads[t].AllocLoaded? ==> s.limit + s.threads[t].bytes < USIZE)
      && (s.threads[t].AllocLoaded? ==> s.threads[t].raised == s.threads[t].seen + s.threads[t].bytes)
  }

  lemma ModestStep(s: State, step: Step)
    requires WithinLimit(s) && ModestThreads(s)
    requires step.BeginAllocate? ==> s.limit + step.bytes < USIZE
    ensures ModestThreads(Next(s, step))
  {
    if step.LoadAllocate? && step.t < |s.threads| && s.threads[step.t].Allocating? {
      Unwrapped(s.current + s.threads[step.t].bytes);
    }
  }

  lemma Unwrapped(sum: nat)
    requires sum < USIZE
    ensures sum % USIZE == sum
  {
  }

  lemma ConservedStep(s: State, step: Step)
    requires Conserved(s) && ModestThreads(s)
    ensures Conserved(Next(s, step))
  {
    var next := Next(s, step);
    if step.t < |s.threads| {
      HeldAfterMove(s.threads, step.t, next.threads[step.t]);
      assert next.threads == s.threads[step.t := next.threads[step.t]];
    }
  }

  lemma {:induction false} HeldWhenIdle(n: nat)
    ensures HeldBy(seq(n, _ => Idle)) == 0
  {
    if n > 0 {
      assert seq(n, _ => Idle)[1..] == seq(n - 1, _ => Idle);
      HeldWhenIdle(n - 1);
    }
  }

  /**
   * The budget, over every interleaving in which no request could wrap: usage is
   * bytes granted minus bytes released and stays within the limit, releases never
   * saturate, and refusals are justified.
   */
  lemma {:induction false} BudgetConserved(limit: nat, threads: nat, steps: seq<Step>)
    requires Modest(limit, steps)
    ensures var last := After(Start(limit, threads), steps);
            && last.current == last.granted - last.released
            && last.current <= limit
            && Conserved(last) && Safe(last) && ModestThreads(last)
  {
    SafeAlways(limit, threads, steps);
    if steps == [] {
      HeldWhenIdle(threads);
    } else {
      var init := steps[..|steps| - 1];
      BudgetConserved(limit, threads, init);
      SafeAlways(limit, threads, init);
      ConservedStep(After(Start(limit, threads), init), steps[|steps| - 1]);
      ModestStep(After(Start(limit, threads), init), steps[|steps| - 1]);
    }
  }

  /** The run of one thread that fills the budget and then asks for `bytes` more. */
  function FillThenAsk(limit: nat, bytes: nat): (steps: seq<Step>)
  {
    [BeginAllocate(0, limit), LoadAllocate(0), SwapAllocate(0), RaisePeak(0),
     BeginAllocate(0, bytes), LoadAllocate(0), SwapAllocate(0)]
  }

  /**
   * The size condition is exact: any request that can wrap is granted on a full
   * budget although it does not fit, and usage drops below the bytes in use.
   */
  lemma OversizedRequestBreaksBudget(limit: nat, bytes: nat)
    requires limit < USIZE && bytes < USIZE && limit + bytes >= USIZE
    ensures var last := After(Start(limit, 1), FillThenAsk(limit, bytes));
            && last.granted == limit + bytes && last.released == 0
            && last.current == last.granted - USIZE && last.refusals == []
  {
    var s0, run := Start(limit, 1), FillThenAsk(limit, bytes);
    AfterThree(s0, run);
    AfterThree(Next(Next(Next(s0, run[0]), run[1]), run[2]), run[3..]);
    AfterFront(Next(Next(Next(Next(Next(Next(s0, run[0]), run[1]), run[2]), run[3]), run[4]), run[5]), run[6..]);
    assert run[3..][3..] == run[6..] && run[6..][1..] == [];
    assert s0.threads == [Idle];
    GrantSteps(s0, limit);
    WrappedGrantSteps(Granted(s0, limit), bytes);
  }

  lemma AfterThree(s: State, run: seq<Step>)
    requires |run| >= 3
    ensures After(s, run) == After(Next(Next(Next(s, run[0]), run[1]), run[2]), run[3..])
  {
    AfterFront(s, run);
    AfterFront(Next(s, run[0]), run[1..]);
    AfterFront(Next(Next(s, run[0]), run[1]), run[1..][1..]);
    assert run[1..][1..][1..] == run[3..];
  }

  lemma {:induction false} AfterFront(s: State, steps: seq<Step>)
    requires steps != []
    ensures After(s, steps) == After(Next(s, steps[0]), steps[1..])
  {
    var n := |steps| - 1;
    if n == 0 {
      assert steps[..0] == [] && steps[1..] == [];
    } else {
      AfterFront(s, steps[..n]);
      assert steps[..n][1..] == steps[1..][..n - 1];
    }
  }

  function Granted(s: State, bytes: nat): (after: State)
  {
    s.(current := s.current + bytes, peak := Max(s.peak, s.current + bytes), granted := s.granted + bytes,
       owed := s.owed + bytes, highest := Max(s.highest, s.current + bytes))
  }

  /** A thread alone that asks for what fits gets it in four atomic operations. */
  lemma GrantSteps(s: State, bytes: nat)
    requires s.threads == [Idle] && s.current + bytes <= s.limit < USIZE
    ensures Next(Next(Next(Next(s, BeginAllocate(0, bytes)), LoadAllocate(0)), SwapAllocate(0)), RaisePeak(0))
            == Granted(s, bytes)
  {
    Unwrapped(s.current + bytes);
    var s1 := Moved(s, 0, Allocating(bytes));
    var s2 := Moved(s1, 0, AllocLoaded(bytes, s.current, s.current + bytes));
    assert Next(s, BeginAllocate(0, bytes)) == s1;
    assert Next(s1, LoadAllocate(0)) == s2;
    assert s2.threads[0 := AllocSwapped(bytes, s.current + bytes)][0 := Idle] == s.threads;
  }

  /** A thread alone that asks for enough to wrap gets that too, and usage falls. */
  lemma WrappedGrantSteps(s: State, bytes: nat)
    requires s.threads == [Idle] && s.current == s.limit < USIZE && bytes < USIZE <= s.limit + bytes
    ensures var last := Next(Next(Next(s, BeginAllocate(0, bytes)), LoadAllocate(0)), SwapAllocate(0));
            && last.current == s.current + bytes - USIZE && last.granted == s.granted + bytes
            && last.released == s.released && last.refusals == s.refusals
  {
    assert (s.current + bytes) % USIZE == s.current + bytes - USIZE;
    var s1 := Moved(s, 0, Allocating(bytes));
    assert Next(s, BeginAllocate(0, bytes)) == s1;
    assert Next(s1, LoadAllocate(0)) == Moved(s1, 0, AllocLoaded(bytes, s.current, s.current + bytes - USIZE));
  }
}
