/** The readiness poller poll_file_rw: after a line is exported, wait until
    its `direction` file exists and can be read and written, or until the
    timeout has passed, or until the monotonic clock cannot be read.

    The filesystem and the clock are an environment `Env`: the state the
    file is found in at each tick, the first clock read, and the clock read
    taken at the end of each tick. */
module Poller {
  import opened Timing

  /** Pause between two ticks, in milliseconds (sysfsio.h). */
  const STAT_POLL_DELAY_MS := 5

  /** What the two `access` calls of one tick find. */
  datatype FileState = Absent | NoAccess | ReadWrite

  /** One `clock_gettime` call: a sample, or a failure. */
  datatype ClockRead = Sample(now: Timespec) | ClockFail

  /** The environment of one poll: `start` is the read before the loop,
      `file(k)` what tick `k` finds and `clock(k)` the read that ends tick `k`. */
  datatype Env = Env(start: ClockRead, file: nat -> FileState, clock: nat -> ClockRead)

  /** How a tick ends: the file is ready; or the loop sleeps for
      STAT_POLL_DELAY_MS and goes on; or the elapsed time is past the
      timeout; or the clock could not be read. */
  datatype Decision = Found | Retry | TimedOut | ClockLost

  /** Sample `k` is not earlier than the first one: the precondition that
      ts_diff asserts, which a monotonic clock guarantees. */
  ghost predicate SampleNotEarlier(env: Env, k: nat)
    requires env.start.Sample?
  {
    env.clock(k).Sample? ==> NotEarlier(env.clock(k).now, env.start.now)
  }

  ghost predicate Monotonic(env: Env) {
    env.start.Sample? ==> forall k: nat :: SampleNotEarlier(env, k)
  }

  /** The largest advance of the clock from one read to the next that lets
      a read within `timeoutMs` be followed by one that the 32-bit
      millisecond count still measures without wrapping around. */
  function MaxStepNs(timeoutMs: uint32): (ns: nat)
    ensures (timeoutMs + 1) * NS_PER_MS + ns == UINT32_MODULUS * NS_PER_MS
  {
    (UINT32_MODULUS - 1 - timeoutMs) * NS_PER_MS
  }

  /** The clock advances by at least one nanosecond and at most
      MaxStepNs(timeoutMs) from one read to the next. */
  predicate Step(earlier: Timespec, later: Timespec, timeoutMs: uint32) {
    TotalNs(earlier) < TotalNs(later) <= TotalNs(earlier) + MaxStepNs(timeoutMs)
  }

  /** Read `k` is normalised and one step after the read before it (the
      first read for `k == 0`), when both reads succeeded. */
  ghost predicate AdvancesAt(env: Env, timeoutMs: uint32, k: nat)
    requires env.start.Sample?
  {
    match env.clock(k)
    case ClockFail => true
    case Sample(now) =>
      Normalised(now) &&
      (k == 0 ==> Step(env.start.now, now, timeoutMs)) &&
      (k > 0 && env.clock(k - 1).Sample? ==> Step(env.clock(k - 1).now, now, timeoutMs))
  }

  /** A clock that advances at every read, by steps small enough that the
      elapsed milliseconds cannot wrap around between two reads. Under this
      hypothesis the loop terminates. */
  ghost predicate Advancing(env: Env, timeoutMs: uint32) {
    env.start.Sample? ==>
      && Normalised(env.start.now)
      && (forall k: nat :: AdvancesAt(env, timeoutMs, k))
  }

  /** Milliseconds from the first read to `now`, as the loop computes them. */
  function ElapsedMs(start: Timespec, now: Timespec): (ms: uint32)
    requires NotEarlier(now, start)
  {
    ToMs(Diff(now, start))
  }

  /** Tick `k` of the loop: the existence and access checks come first,
      and only when they fail is the clock read and compared. A ready file
      is found whatever the clock; the loop goes on only after a clock read
      that is within the timeout. */
  function Tick(env: Env, timeoutMs: uint32, k: nat): (d: Decision)
    requires env.start.Sample? && Monotonic(env)
    ensures d == Found <==> env.file(k) == ReadWrite
    ensures d == ClockLost <==> env.file(k) != ReadWrite && env.clock(k).ClockFail?
    ensures d == Retry ==>
      env.clock(k).Sample? && SampleNotEarlier(env, k) &&
      ElapsedMs(env.start.now, env.clock(k).now) <= timeoutMs
  {
    assert SampleNotEarlier(env, k);
    if env.file(k) == ReadWrite then Found
    else match env.clock(k)
      case ClockFail => ClockLost
      case Sample(now) => if ElapsedMs(env.start.now, now) > timeoutMs then TimedOut else Retry
  }

  /** Tick `k` is the first tick that does not go on. */
  ghost predicate FirstDecisionAt(env: Env, timeoutMs: uint32, k: nat)
    requires env.start.Sample? && Monotonic(env)
  {
    Tick(env, timeoutMs, k) != Retry && forall j: nat :: j < k ==> Tick(env, timeoutMs, j) == Retry
  }

  /** The poll succeeds: the first read succeeded and the first tick that
      does not go on finds the file ready. */
  ghost predicate PollResult(env: Env, timeoutMs: uint32)
    requires Monotonic(env)
  {
    env.start.Sample? &&
    exists k: nat :: FirstDecisionAt(env, timeoutMs, k) && Tick(env, timeoutMs, k) == Found
  }

  /** Nanoseconds from the first read to the read that ended tick `k - 1`
      (zero before the first tick). */
  ghost function ElapsedNsBefore(env: Env, k: nat): (ns: int)
    requires env.start.Sample?
  {
    if k == 0 || env.clock(k - 1).ClockFail? then 0
    else TotalNs(env.clock(k - 1).now) - TotalNs(env.start.now)
  }

  /** The sample the success log line of tick `k` passes to ts_diff, as
      written: `time_now` holds the read that ended the tick before, and at
      the first tick it has never been set, so it is whatever `indeterminate`
      the stack held. */
  function LogTimeAsWritten(env: Env, k: nat, indeterminate: Timespec): (t: Timespec)
    requires env.start.Sample? && (k > 0 ==> env.clock(k - 1).Sample?)
    ensures k == 0 ==> t == indeterminate
  {
    if k == 0 then indeterminate else env.clock(k - 1).now
  }

  /** At the first tick the log line can hand ts_diff a `time_now` earlier
      than `time_start`, and its assert then aborts the program, although
      the clock is monotonic and the file is ready. */
  lemma UninitialisedLogTimeUnordered()
    ensures var env := Env(Sample(Timespec(100, 0)), (k: nat) => ReadWrite, (k: nat) => ClockFail);
      && Monotonic(env) && Advancing(env, 1000)
      && Tick(env, 1000, 0) == Found
      && !NotEarlier(LogTimeAsWritten(env, 0, Timespec(0, 0)), env.start.now)
  {
  }

  /** The same sample with `time_now` initialised to `time_start`: at the
      first tick the log line measures from the first read to itself. */
  function LogTime(env: Env, k: nat): (t: Timespec)
    requires env.start.Sample? && (k > 0 ==> env.clock(k - 1).Sample?)
    ensures k == 0 ==> t == env.start.now
  {
    if k == 0 then env.start.now else env.clock(k - 1).now
  }

  /** With `time_now` initialised, the sample the log line of any tick the
      loop reaches hands to ts_diff is not earlier than the first read, so
      the assert holds. */
  lemma LogTimeOrdered(env: Env, timeoutMs: uint32, k: nat)
    requires env.start.Sample? && Monotonic(env)
    requires forall j: nat :: j < k ==> Tick(env, timeoutMs, j) == Retry
    ensures k > 0 ==> env.clock(k - 1).Sample?
    ensures NotEarlier(LogTime(env, k), env.start.now)
  {
    if k > 0 {
      assert Tick(env, timeoutMs, k - 1) == Retry;
    }
  }

  /** Elapsed milliseconds below the wrap-around are the floor of the
      elapsed nanoseconds. */
  lemma ElapsedMsExact(start: Timespec, now: Timespec)
    requires Normalised(start) && Normalised(now) && NotEarlier(now, start)
    requires TotalNs(now) - TotalNs(start) < UINT32_MODULUS * NS_PER_MS
    ensures ElapsedMs(start, now) == (TotalNs(now) - TotalNs(start)) / NS_PER_MS
  {
  }

  /** One tick under an advancing clock: a tick that goes on has moved the
      clock forward and is still within the timeout, in nanoseconds. */
  lemma RetryProgress(env: Env, timeoutMs: uint32, k: nat)
    requires env.start.Sample? && Monotonic(env) && Advancing(env, timeoutMs)
    requires k > 0 ==> env.clock(k - 1).Sample?
    requires ElapsedNsBefore(env, k) < (timeoutMs + 1) * NS_PER_MS
    requires Tick(env, timeoutMs, k) == Retry
    ensures env.clock(k).Sample?
    ensures ElapsedNsBefore(env, k) < ElapsedNsBefore(env, k + 1) < (timeoutMs + 1) * NS_PER_MS
  {
    var start := env.start.now;
    var now := env.clock(k).now;
    assert AdvancesAt(env, timeoutMs, k);
    assert SampleNotEarlier(env, k);
    var e := TotalNs(now) - TotalNs(start);
    assert ElapsedNsBefore(env, k) < e <= ElapsedNsBefore(env, k) + MaxStepNs(timeoutMs);
    ElapsedMsExact(start, now);
  }

  /** poll_file_rw. `checks` counts the ticks, each of which checks the
      file once. If the first clock read fails, no file is checked and the
      result is false. Otherwise the file is checked at least once whatever
      the timeout, every tick before the last one went on, and the result
      is true exactly when the last tick found the file ready. */
  method PollFileRw(env: Env, timeoutMs: uint32) returns (ok: bool, ghost checks: nat)
    requires Monotonic(env) && Advancing(env, timeoutMs)
    ensures env.start.ClockFail? ==> !ok && checks == 0
    ensures env.start.Sample? ==>
      && checks >= 1
      && FirstDecisionAt(env, timeoutMs, checks - 1)
      && (ok <==> Tick(env, timeoutMs, checks - 1) == Found)
    ensures ok == PollResult(env, timeoutMs)
  {
    if env.start.ClockFail? {
      return false, 0;
    }
    var start := env.start.now;
    var timeNow := start;
    var k: nat := 0;
    var timeout := false;
    while !timeout
      invariant forall j: nat :: j < k - (if timeout then 1 else 0) ==> Tick(env, timeoutMs, j) == Retry
      invariant !timeout ==> (k > 0 ==> env.clock(k - 1).Sample?)
      invariant !timeout ==> ElapsedNsBefore(env, k) < (timeoutMs + 1) * NS_PER_MS
      invariant !timeout ==> timeNow == LogTime(env, k)
      invariant timeout ==> k >= 1 && Tick(env, timeoutMs, k - 1) in {TimedOut, ClockLost}
      decreases !timeout, (timeoutMs + 1) * NS_PER_MS - ElapsedNsBefore(env, k)
    {
      var state := env.file(k);
      if state != Absent {
        if state == NoAccess {
          // present without read and write access: wait
        } else {
          LogTimeOrdered(env, timeoutMs, k);
          // the elapsed time the success log line prints, 5 ms added
          var reportedMs := (ToMs(Diff(timeNow, start)) + STAT_POLL_DELAY_MS) % UINT32_MODULUS;
          assert Tick(env, timeoutMs, k) == Found;
          assert FirstDecisionAt(env, timeoutMs, k);
          return true, k + 1;
        }
      }
      ghost var prior := ElapsedNsBefore(env, k);
      match env.clock(k) {
        case ClockFail =>
          assert Tick(env, timeoutMs, k) == ClockLost;
          timeout := true;
        case Sample(now) =>
          assert SampleNotEarlier(env, k);
          timeNow := now;
          if ToMs(Diff(now, start)) > timeoutMs {
            assert Tick(env, timeoutMs, k) == TimedOut;
            timeout := true;
          } else {
            // sleep STAT_POLL_DELAY_MS
            RetryProgress(env, timeoutMs, k);
          }
      }
      k := k + 1;
      assert !timeout ==> prior < ElapsedNsBefore(env, k);
    }
    checks := k;
    assert FirstDecisionAt(env, timeoutMs, k - 1);
    forall i: nat | FirstDecisionAt(env, timeoutMs, i)
      ensures Tick(env, timeoutMs, i) != Found
    {
      FirstDecisionUnique(env, timeoutMs, i, k - 1);
    }
    ok := false;
  }

  /** At most one tick is the first that does not go on. */
  lemma FirstDecisionUnique(env: Env, timeoutMs: uint32, i: nat, j: nat)
    requires env.start.Sample? && Monotonic(env)
    requires FirstDecisionAt(env, timeoutMs, i) && FirstDecisionAt(env, timeoutMs, j)
    ensures i == j
  {
  }

  /** Some tick decides, under an advancing clock: the loop terminates. */
  lemma DecisionReached(env: Env, timeoutMs: uint32)
    requires env.start.Sample? && Monotonic(env) && Advancing(env, timeoutMs)
    ensures exists k: nat :: FirstDecisionAt(env, timeoutMs, k)
  {
    DecisionReachedFrom(env, timeoutMs, 0);
  }

  lemma {:induction false} DecisionReachedFrom(env: Env, timeoutMs: uint32, k: nat)
    requires env.start.Sample? && Monotonic(env) && Advancing(env, timeoutMs)
    requires k > 0 ==> env.clock(k - 1).Sample?
    requires ElapsedNsBefore(env, k) < (timeoutMs + 1) * NS_PER_MS
    requires forall j: nat :: j < k ==> Tick(env, timeoutMs, j) == Retry
    ensures exists i: nat :: FirstDecisionAt(env, timeoutMs, i)
    decreases (timeoutMs + 1) * NS_PER_MS - ElapsedNsBefore(env, k)
  {
    if Tick(env, timeoutMs, k) != Retry {
      assert FirstDecisionAt(env, timeoutMs, k);
    } else {
      RetryProgress(env, timeoutMs, k);
      DecisionReachedFrom(env, timeoutMs, k + 1);
    }
  }

  /** Ticks that all went on leave the clock read and within the timeout,
      counted in nanoseconds. */
  lemma {:induction false} RetriesStayWithinTimeout(env: Env, timeoutMs: uint32, k: nat)
    requires env.start.Sample? && Monotonic(env) && Advancing(env, timeoutMs)
    requires forall j: nat :: j < k ==> Tick(env, timeoutMs, j) == Retry
    ensures k > 0 ==> env.clock(k - 1).Sample?
    ensures ElapsedNsBefore(env, k) < (timeoutMs + 1) * NS_PER_MS
  {
    if k > 0 {
      RetriesStayWithinTimeout(env, timeoutMs, k - 1);
      RetryProgress(env, timeoutMs, k - 1);
    }
  }

  /** A file that is ready at the first tick makes the poll succeed at once,
      whatever the timeout, zero included. */
  lemma ReadyAtOnce(env: Env, timeoutMs: uint32)
    requires env.start.Sample? && Monotonic(env)
    requires env.file(0) == ReadWrite
    ensures PollResult(env, timeoutMs)
  {
    assert FirstDecisionAt(env, timeoutMs, 0);
  }

  /** Success only at a tick where the file exists with read and write
      access, before which every tick found it missing or inaccessible and
      read the clock within the timeout. */
  lemma SuccessMeansReady(env: Env, timeoutMs: uint32)
    requires Monotonic(env) && PollResult(env, timeoutMs)
    ensures exists k: nat ::
      && env.file(k) == ReadWrite
      && forall j: nat :: j < k ==>
           && env.file(j) != ReadWrite
           && env.clock(j).Sample?
           && NotEarlier(env.clock(j).now, env.start.now)
           && ElapsedMs(env.start.now, env.clock(j).now) <= timeoutMs
  {
    var k: nat :| FirstDecisionAt(env, timeoutMs, k) && Tick(env, timeoutMs, k) == Found;
    forall j: nat | j < k
      ensures env.file(j) != ReadWrite && env.clock(j).Sample?
      ensures NotEarlier(env.clock(j).now, env.start.now)
      ensures ElapsedMs(env.start.now, env.clock(j).now) <= timeoutMs
    {
        assert Tick(env, timeoutMs, j) == Retry;
      assert SampleNotEarlier(env, j);
    }
  }

  /** A file that never becomes ready makes the poll fail. */
  lemma NeverReadyFails(env: Env, timeoutMs: uint32)
    requires Monotonic(env)
    requires forall k: nat :: env.file(k) != ReadWrite
    ensures !PollResult(env, timeoutMs)
  {
  }

  /** Under an advancing clock a failed poll ended at a tick that found the
      file not ready and either lost the clock or was past the timeout. */
  lemma FailureMeansStopped(env: Env, timeoutMs: uint32)
    requires env.start.Sample? && Monotonic(env) && Advancing(env, timeoutMs)
    requires !PollResult(env, timeoutMs)
    ensures exists k: nat ::
      && FirstDecisionAt(env, timeoutMs, k)
      && env.file(k) != ReadWrite
      && (env.clock(k).ClockFail? || ElapsedMs(env.start.now, env.clock(k).now) > timeoutMs)
  {
    DecisionReached(env, timeoutMs);
    var k: nat :| FirstDecisionAt(env, timeoutMs, k);
    assert Tick(env, timeoutMs, k) != Found;
  }

  /** A timeout is reported at the first clock read past the deadline, at
      most one clock step after it: the read before it (or the first read)
      was still within `timeoutMs`, and the elapsed milliseconds compared
      are exact, not wrapped around. */
  lemma TimeoutSoonAfterDeadline(env: Env, timeoutMs: uint32, k: nat)
    requires env.start.Sample? && Monotonic(env) && Advancing(env, timeoutMs)
    requires FirstDecisionAt(env, timeoutMs, k) && Tick(env, timeoutMs, k) == TimedOut
    ensures env.clock(k).Sample?
    ensures ElapsedNsBefore(env, k) < (timeoutMs + 1) * NS_PER_MS
    ensures timeoutMs < ElapsedMs(env.start.now, env.clock(k).now)
      == (TotalNs(env.clock(k).now) - TotalNs(env.start.now)) / NS_PER_MS
  {
    var start := env.start.now;
    var now := env.clock(k).now;
    assert AdvancesAt(env, timeoutMs, k);
    assert SampleNotEarlier(env, k);
    RetriesStayWithinTimeout(env, timeoutMs, k);
    ElapsedMsExact(start, now);
  }

  /** With the largest timeout the elapsed milliseconds, a `uint32`, can
      never exceed it: the loop then ends only on a ready file or a lost
      clock, and Advancing admits no clock step at all. */
  lemma MaxTimeoutNeverTimesOut(env: Env, k: nat)
    requires env.start.Sample? && Monotonic(env)
    ensures Tick(env, UINT32_MODULUS - 1, k) != TimedOut
  {
  }
}
