/**
 * RetryHandler: runs an action up to (1 + retry count) times, reports every
 * failure after the first to an optional error callback that may stop the
 * retries, sleeps a fixed interval between some attempts, and finally either
 * returns normally or throws a RetryException carrying every caught exception.
 *
 * The action is a total function from the invocation number to its outcome,
 * the callback a pure function giving the value it leaves in
 * ErrorInfo.RetryStop, and the side effects (invocations, callback calls,
 * sleeps) are returned as a trace with one record per invocation.
 */
module RetryHandler {

  datatype Option<+T> = None | Some(value: T)

  const Int32Min: int := -0x8000_0000
  const Int32Max: int := 0x7fff_ffff

  /** C#'s `int`. */
  type int32 = x: int | -0x8000_0000 <= x < 0x8000_0000

  /** C#'s unchecked `int` addition: the sum wraps around modulo 2^32. */
  function AddInt32(a: int32, b: int32): (r: int32)
    ensures r == a + b || r == a + b - 0x1_0000_0000 || r == a + b + 0x1_0000_0000
    ensures Int32Min <= a + b <= Int32Max ==> r == a + b
  {
    var sum := a + b;
    if sum > Int32Max then sum - 0x1_0000_0000
    else if sum < Int32Min then sum + 0x1_0000_0000
    else sum
  }

  /** A caught exception; its contents are never inspected. */
  type Exception

  /** What one invocation of the action does. */
  datatype Outcome = Ok | Fail(cause: Exception)

  /**
   * The error callback: given ErrorInfo.RetryCount and ErrorInfo.Cause, the
   * value it leaves in ErrorInfo.RetryStop.
   */
  type ErrorCallback = (int, Exception) -> bool

  /** The data handed to the error callback; the callback may set RetryStop. */
  class ErrorInfo {
    const RetryCount: int
    const Cause: Exception
    var RetryStop: bool

    constructor (currentRetryCount: int, cause: Exception)
      ensures RetryCount == currentRetryCount && Cause == cause
      ensures !RetryStop
    {
      RetryCount := currentRetryCount;
      Cause := cause;
      RetryStop := false;
    }
  }

  /** Thrown when the retries run out: every exception caught, in order. */
  datatype RetryException = RetryException(exceptionList: seq<Exception>)

  /** How a call of Execute ends at its boundary. */
  datatype Result = Normal | Thrown(exception: RetryException)

  /** The state of an ErrorInfo once the callback has returned. */
  datatype Report = Report(retryCount: int, cause: Exception, retryStop: bool)

  /**
   * What happened around one invocation of the action: its outcome, the
   * callback call it caused (if any) and the sleep that followed (if any).
   */
  datatype Attempt = Attempt(outcome: Outcome, report: Option<Report>, sleep: Option<int32>)

  /** The arguments of one call of Execute. */
  datatype Call = Call(retryCount: int32, interval: int32, action: nat -> Outcome,
                       errorCallback: Option<ErrorCallback>)

  /** How the retry loop ended. */
  datatype Exit = Succeeded | Stopped | Exhausted

  datatype Run = Run(attempts: seq<Attempt>, exit: Exit)

  /** Number of loop iterations `for (i = 0; i < retryCount + 1; i++)` permits. */
  function Attempts(retryCount: int32): (n: nat)
    ensures n <= Int32Max
    ensures retryCount < Int32Max ==> n == if retryCount < 0 then 0 else retryCount + 1
    ensures retryCount == Int32Max ==> n == 0
  {
    var bound := AddInt32(retryCount, 1);
    if bound < 0 then 0 else bound
  }

  predicate Stops(cb: Option<ErrorCallback>, count: int, cause: Exception) {
    cb.Some? && cb.value(count, cause)
  }

  /** Whether the loop ends right after this attempt. */
  predicate Ends(a: Attempt) {
    a.outcome.Ok? || (a.report.Some? && a.report.value.retryStop)
  }

  /**
   * The policy for attempt k (0-based) when every earlier attempt failed and
   * none stopped: no callback and no sleep after a success or after the
   * first failure; after a later failure the callback sees RetryCount k, and
   * unless it stops the loop, a sleep follows when k < retryCount.
   */
  function StepAt(call: Call, k: nat): (a: Attempt)
    ensures a.outcome == call.action(k)
    ensures a.report.Some? <==> 1 <= k && a.outcome.Fail? && call.errorCallback.Some?
    ensures a.report.Some? ==> a.report.value.retryCount == k && a.report.value.cause == a.outcome.cause
    ensures a.sleep.Some? ==> a.sleep.value == call.interval
  {
    match call.action(k)
    case Ok => Attempt(Ok, None, None)
    case Fail(c) =>
      if k == 0 then Attempt(Fail(c), None, None)
      else
        var report := if call.errorCallback.Some? then Some(Report(k, c, call.errorCallback.value(k, c))) else None;
        var stop := report.Some? && report.value.retryStop;
        Attempt(Fail(c), report, if !stop && k < call.retryCount then Some(call.interval) else None)
  }

  /**
   * The reference run from attempt i on, given that attempts 0..i-1 failed
   * without a stop. It never goes past the permitted attempts and uses them
   * all when it is exhausted.
   */
  function RunFrom(call: Call, i: nat): (r: Run)
    ensures r.attempts == [] || i + |r.attempts| <= Attempts(call.retryCount)
    ensures r.exit == Exhausted && i <= Attempts(call.retryCount) ==> i + |r.attempts| == Attempts(call.retryCount)
    decreases Attempts(call.retryCount) - i
  {
    if i >= Attempts(call.retryCount) then Run([], Exhausted)
    else
      var a := StepAt(call, i);
      if Ends(a) then Run([a], if a.outcome.Ok? then Succeeded else Stopped)
      else
        var rest := RunFrom(call, i + 1);
        Run([a] + rest.attempts, rest.exit)
  }

  /**
   * The whole run of the retry loop: at most Attempts(retryCount)
   * invocations, and all of them when no success or stop ends it.
   */
  function Reference(call: Call): (r: Run)
    ensures |r.attempts| <= Attempts(call.retryCount)
    ensures r.exit == Exhausted ==> |r.attempts| == Attempts(call.retryCount)
  {
    RunFrom(call, 0)
  }

  /**
   * A declarative description of a run from attempt `start` on: attempt
   * start + j follows the per-attempt policy StepAt, only the last attempt
   * may end the loop, and a run that does not end on a success or a stop has
   * used up every permitted attempt.
   */
  predicate ConformsFrom(call: Call, start: nat, attempts: seq<Attempt>, exit: Exit) {
    var n := |attempts|;
    start + n <= Attempts(call.retryCount)
    && (forall j :: 0 <= j < n ==> attempts[j] == StepAt(call, start + j))
    && (forall j :: 0 <= j < n - 1 ==> !Ends(attempts[j]))
    && if n != 0 && Ends(attempts[n - 1])
       then exit == (if attempts[n - 1].outcome.Ok? then Succeeded else Stopped)
       else exit == Exhausted && start + n == Attempts(call.retryCount)
  }

  /** A whole run of Execute, described declaratively. */
  predicate Conforms(call: Call, attempts: seq<Attempt>, exit: Exit) {
    ConformsFrom(call, 0, attempts, exit)
  }

  lemma SliceCons<T>(s: seq<T>, i: nat)
    requires i < |s|
    ensures s[i..] == [s[i]] + s[i + 1..]
  {
  }

  lemma {:induction false} ConformsSuffix(call: Call, attempts: seq<Attempt>, exit: Exit, i: nat)
    requires Conforms(call, attempts, exit)
    requires i <= |attempts|
    requires i < |attempts| || exit == Exhausted
    ensures RunFrom(call, i) == Run(attempts[i..], exit)
    decreases |attempts| - i
  {
    if i < |attempts| {
      assert attempts[i] == StepAt(call, i);
      if !Ends(attempts[i]) {
        ConformsSuffix(call, attempts, exit, i + 1);
        SliceCons(attempts, i);
      } else {
        assert attempts[i..] == [attempts[i]];
      }
    }
  }

  /** A run that conforms is the reference run: the description determines the run. */
  lemma ConformsIsReference(call: Call, attempts: seq<Attempt>, exit: Exit)
    requires Conforms(call, attempts, exit)
    ensures Reference(call) == Run(attempts, exit)
  {
    ConformsSuffix(call, attempts, exit, 0);
    assert attempts[0..] == attempts;
  }

  /** The exceptions caught during a run, in attempt order. */
  function Causes(attempts: seq<Attempt>): (r: seq<Exception>)
    ensures |r| <= |attempts|
  {
    if attempts == [] then []
    else (match attempts[0].outcome case Ok => [] case Fail(c) => [c]) + Causes(attempts[1..])
  }

  lemma {:induction false} CausesAppend(attempts: seq<Attempt>, a: Attempt)
    ensures Causes(attempts + [a]) == Causes(attempts) + Causes([a])
  {
    if attempts != [] {
      assert (attempts + [a])[1..] == attempts[1..] + [a];
      CausesAppend(attempts[1..], a);
    }
  }

  /** The attempts of a run so far: each followed the policy and none ended the loop. */
  predicate Prefix(call: Call, attempts: seq<Attempt>) {
    forall j :: 0 <= j < |attempts| ==> attempts[j] == StepAt(call, j) && !Ends(attempts[j])
  }

  lemma PrefixExtend(call: Call, attempts: seq<Attempt>, a: Attempt)
    requires Prefix(call, attempts) && a == StepAt(call, |attempts|) && !Ends(a)
    ensures Prefix(call, attempts + [a])
  {
  }

  /** A prefix followed by an attempt that ends the loop is the whole reference run. */
  lemma PrefixThenEnd(call: Call, attempts: seq<Attempt>, a: Attempt)
    requires Prefix(call, attempts) && |attempts| < Attempts(call.retryCount)
    requires a == StepAt(call, |attempts|) && Ends(a)
    ensures Reference(call) == Run(attempts + [a], if a.outcome.Ok? then Succeeded else Stopped)
  {
    ConformsIsReference(call, attempts + [a], if a.outcome.Ok? then Succeeded else Stopped);
  }

  /** A prefix that used up every permitted attempt is the whole reference run. */
  lemma PrefixExhausted(call: Call, attempts: seq<Attempt>)
    requires Prefix(call, attempts) && |attempts| == Attempts(call.retryCount)
    ensures Reference(call) == Run(attempts, Exhausted)
  {
    ConformsIsReference(call, attempts, Exhausted);
  }

  /**
   * The outer finally block of Execute, once the loop is over: a success or a
   * callback means a normal return, and so does an empty list of caught
   * exceptions; otherwise a RetryException carrying every caught exception,
   * in the order of the attempts, is thrown.
   */
  function Conclude(call: Call, run: Run): (r: Result)
    ensures run.exit == Succeeded || call.errorCallback.Some? || Causes(run.attempts) == [] ==> r == Normal
    ensures r.Thrown? <==> run.exit != Succeeded && call.errorCallback.None? && Causes(run.attempts) != []
    ensures r.Thrown? ==> r.exception.exceptionList == Causes(run.attempts) && |r.exception.exceptionList| <= |run.attempts|
  {
    if run.exit != Succeeded && Causes(run.attempts) != [] && call.errorCallback.None?
    then Thrown(RetryException(Causes(run.attempts)))
    else Normal
  }

  /**
   * The guard of the finally block, `(active <= retryCount && isInitialProc) || !retryStop`,
   * in the states the catch block reaches (isInitialProc exactly when the
   * counter is 0; a stop only after the first failure), advances the counter
   * exactly when the callback did not stop the loop.
   */
  lemma FinallyGuardAdvancesUnlessStopped(active: int, retryCount: int, isInitialProc: bool, retryStop: bool)
    requires isInitialProc <==> active == 0
    requires retryStop ==> !isInitialProc
    ensures ((active <= retryCount && isInitialProc) || !retryStop) <==> !retryStop
  {
  }

  /**
   * The catch block of the retry loop, entered when invocation i failed with
   * ex: the callback (if any) sees the failure unless it is the first one, a
   * stop skips the sleep, and the finally block advances the counter with the
   * source's literal guard. Under the loop's invariant (the counter equals i)
   * this is attempt i of the reference run, and the counter advances exactly
   * when the callback did not stop the retries.
   */
  method HandleFailure(retryCount: int32, interval: int32, errorCallback: Option<ErrorCallback>,
                       activeRetryCount: int32, ex: Exception, ghost call: Call, ghost i: nat)
    returns (report: Option<Report>, sleep: Option<int32>, retryStop: bool, nextRetryCount: int32)
    requires call.retryCount == retryCount && call.interval == interval && call.errorCallback == errorCallback
    requires i < Attempts(retryCount) && activeRetryCount == i && call.action(i) == Fail(ex)
    ensures Attempt(Fail(ex), report, sleep) == StepAt(call, i)
    ensures retryStop == Ends(StepAt(call, i))
    ensures nextRetryCount == if retryStop then activeRetryCount else activeRetryCount + 1
  {
    var isInitialProc := true;
    retryStop := false;
    report, sleep := None, None;
    label tryBlock: {
      if activeRetryCount != 0 {
        isInitialProc := false;
        if errorCallback.Some? {
          var info := new ErrorInfo(activeRetryCount, ex);
          info.RetryStop := errorCallback.value(info.RetryCount, info.Cause);
          report := Some(Report(info.RetryCount, info.Cause, info.RetryStop));
          if info.RetryStop {
            retryStop := true;
            break tryBlock;
          }
        }
        if activeRetryCount < retryCount {
          sleep := Some(interval);
        }
      }
    }
    // finally
    FinallyGuardAdvancesUnlessStopped(activeRetryCount, retryCount, isInitialProc, retryStop);
    nextRetryCount := activeRetryCount;
    if (activeRetryCount <= retryCount && isInitialProc) || !retryStop {
      nextRetryCount := activeRetryCount + 1;
    }
  }

  /**
   * RetryHandler.Execute with an error callback (None stands for null).
   * The loop invariant shows that the counter activeRetryCount always
   * equals the loop index i.
   */
  method ExecuteWithCallback(retryCount: int32, interval: int32, action: nat -> Outcome,
                             errorCallback: Option<ErrorCallback>)
    returns (result: Result, attempts: seq<Attempt>)
    ensures var call := Call(retryCount, interval, action, errorCallback);
      attempts == Reference(call).attempts && result == Conclude(call, Reference(call))
  {
    ghost var call := Call(retryCount, interval, action, errorCallback);
    ghost var exit := Exhausted;
    var activeRetryCount: int32 := 0;
    var exList: seq<Exception> := [];
    var stopThrowException := false;
    attempts := [];

    var bound := AddInt32(retryCount, 1);
    var i: int32 := 0;
    while i < bound
      invariant 0 <= i <= Attempts(retryCount)
      invariant activeRetryCount == i
      invariant !stopThrowException && exit == Exhausted
      invariant |attempts| == i
      invariant Prefix(call, attempts)
      invariant exList == Causes(attempts)
    {
      var outcome := action(i);
      if outcome.Ok? {
        activeRetryCount := i + 1;
        stopThrowException := true;
        CausesAppend(attempts, Attempt(Ok, None, None));
        PrefixThenEnd(call, attempts, Attempt(Ok, None, None));
        attempts := attempts + [Attempt(Ok, None, None)];
        exit := Succeeded;
        break;
      }
      var ex := outcome.cause;
      exList := exList + [ex];
      var report, sleep, retryStop;
      report, sleep, retryStop, activeRetryCount :=
        HandleFailure(retryCount, interval, errorCallback, activeRetryCount, ex, call, i as nat);
      CausesAppend(attempts, Attempt(Fail(ex), report, sleep));
      if retryStop {
        PrefixThenEnd(call, attempts, Attempt(Fail(ex), report, sleep));
      } else {
        PrefixExtend(call, attempts, Attempt(Fail(ex), report, sleep));
      }
      attempts := attempts + [Attempt(Fail(ex), report, sleep)];
      if retryStop {
        exit := Stopped;
        break;
      }
      i := i + 1;
    }
    if exit == Exhausted {
      PrefixExhausted(call, attempts);
    }

    // finally
    result := Normal;
    if !stopThrowException {
      if |exList| != 0 && errorCallback.None? {
        result := Thrown(RetryException(exList));
      }
    }
  }

  /** RetryHandler.Execute without an error callback: the callback is null. */
  method Execute(retryCount: int32, interval: int32, action: nat -> Outcome)
    returns (result: Result, attempts: seq<Attempt>)
    ensures var call := Call(retryCount, interval, action, None);
      attempts == Reference(call).attempts && result == Conclude(call, Reference(call))
  {
    result, attempts := ExecuteWithCallback(retryCount, interval, action, None);
  }
}
