/**
 * What RetryHandler.Execute promises, stated over the reference run that
 * ExecuteWithCallback and Execute are proved to produce.
 */
module RetryProperties {
  import opened RetryHandler

  /** The callback calls of a run, in order, with the ErrorInfo state each left behind. */
  function Reports(attempts: seq<Attempt>): (r: seq<Report>)
    ensures |r| <= |attempts|
  {
    if attempts == [] then []
    else (match attempts[0].report case None => [] case Some(rep) => [rep]) + Reports(attempts[1..])
  }

  /** The number of sleeps in a run. */
  function SleepCount(attempts: seq<Attempt>): (n: nat)
    ensures n <= |attempts|
  {
    if attempts == [] then 0
    else SleepCount(attempts[..|attempts| - 1]) + (if attempts[|attempts| - 1].sleep.Some? then 1 else 0)
  }

  /** Every run of the reference definition conforms to the declarative description. */
  lemma {:induction false} RunFromShape(call: Call, i: nat)
    requires i <= Attempts(call.retryCount)
    ensures ConformsFrom(call, i, RunFrom(call, i).attempts, RunFrom(call, i).exit)
    decreases Attempts(call.retryCount) - i
  {
    if i < Attempts(call.retryCount) && !Ends(StepAt(call, i)) {
      RunFromShape(call, i + 1);
      var a := StepAt(call, i);
      var rest := RunFrom(call, i + 1);
      var r := RunFrom(call, i);
      assert r == Run([a] + rest.attempts, rest.exit);
      var n := |r.attempts|;
      assert n == |rest.attempts| + 1;
      if rest.attempts == [] {
        assert rest.exit == Exhausted && i + 1 == Attempts(call.retryCount);
        assert r.attempts == [a];
      } else {
        assert r.attempts[n - 1] == rest.attempts[n - 2];
      }
      assert r.attempts[0] == a;
      forall j | 1 <= j < n
        ensures r.attempts[j] == StepAt(call, i + j) && (j < n - 1 ==> !Ends(r.attempts[j]))
      {
        assert r.attempts[j] == rest.attempts[j - 1];
      }
    }
  }

  lemma ReferenceConforms(call: Call)
    ensures Conforms(call, Reference(call).attempts, Reference(call).exit)
  {
    RunFromShape(call, 0);
  }

  /** Attempt j of a run is a failure that neither succeeded nor stopped the loop. */
  predicate FailedOn(call: Call, j: nat) {
    call.action(j).Fail? && (j == 0 || !Stops(call.errorCallback, j, call.action(j).cause))
  }

  lemma FailedOnDoesNotEnd(call: Call, j: nat)
    requires FailedOn(call, j)
    ensures !Ends(StepAt(call, j))
  {
  }

  /** Every attempt before the k-th failed without a stop: then the run reaches attempt k. */
  lemma {:induction false} ReachesAttempt(call: Call, k: nat)
    requires k < Attempts(call.retryCount)
    requires forall j :: 0 <= j < k ==> FailedOn(call, j)
    ensures k < |Reference(call).attempts|
  {
    ReferenceConforms(call);
    var a := Reference(call).attempts;
    if 0 < |a| <= k {
      FailedOnDoesNotEnd(call, |a| - 1);
    }
  }

  /**
   * Success stops immediately: if attempt k is the first success (and no
   * callback stopped earlier), the action runs exactly k + 1 times and
   * Execute returns normally.
   */
  lemma SuccessStopsImmediately(call: Call, k: nat)
    requires k < Attempts(call.retryCount)
    requires call.action(k).Ok?
    requires forall j :: 0 <= j < k ==> FailedOn(call, j)
    ensures |Reference(call).attempts| == k + 1
    ensures Reference(call).attempts[k] == Attempt(Ok, None, None)
    ensures Reference(call).exit == Succeeded
    ensures Conclude(call, Reference(call)) == Normal
  {
    ReferenceConforms(call);
    ReachesAttempt(call, k);
    assert Ends(Reference(call).attempts[k]);
  }

  /**
   * Attempt bound: never more than retryCount + 1 invocations, and none at
   * all when the loop bound retryCount + 1 is not positive, which includes
   * the wrap-around of retryCount + 1 at int.MaxValue.
   */
  lemma AttemptBound(call: Call)
    ensures |Reference(call).attempts| <= Attempts(call.retryCount)
    ensures 0 <= call.retryCount < Int32Max ==> |Reference(call).attempts| <= call.retryCount + 1
    ensures call.retryCount < 0 || call.retryCount == Int32Max ==>
      Reference(call).attempts == [] && Conclude(call, Reference(call)) == Normal
  {
    ReferenceConforms(call);
  }

  /** No failure ends the run without a callback; only a success can. */
  lemma {:induction false} WithoutCallbackOnlySuccessEnds(call: Call)
    requires call.errorCallback.None?
    ensures Reference(call).exit != Stopped
    ensures Reference(call).exit == Exhausted ==>
      |Reference(call).attempts| == Attempts(call.retryCount)
      && forall j :: 0 <= j < Attempts(call.retryCount) ==> call.action(j).Fail?
  {
    ReferenceConforms(call);
    var a := Reference(call).attempts;
    if Reference(call).exit == Exhausted {
      forall j | 0 <= j < Attempts(call.retryCount) ensures call.action(j).Fail? {
        assert a[j] == StepAt(call, j);
        if j < |a| - 1 {
          assert !Ends(a[j]);
        }
      }
    }
  }

  /** The exceptions of a run whose every attempt failed, one per attempt, in order. */
  lemma {:induction false} CausesOfFailures(attempts: seq<Attempt>)
    requires forall j :: 0 <= j < |attempts| ==> attempts[j].outcome.Fail?
    ensures |Causes(attempts)| == |attempts|
    ensures forall j :: 0 <= j < |attempts| ==> Causes(attempts)[j] == attempts[j].outcome.cause
  {
    if attempts != [] {
      CausesOfFailures(attempts[1..]);
      assert Causes(attempts) == [attempts[0].outcome.cause] + Causes(attempts[1..]);
    }
  }

  /**
   * Contents of the exception list: when RetryException is thrown, its list
   * holds one exception per invocation, in attempt order, and the action ran
   * retryCount + 1 times.
   */
  lemma ExceptionListInAttemptOrder(call: Call)
    ensures Conclude(call, Reference(call)).Thrown? ==>
      var e := Conclude(call, Reference(call)).exception.exceptionList;
      |e| == |Reference(call).attempts| == Attempts(call.retryCount)
      && 0 <= call.retryCount < Int32Max && |e| == call.retryCount + 1
      && forall j :: 0 <= j < |e| ==> call.action(j) == Fail(e[j])
  {
    ReferenceConforms(call);
    var run := Reference(call);
    if Conclude(call, run).Thrown? {
      WithoutCallbackOnlySuccessEnds(call);
      assert run.exit == Exhausted;
      CausesOfFailures(run.attempts);
    }
  }

  /**
   * Execute throws exactly when there is no callback and every permitted
   * attempt (at least one) failed; with a callback it never throws.
   */
  lemma ThrowsOnlyWhen(call: Call)
    ensures Conclude(call, Reference(call)).Thrown? <==>
      call.errorCallback.None? && Attempts(call.retryCount) > 0
      && forall j :: 0 <= j < Attempts(call.retryCount) ==> call.action(j).Fail?
  {
    ReferenceConforms(call);
    var run := Reference(call);
    if call.errorCallback.None? {
      WithoutCallbackOnlySuccessEnds(call);
    }
    if call.errorCallback.None? && Attempts(call.retryCount) > 0
       && forall j :: 0 <= j < Attempts(call.retryCount) ==> call.action(j).Fail?
    {
      CausesOfFailures(run.attempts);
    }
  }

  /**
   * Every attempt fails and there is no callback: the action runs exactly
   * retryCount + 1 times and RetryException carries that many exceptions.
   */
  lemma AllFailWithoutCallback(call: Call)
    requires call.errorCallback.None?
    requires 0 <= call.retryCount < Int32Max
    requires forall j :: 0 <= j <= call.retryCount ==> call.action(j).Fail?
    ensures |Reference(call).attempts| == call.retryCount + 1
    ensures Conclude(call, Reference(call)).Thrown?
    ensures |Conclude(call, Reference(call)).exception.exceptionList| == call.retryCount + 1
  {
    ReachesAttempt(call, call.retryCount as nat);
    ThrowsOnlyWhen(call);
    ExceptionListInAttemptOrder(call);
  }

  lemma {:induction false} ReportsAllPresent(attempts: seq<Attempt>)
    requires forall j :: 0 <= j < |attempts| ==> attempts[j].report.Some?
    ensures |Reports(attempts)| == |attempts|
    ensures forall j :: 0 <= j < |attempts| ==> Reports(attempts)[j] == attempts[j].report.value
  {
    if attempts != [] {
      ReportsAllPresent(attempts[1..]);
      assert Reports(attempts) == [attempts[0].report.value] + Reports(attempts[1..]);
    }
  }

  /** The reports of attempts 1.. when attempts 0..m-1 failed: one per attempt, RetryCount = attempt index. */
  lemma ReportsOfFailures(call: Call, attempts: seq<Attempt>)
    requires call.errorCallback.Some?
    requires |attempts| >= 1
    requires forall j :: 0 <= j < |attempts| ==> attempts[j] == StepAt(call, j) && call.action(j).Fail?
    ensures |Reports(attempts)| == |attempts| - 1
    ensures forall k :: 0 <= k < |attempts| - 1 ==>
      var rep := Reports(attempts)[k];
      rep.retryCount == k + 1 && call.action(k + 1) == Fail(rep.cause)
      && rep.retryStop == call.errorCallback.value(k + 1, rep.cause)
  {
    assert Reports(attempts) == Reports(attempts[1..]);
    ReportsAllPresent(attempts[1..]);
  }

  /** Every permitted attempt fails without a stop: the run uses them all, each following the policy. */
  lemma ExhaustedRun(call: Call)
    requires 0 <= call.retryCount < Int32Max
    requires forall j :: 0 <= j <= call.retryCount ==> FailedOn(call, j)
    ensures |Reference(call).attempts| == call.retryCount + 1
    ensures Reference(call).exit == Exhausted
    ensures forall j :: 0 <= j < |Reference(call).attempts| ==>
      Reference(call).attempts[j] == StepAt(call, j) && call.action(j).Fail?
  {
    ReferenceConforms(call);
    ReachesAttempt(call, call.retryCount as nat);
    var a := Reference(call).attempts;
    assert |a| == call.retryCount + 1;
    FailedOnDoesNotEnd(call, |a| - 1);
    assert a[|a| - 1] == StepAt(call, |a| - 1);
    forall j | 0 <= j < |a|
      ensures a[j] == StepAt(call, j) && call.action(j).Fail?
    {
      assert FailedOn(call, j);
    }
  }

  /**
   * Callback calls: every attempt fails and the callback never stops. The
   * callback is not called for attempt 0, and it is called exactly
   * retryCount times with RetryCount 1, 2, ..., retryCount in order, each
   * time with the exception of that attempt and RetryStop left false.
   * Execute returns normally.
   */
  lemma CallbackSeesEveryRetry(call: Call)
    requires call.errorCallback.Some?
    requires 0 <= call.retryCount < Int32Max
    requires forall j :: 0 <= j <= call.retryCount ==> FailedOn(call, j)
    ensures |Reference(call).attempts| == call.retryCount + 1
    ensures Reference(call).attempts[0].report == None
    ensures |Reports(Reference(call).attempts)| == call.retryCount
    ensures forall k :: 0 <= k < call.retryCount ==>
      var rep := Reports(Reference(call).attempts)[k];
      rep.retryCount == k + 1 && call.action(k + 1) == Fail(rep.cause) && !rep.retryStop
    ensures Conclude(call, Reference(call)) == Normal
  {
    ExhaustedRun(call);
    var a := Reference(call).attempts;
    assert a[0] == StepAt(call, 0);
    ReportsOfFailures(call, a);
    forall k | 0 <= k < call.retryCount
      ensures !Reports(a)[k].retryStop
    {
      assert FailedOn(call, k + 1);
    }
  }

  /**
   * Early stop: the callback sets RetryStop when RetryCount is k. The action
   * ran exactly k + 1 times, the callback was called exactly k times, no
   * sleep follows the stopping call, and Execute returns normally.
   */
  lemma EarlyStop(call: Call, k: nat)
    requires 1 <= k < Attempts(call.retryCount)
    requires forall j :: 0 <= j < k ==> FailedOn(call, j)
    requires call.action(k).Fail? && Stops(call.errorCallback, k, call.action(k).cause)
    ensures |Reference(call).attempts| == k + 1
    ensures Reference(call).attempts[k] == Attempt(call.action(k), Some(Report(k, call.action(k).cause, true)), None)
    ensures |Reports(Reference(call).attempts)| == k
    ensures Reports(Reference(call).attempts)[k - 1] == Report(k, call.action(k).cause, true)
    ensures Reference(call).exit == Stopped
    ensures Conclude(call, Reference(call)) == Normal
  {
    ReferenceConforms(call);
    ReachesAttempt(call, k);
    var run := Reference(call);
    var a := run.attempts;
    assert a[k] == StepAt(call, k);
    assert Ends(a[k]);
    assert |a| == k + 1;
    forall j | 0 <= j < |a|
      ensures a[j] == StepAt(call, j) && call.action(j).Fail?
    {
    }
    ReportsOfFailures(call, a);
    var rep := Reports(a)[k - 1];
    assert rep.retryCount == k && call.action(k) == Fail(rep.cause);
    assert rep == Report(k, call.action(k).cause, true);
  }

  /**
   * Sleep schedule: attempt j is followed by a sleep of the interval exactly
   * when it failed without stopping the loop and 1 <= j < retryCount.
   */
  lemma SleepSchedule(call: Call)
    ensures forall j :: 0 <= j < |Reference(call).attempts| ==>
      Reference(call).attempts[j].sleep ==
        if 1 <= j < call.retryCount && call.action(j).Fail? && !Stops(call.errorCallback, j, call.action(j).cause)
        then Some(call.interval) else None
  {
    ReferenceConforms(call);
  }

  lemma {:induction false} SleepCountBetween(attempts: seq<Attempt>, bound: int)
    requires forall j :: 0 <= j < |attempts| ==> (attempts[j].sleep.Some? <==> 1 <= j < bound)
    ensures SleepCount(attempts) == if |attempts| <= 1 || bound <= 1 then 0
                                    else (if |attempts| < bound then |attempts| else bound) - 1
  {
    if attempts != [] {
      SleepCountBetween(attempts[..|attempts| - 1], bound);
    }
  }

  /**
   * A run in which every attempt fails and nothing stops sleeps exactly
   * max(0, retryCount - 1) times: never after the first failure nor after
   * the last permitted attempt.
   */
  lemma SleepCountWhenAllFail(call: Call)
    requires 0 <= call.retryCount < Int32Max
    requires forall j :: 0 <= j <= call.retryCount ==> FailedOn(call, j)
    ensures SleepCount(Reference(call).attempts) == if call.retryCount <= 1 then 0 else call.retryCount - 1
  {
    ExhaustedRun(call);
    var a := Reference(call).attempts;
    forall j | 0 <= j < |a| ensures a[j].sleep.Some? <==> 1 <= j < call.retryCount {
      assert a[j] == StepAt(call, j) && FailedOn(call, j);
    }
    SleepCountBetween(a, call.retryCount);
  }

  /**
   * The scenario of the no-callback test: retryCount 3 and an action that
   * always fails give four invocations and a RetryException with four entries.
   */
  lemma AlwaysFailingActionThrowsAfterFourAttempts(e: Exception, interval: int32)
    ensures var call := Call(3, interval, _ => Fail(e), None);
      |Reference(call).attempts| == 4
      && Conclude(call, Reference(call)) == Thrown(RetryException([e, e, e, e]))
  {
    var call := Call(3, interval, _ => Fail(e), None);
    AllFailWithoutCallback(call);
    ExceptionListInAttemptOrder(call);
    var list := Conclude(call, Reference(call)).exception.exceptionList;
    assert list == [e, e, e, e] by {
      assert forall j :: 0 <= j < 4 ==> call.action(j) == Fail(list[j]);
    }
  }

  /**
   * The scenario of the early-stop test: retryCount 3, an action that always
   * fails and a callback that sets RetryStop when RetryCount is 2 give three
   * invocations, two callback calls and a normal return.
   */
  lemma StopAtSecondRetryRunsThreeTimes(e: Exception, interval: int32)
    ensures var call := Call(3, interval, _ => Fail(e), Some((count, _) => count == 2));
      |Reference(call).attempts| == 3
      && |Reports(Reference(call).attempts)| == 2
      && Conclude(call, Reference(call)) == Normal
  {
    var call := Call(3, interval, _ => Fail(e), Some((count, _) => count == 2));
    assert FailedOn(call, 0) && FailedOn(call, 1);
    EarlyStop(call, 2);
  }
}
