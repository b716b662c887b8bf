# RetryHandler, modelled in Dafny

`RetryHandler.Execute` runs an action with retries. It invokes the action up
to `retryCount + 1` times and stops at the first success. After every failure
except the first, it hands an `ErrorInfo` (the retry count and the cause) to
an optional error callback, which may set `RetryStop` to abandon the
remaining retries. Between some attempts it sleeps `interval` milliseconds.
When it gives up without a success and without a callback, it throws a
`RetryException` holding every caught exception in order. In every other case
it returns normally.

The project has two modules:

- `retry_handler.dfy`, module `RetryHandler`, holds:
  - the data carriers: `ErrorInfo`, a class whose `RetryStop` the callback sets, and `RetryException`;
  - `ExecuteWithCallback`, the 4-argument `Execute`, as a method with the source's loop and counters;
  - `HandleFailure`, the loop's catch/finally block, which keeps the literal counter guard;
  - `Execute`, the 3-argument overload;
  - the reference definition those methods are proved against: `StepAt` gives the policy for one attempt, and `RunFrom`/`Reference` give the whole run;
  - `Conforms`, a declarative description of a run, together with the proof that a run conforming to it is the reference run.
- `retry_properties.dfy`, module `RetryProperties`, proves what the handler promises about that run.

How the source's entities are represented:

- **The action** is a total function `nat -> Outcome` from the invocation number to `Ok` or `Fail(cause)`.
- **A caught exception** is an opaque type `Exception`. A cause therefore always exists, which covers the source's "non-null cause".
- **The error callback** is `Option<(int, Exception) -> bool>`, where `None` stands for `null`. Given `RetryCount` and `Cause`, it returns the value it leaves in `RetryStop`. A callback in the same assembly could read `RetryStop` through its `internal` getter. Every `ErrorInfo` is new and starts with `RetryStop` false, so that read can only return false or the callback's own earlier write. The value the callback leaves is therefore still determined by `RetryCount` and `Cause`. For a fixed action, the earlier causes are fixed by the invocation number, so a callback that keeps state across calls is still a function of these two arguments.
- **The side effects** (invocations, callback calls, sleeps) are returned as a trace. The trace holds one `Attempt` per invocation: its outcome, the `ErrorInfo` state after the callback returned (if the callback was called), and the sleep that followed (if any).
- **`retryCount` and `interval`** are C# `int` (`int32`).
- **The loop bound `retryCount + 1`** is unchecked 32-bit addition (`AddInt32`). At `int.MaxValue` the bound wraps to `int.MinValue`, so the loop body never runs: the action is not invoked, and `Execute` returns normally. The model keeps this behaviour as written (`AttemptBound`).

Edge behaviour the model keeps as the code has it:

- **Number of attempts.** The documentation comments (RetryHandler.cs:24, 37) promise one first execution plus `retryCount` retries. That holds for `0 <= retryCount < int.MaxValue` (`Attempts`, `AttemptBound`). A negative `retryCount` makes the loop bound non-positive, so the action is never invoked and nothing is thrown. So does `int.MaxValue`, through the wrap-around above.
- **When RetryException is thrown.** The comments (RetryHandler.cs:25, 39) say an error without a callback throws a `RetryException`. In the code, an error followed by a later success returns normally; only a run in which every permitted attempt failed throws (`ThrowsOnlyWhen`). The exception list then holds one exception per invocation (`ExceptionListInAttemptOrder`).
- **Callback calls.** The comment at RetryHandler.cs:38 says the callback is called when an error occurs. The code skips it for the first failure, while the counter is still 0 (`StepAt`, `CallbackSeesEveryRetry`).
- **The counter increment.** The counter advances through the literal guard `((activeRetryCount <= retryCount) && isInitialProc) || !retryStop`. `HandleFailure` calls `FinallyGuardAdvancesUnlessStopped` on the guard's own variables. Together they prove that, in the states the loop reaches, the counter advances exactly when the callback did not stop the retries. The loop invariant proves that the counter then always equals the attempt index.

`RetryException` (RetryHandler.cs:151-166) is a datatype holding the exception list as a sequence; `Conclude` builds it from the caught exceptions.

## Model

| member | source | states |
|---|---|---|
| `RetryHandler.ExecuteWithCallback` | Retry/Devlights.Samples.Retry/RetryHandler.cs:45-114 | the trace of invocations, callback calls and sleeps is exactly the reference run, and the result is what the final `finally` decides for it (thrown exception or normal return) |
| `RetryHandler.Execute` | Retry/Devlights.Samples.Retry/RetryHandler.cs:30-33 | the 3-argument overload behaves as the 4-argument one with a null callback |
| `RetryHandler.HandleFailure` | Retry/Devlights.Samples.Retry/RetryHandler.cs:64-100 | for a failure while the counter equals the attempt index: the callback report and the sleep are those of the reference step for that attempt; the loop stops exactly when the step ends the run; the literal `finally` guard advances the counter exactly when the callback did not stop |
| `RetryHandler.ErrorInfo.constructor` | Retry/Devlights.Samples.Retry/RetryHandler.cs:127-132 | a new ErrorInfo carries the given retry count and cause, and `RetryStop` starts false |
| `RetryHandler.AddInt32` | Retry/Devlights.Samples.Retry/RetryHandler.cs:53 | `retryCount + 1` is C# unchecked addition: the exact sum when it fits in 32 bits, otherwise the sum wrapped by 2^32 |
| `RetryHandler.Attempts` | Retry/Devlights.Samples.Retry/RetryHandler.cs:53 | the loop permits `retryCount + 1` iterations for `0 <= retryCount < int.MaxValue`, none for a negative count, and none at `int.MaxValue` (wrap-around) |
| `RetryHandler.StepAt` | Retry/Devlights.Samples.Retry/RetryHandler.cs:68-91 | an attempt's outcome is the action's; the callback is called exactly for failures at attempt k >= 1 when a callback exists, with RetryCount k and that attempt's exception; any sleep lasts `interval` |
| `RetryHandler.RunFrom` | Retry/Devlights.Samples.Retry/RetryHandler.cs:53-102 | the loop from iteration i on, with every earlier attempt failed and not stopped: it never runs past the permitted attempts, and when it ends without a success or a stop it has used every one of them |
| `RetryHandler.Reference` | Retry/Devlights.Samples.Retry/RetryHandler.cs:53-102 | the whole loop: at most `Attempts(retryCount)` invocations, and all of them when neither a success nor a stop ends it |
| `RetryHandler.Conclude` | Retry/Devlights.Samples.Retry/RetryHandler.cs:104-113 | the outer `finally`: throws if and only if the loop did not end in a success, there is no callback, and an exception was caught; the thrown RetryException (lines 157-160) carries exactly the caught exceptions in attempt order, at most one per invocation; otherwise a normal return |
| `RetryHandler.ConformsIsReference` | Retry/Devlights.Samples.Retry/RetryHandler.cs:53-102 | any run that follows the per-attempt policy, ends only on its last attempt, and uses up every permitted attempt unless it ends early, is the reference run (the description determines the run) |
| `RetryProperties.ReferenceConforms` | Retry/Devlights.Samples.Retry/RetryHandler.cs:53-102 | conversely, the reference run follows that description: attempt j is `StepAt(j)`, no attempt but the last ends the loop, and a run that ends on no success or stop has used every permitted attempt |
| `RetryProperties.ReachesAttempt` | Retry/Devlights.Samples.Retry/RetryHandler.cs:53-99 | if every attempt before k failed without a stop and k is permitted, attempt k is made |
| `RetryProperties.SuccessStopsImmediately` | Retry/Devlights.Samples.Retry/RetryHandler.cs:57-62 | if attempt k is the first success (no earlier stop), the action runs exactly k + 1 times, the success causes no callback call and no sleep, and Execute returns normally |
| `RetryProperties.AttemptBound` | Retry/Devlights.Samples.Retry/RetryHandler.cs:53 | the action never runs more than `retryCount + 1` times, and never at all for a negative count or at `int.MaxValue`, in which case Execute returns normally |
| `RetryProperties.WithoutCallbackOnlySuccessEnds` | Retry/Devlights.Samples.Retry/RetryHandler.cs:72-91 | without a callback nothing stops the loop early; if no attempt succeeds, every permitted attempt is made and every one failed |
| `RetryProperties.ExceptionListInAttemptOrder` | Retry/Devlights.Samples.Retry/RetryHandler.cs:66 | a thrown RetryException holds one exception per invocation, in attempt order (entry j is the cause of attempt j), and its length is `retryCount + 1` |
| `RetryProperties.ThrowsOnlyWhen` | Retry/Devlights.Samples.Retry/RetryHandler.cs:104-113 | Execute throws if and only if there is no callback, at least one attempt is permitted, and every permitted attempt failed; with a callback it never throws |
| `RetryProperties.AllFailWithoutCallback` | Retry/Devlights.Samples.Retry/RetryHandler.cs:104-111 | every attempt fails and there is no callback: exactly `retryCount + 1` invocations, and a RetryException with `retryCount + 1` entries |
| `RetryProperties.ExhaustedRun` | Retry/Devlights.Samples.Retry/RetryHandler.cs:53-99 | if every permitted attempt fails without a stop, all `retryCount + 1` attempts are made and the loop ends by exhaustion |
| `RetryProperties.CallbackSeesEveryRetry` | Retry/Devlights.Samples.Retry/RetryHandler.cs:72-80 | every attempt fails and the callback never stops: no callback call for attempt 0; exactly `retryCount` calls with RetryCount 1, 2, ..., retryCount in order, each with that attempt's exception and RetryStop false; normal return |
| `RetryProperties.ReportsOfFailures` | Retry/Devlights.Samples.Retry/RetryHandler.cs:76-80 | over a run of failures with a callback, the k-th callback call sees RetryCount k + 1 and the cause of attempt k + 1 |
| `RetryProperties.EarlyStop` | Retry/Devlights.Samples.Retry/RetryHandler.cs:81-85 | if the callback sets RetryStop when RetryCount is k, the action runs exactly k + 1 times, the callback is called exactly k times, no sleep follows the stopping call, nothing is thrown |
| `RetryProperties.SleepSchedule` | Retry/Devlights.Samples.Retry/RetryHandler.cs:88-91 | a sleep of `interval` follows attempt j exactly when it failed, was not stopped, and 1 <= j < retryCount |
| `RetryProperties.SleepCountWhenAllFail` | Retry/Devlights.Samples.Retry/RetryHandler.cs:88-91 | a run in which every attempt fails and nothing stops sleeps exactly max(0, retryCount - 1) times |
| `RetryHandler.FinallyGuardAdvancesUnlessStopped` | Retry/Devlights.Samples.Retry/RetryHandler.cs:96-99 | in the states the loop reaches, the guard `(active <= retryCount && isInitialProc) \|\| !retryStop` holds exactly when the callback did not stop |
| `RetryProperties.AlwaysFailingActionThrowsAfterFourAttempts` | Retry/Devlights.Samples.Retry.Tests/RetryHandlerTest.cs:29-53 | retryCount 3 with an always-failing action and no callback: 4 invocations and a RetryException with 4 entries |
| `RetryProperties.StopAtSecondRetryRunsThreeTimes` | Retry/Devlights.Samples.Retry.Tests/RetryHandlerTest.cs:83-111 | retryCount 3, always failing, callback stopping at RetryCount 2: 3 invocations, 2 callback calls, normal return |

## Left out

- `Thread.Sleep` (RetryHandler.cs:90) becomes a trace entry carrying `interval`; the model has no real time. It records the sleep and goes on for every `interval`, including `-1`, where the real sleep blocks forever, and values below `-1`. For values below `-1`, `Thread.Sleep` throws `ArgumentOutOfRangeException` at the first sleep. The inner `finally` then still advances the counter, and the exception leaves the loop. Without a callback, the outer `finally` (lines 104-111) replaces it with a `RetryException` holding only the exceptions caught so far; with a callback the `ArgumentOutOfRangeException` reaches the caller.
- AllFailWithoutCallback: for `interval < -1` and `retryCount >= 2`, the source throws after two invocations, at the first sleep, not after `retryCount + 1`.
- ExceptionListInAttemptOrder: for `interval < -1` and `retryCount >= 2`, the source's thrown list has two entries, not `retryCount + 1`.
- SleepCountWhenAllFail: for `interval < -1`, the source performs no completed sleep; the lemma counts the sleeps of the run the model describes.
- The model does not cover exceptions thrown by the error callback, or by `Thread.Sleep`, escaping through the `finally` blocks.
- An action or callback with side effects beyond its outcome is not modelled. The action is the sequence of its outcomes; the callback is the value it leaves in `RetryStop`.
- .NET exception objects and their identity are replaced by the opaque `Exception` type. The model ignores that `RetryException` shares the `List<Exception>` object built inside `Execute`.
- Nothing in the handler is concurrent, so there is no concurrency to model.
