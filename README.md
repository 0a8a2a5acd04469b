# droiddriver: root acquisition and the running-activity registry

This project models two stateful pieces of droiddriver, an Android UI test driver. It proves properties of them in Dafny.

1. **Root acquisition.** This is `BaseUiAutomationDriver.getRootNode`, modelled in `ui_automation_driver.dfy`, module `BaseUiAutomationDriver`. The driver calls `UiAutomation.waitForIdle` once, with a 500 ms quiet time and the poller's timeout. If that wait throws `java.util.concurrent.TimeoutException`, the call fails with droiddriver's `TimeoutException` wrapping the cause. Otherwise the driver reads `SystemClock.uptimeMillis()` once. It sets the deadline `end` to that reading plus the timeout, then polls `getRootInActiveWindow`:
   - a non-null root is returned at once;
   - after a null root, it reads the clock and fails with the root timeout only when `end - now < 0`;
   - otherwise it sleeps `min(250, end - now)` and fetches again.

   The platform is an oracle value, `Platform`. It gives:
   - the clock at entry;
   - the idle wait's outcome and how long it takes;
   - the k-th fetch's result and duration (at least 1 ms);
   - how much longer than requested each sleep lasts.

   `PollRoot` (the loop) and `GetRootNode` (the whole call) run against this oracle. Each returns its result together with the trace of platform calls it made, as `Call` values.

   `GetRootNodeTrace` and `PollingTrace` state which traces the protocol allows. The lemmas state what every such trace guarantees.
2. **The running-activity registry.** This is the static field of `ActivityUtils`, modelled in `activity_utils.dfy`, module `Util`. It is one nullable slot that the test runner writes and the drivers read. The model is a class with one `Option<Activity>` field, a setter and a getter. It starts empty, and the last write wins.

`wrappers.dfy` holds `Option` (a nullable reference) and `Result` (a value or a thrown exception).

Three details of the code decide the model's behaviour:
- **Deadline.** The deadline is read after the idle wait, at line 79 of `BaseUiAutomationDriver.java`. So the fetch loop's `timeoutMillis` budget starts there, not at entry, and the idle wait's time is not charged to it. `FetchBudgetStartsAfterIdle` and `IdleTimeNotChargedToFetchLoop` state this.
- **Timeout test.** The timeout test is a strict `< 0`, at line 92. With 0 ms left, the loop sleeps 0 ms and fetches again. `TimeoutOnlyPastDeadline` states this.
- **Idle-wait failure.** A failed idle wait becomes droiddriver's `TimeoutException` with the cause attached, at lines 73-74. The model writes this as `IdleTimeout(cause)`, distinct from the loop's `RootTimeout(timeoutMillis)`.

## Model

| member | source | states |
|---|---|---|
| BaseUiAutomationDriver.GetRootNode | src/com/google/android/droiddriver/uiautomation/base/BaseUiAutomationDriver.java:65-99 | The trace follows the protocol. It sees the platform's idle outcome and fetch results in order. The deadline reading equals the entry clock plus the idle wait's duration. Every later reading equals the platform's clock at that point: the deadline reading plus each earlier fetch's duration, plus each earlier sleep's requested and extra time. Clock readings strictly increase. The driver fetches at most 1 time, or at most `n` times where 251·(n−2) < timeoutMillis. Being total, it terminates. |
| BaseUiAutomationDriver.PollRoot | src/com/google/android/droiddriver/uiautomation/base/BaseUiAutomationDriver.java:79-98 | The loop against deadline `start + timeoutMillis` gives a polling trace. The k-th fetch result is the platform's k-th. Each reading is the platform's clock after the calls before it (`ReadsClock`), and the clock moves forward from `start`. The fetch count is bounded as above. The loop ends whenever each fetch takes at least 1 ms. |
| BaseUiAutomationDriver.IdleWaitOnceFirst | src/com/google/android/droiddriver/uiautomation/base/BaseUiAutomationDriver.java:66-77 | The idle wait is the first call, made with quiet time 500 and the poller's timeout, and it is never repeated. If it throws, the result is `IdleTimeout(cause)` and nothing is fetched. The result is an idle timeout exactly when the idle wait threw. |
| BaseUiAutomationDriver.FetchBudgetStartsAfterIdle | src/com/google/android/droiddriver/uiautomation/base/BaseUiAutomationDriver.java:79-98 | After a normal idle wait, the clock is read and the next call is a fetch. At least one fetch happens. A failure is the root timeout, at a reading more than `timeoutMillis` after the post-idle reading. Every earlier reading is within that budget. |
| BaseUiAutomationDriver.IdleTimeNotChargedToFetchLoop | src/com/google/android/droiddriver/uiautomation/base/BaseUiAutomationDriver.java:79-97 | This runs `GetRootNode` on a concrete platform: entered at 0 with a 2000 ms timeout, with the idle wait ending at 300 and the first fetch finding nothing after 1801 ms. From the contract alone, the call reads 2101 (past 0 + 2000), sleeps 199 ms, and returns the root of the second fetch. |
| BaseUiAutomationDriver.ReturnsFirstRoot | src/com/google/android/droiddriver/uiautomation/base/BaseUiAutomationDriver.java:80-90 | At least one fetch happens. The call succeeds exactly when the last fetch found a root, and it returns that root as its last call. Every earlier fetch returned null. |
| BaseUiAutomationDriver.TimeoutOnlyPastDeadline | src/com/google/android/droiddriver/uiautomation/base/BaseUiAutomationDriver.java:91-96 | The polling phase fails exactly when its last call is a reading strictly past `end`. The error carries the original `timeoutMillis`. Every other reading is at or before `end`. A reading exactly at `end` is followed by `Sleep(0)` and another fetch. |
| BaseUiAutomationDriver.SleepsAreCapped | src/com/google/android/droiddriver/uiautomation/base/BaseUiAutomationDriver.java:91-97 | The polling phase starts with a fetch. Each sleep follows a null fetch and an in-time reading. It lasts `min(250, end - reading)`, which lies in [0, 250] and never exceeds the time left. Another fetch always follows it, so no sleep comes before the first fetch or after the last. |
| BaseUiAutomationDriver.RetriesCharacterized | src/com/google/android/droiddriver/uiautomation/base/BaseUiAutomationDriver.java:80-98 | The round-by-round definition of unsuccessful rounds matches the position-by-position one. Position i mod 3 = 0 is a null fetch. Position 1 is a reading at or before the deadline. Position 2 is the capped sleep after that reading. Both directions are proved. |
| BaseUiAutomationDriver.RetriesFetchNothing | src/com/google/android/droiddriver/uiautomation/base/BaseUiAutomationDriver.java:81-90 | Each unsuccessful round holds exactly one fetch, and that fetch returned null. |
| BaseUiAutomationDriver.PollingTrace | src/com/google/android/droiddriver/uiautomation/base/BaseUiAutomationDriver.java:80-98 | The loop's protocol. First come unsuccessful rounds: a null fetch, a reading at or before `end`, and a sleep of `min(250, end - reading)`. Then comes either a fetch that found the root, returned as the result, or a null fetch and a reading past `end`, which gives `RootTimeout(timeoutMillis)`. |
| BaseUiAutomationDriver.GetRootNodeTrace | src/com/google/android/droiddriver/uiautomation/base/BaseUiAutomationDriver.java:65-99 | The whole call's protocol. It starts with one `waitForIdle(500, timeoutMillis)`. If that throws, the call ends with `IdleTimeout(cause)`. Otherwise one clock reading sets the deadline to that reading plus `timeoutMillis`, and a polling trace follows. |
| BaseUiAutomationDriver.RemainingMillisInLongs | src/com/google/android/droiddriver/uiautomation/base/BaseUiAutomationDriver.java:79-91 | `end - now`, computed as Java does in 64-bit longs. The result is a long, congruent to the exact remaining time modulo 2^64. |
| BaseUiAutomationDriver.RemainingMillisExactInLongs | src/com/google/android/droiddriver/uiautomation/base/BaseUiAutomationDriver.java:79-91 | In Java's 64-bit long arithmetic, `end = uptime + timeoutMillis` may wrap. `end - now` still equals the exact remaining time whenever that time fits in a long. |
| BaseUiAutomationDriver.Min | src/com/google/android/droiddriver/uiautomation/base/BaseUiAutomationDriver.java:97 | `Math.min` returns one of its arguments, and that argument is at most both. |
| Util.ActivityUtils.constructor | src/com/google/android/droiddriver/util/ActivityUtils.java:25 | The slot starts out null. |
| Util.ActivityUtils.SetRunningActivity | src/com/google/android/droiddriver/util/ActivityUtils.java:34-36 | Afterwards the slot holds the given activity, which may be null. Only `runningActivity` may change. |
| Util.ActivityUtils.GetRunningActivity | src/com/google/android/droiddriver/util/ActivityUtils.java:43-45 | It returns the slot's value and changes nothing. |
| Util.RepeatedGets | src/com/google/android/droiddriver/util/ActivityUtils.java:43-44 | Two gets in a row return the same value, which is the slot's value. |
| Util.LastWriterWins | src/com/google/android/droiddriver/util/ActivityUtils.java:34-45 | After `set(a)`, `set(b)`, `get()`, the get returns `b`. |
| Util.ClearingEmptiesRegistry | src/com/google/android/droiddriver/util/ActivityUtils.java:34-45 | After `set(null)`, a get returns null, whatever was running before. |
| Util.FreshRegistryIsEmpty | src/com/google/android/droiddriver/util/ActivityUtils.java:25-44 | A get before any set returns null. |

## Left out

- `clearAccessibilityNodeInfoCache` and `clearAccessibilityNodeInfoCacheHack` (lines 106-125): these only cause platform side effects. They put the device to sleep and wake it, or send an accessibility event. Nothing they return or change can be stated.
- `getNewRootElement`, `getContext`, `getUiDevice`, the constructor and `newContext`: these are wiring into classes outside this model.
- `UiAutomation`, `AccessibilityNodeInfo`, `context.callUiAutomation` and `SystemClock`: these are platform calls. The model treats them as the `Platform` oracle and a clock value, and treats nodes and activities as opaque handles.
- The generic poller: only its `getTimeoutMillis()` value enters the model, as the `timeoutMillis` parameter. The poller itself is not part of this model.
- `Logs.call`: this is logging.
- `UnsatisfiedConditionException`: it is an exception type with no logic.
- The text of the root-timeout message: the model keeps only the number it formats, `timeoutMillis`.
- BaseUiAutomationDriver.GetRootNode: termination rests on one assumption, that each `getRootInActiveWindow` call advances the uptime clock by at least 1 ms. Without it, `sleep(0)` when exactly 0 ms remain could repeat forever.
- BaseUiAutomationDriver.GetRootNode: there is no upper bound on elapsed real time, because sleeps may last arbitrarily longer than requested. The fetch bound of 251·(n−2) < timeoutMillis relies on the 1 ms per fetch assumption.
- Integer width: the model computes `end` and `remainingMillis` on unbounded integers. `RemainingMillisExactInLongs` shows this agrees with Java longs whenever the remaining time fits in a long. Outside that condition they differ. For example, with `timeoutMillis` near `Long.MIN_VALUE`, Java's `end - now` wraps to a large positive value and the loop keeps polling, while the model times out at once.
- The `synchronized` keyword on the `ActivityUtils` methods: the registry is modelled sequentially. Cross-thread visibility and atomicity are not modelled.
- The static field: it becomes the field of one `ActivityUtils` object, which callers share.
