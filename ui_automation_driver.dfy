/**
 * Root acquisition of droiddriver's BaseUiAutomationDriver: wait once for the
 * UI to go idle, then poll UiAutomation for the root of the active window until
 * it is non-null or a deadline taken right after the idle wait has passed.
 *
 * The platform (UiAutomation, SystemClock) is an oracle `Platform`; the method
 * `GetRootNode` runs the loop against it and returns, besides the result, the
 * trace of platform calls it made. `GetRootNodeTrace` says which traces the
 * protocol allows, and the lemmas below state what every such trace promises.
 */
module BaseUiAutomationDriver {
  import opened Wrappers

  /** Minimum quiet time, in milliseconds, before the UI counts as idle. */
  const QuietTimeToBeConsideredIdleState: int := 500

  /** Longest single sleep between two root fetches, in milliseconds. */
  const MaxPollSleepMillis: int := 250

  /** An android.view.accessibility.AccessibilityNodeInfo, identified by an opaque handle. */
  datatype AccessibilityNodeInfo = AccessibilityNodeInfo(handle: nat)

  /** The java.util.concurrent.TimeoutException that UiAutomation.waitForIdle may throw. */
  datatype ConcurrentTimeout = ConcurrentTimeout(detail: string)

  /** What one call of UiAutomation.waitForIdle does: return, or throw. */
  datatype IdleOutcome = Idle | IdleTimedOut(cause: ConcurrentTimeout)

  /** droiddriver's TimeoutException, in the two forms getRootNode throws it. */
  datatype TimeoutException =
    | IdleTimeout(cause: ConcurrentTimeout)  // wraps the exception of the idle wait
    | RootTimeout(timeoutMillis: int)        // "Timed out after <timeoutMillis> milliseconds ..."

  /** One platform call made by getRootNode, with what it observed. */
  datatype Call =
    | WaitForIdle(quietMillis: int, timeoutMillis: int, outcome: IdleOutcome)
    | GetRootInActiveWindow(root: Option<AccessibilityNodeInfo>)
    | UptimeMillis(reading: int)
    | Sleep(millis: int)

  type Positive = x: int | 1 <= x witness 1

  /**
   * The platform as seen by one getRootNode call. The uptime clock starts at
   * `startMillis`; the idle wait takes `idleMillis` and ends as `idleOutcome`
   * says; the k-th root fetch (counting from 0) returns `rootAt(k)` and takes
   * `fetchMillis(k)`, at least one millisecond; the k-th sleep lasts
   * `oversleepMillis(k)` longer than it was asked to.
   */
  datatype Platform = Platform(
    startMillis: int,
    idleOutcome: IdleOutcome,
    idleMillis: nat,
    rootAt: nat -> Option<AccessibilityNodeInfo>,
    fetchMillis: nat -> Positive,
    oversleepMillis: nat -> nat)

  /** Math.min on longs. */
  function Min(a: int, b: int): (m: int)
    ensures m <= a && m <= b && (m == a || m == b)
  {
    if a <= b then a else b
  }

  /** The range of a Java long. */
  const LongMin: int := -0x8000_0000_0000_0000
  const LongMax: int := 0x7FFF_FFFF_FFFF_FFFF
  const LongModulus: int := 0x1_0000_0000_0000_0000

  predicate IsLong(x: int)
  {
    LongMin <= x <= LongMax
  }

  /** Java's long addition and subtraction: the exact value, wrapped into 64 bits. */
  function WrapLong(x: int): (w: int)
    ensures IsLong(w) && (w - x) % LongModulus == 0
    ensures IsLong(x) ==> w == x
  {
    (x - LongMin) % LongModulus + LongMin
  }

  /**
   * `remainingMillis` as the Java code computes it in longs: `end` is
   * `uptimeMillis() + timeoutMillis`, wrapped, and then `end - now`, wrapped.
   */
  function RemainingMillisInLongs(start: int, timeoutMillis: int, now: int): (d: int)
    requires IsLong(start) && IsLong(timeoutMillis) && IsLong(now)
    ensures IsLong(d) && (d - (start + timeoutMillis - now)) % LongModulus == 0
  {
    WrapLong(WrapLong(start + timeoutMillis) - now)
  }

  /**
   * Even when `end` itself overflows, the long subtraction gives the exact
   * remaining time whenever that time fits in a long, so the model computes
   * `end` and `remainingMillis` on unbounded integers.
   */
  lemma RemainingMillisExactInLongs(start: int, timeoutMillis: int, now: int)
    requires IsLong(start) && IsLong(timeoutMillis) && IsLong(now)
    requires IsLong(start + timeoutMillis - now)
    ensures RemainingMillisInLongs(start, timeoutMillis, now) == start + timeoutMillis - now
  {
    var e := WrapLong(start + timeoutMillis);
    var a := WrapLongShift(start + timeoutMillis);
    var b := WrapLongShift(e - now);
    var d := WrapLong(e - now);
    assert IsLong(d);
    assert d - (start + timeoutMillis - now) == -0x1_0000_0000_0000_0000 * (a + b);
    assert a + b == 0;
  }

  /** Wrapping subtracts a whole number `n` of 2^64 from the exact value. */
  lemma WrapLongShift(x: int) returns (n: int)
    ensures WrapLong(x) == x - 0x1_0000_0000_0000_0000 * n
  {
    n := (x - LongMin) / LongModulus;
  }

  // ---------------------------------------------------------------------------
  // The protocol, as a predicate on traces
  // ---------------------------------------------------------------------------

  /**
   * One unsuccessful round of the polling loop: the fetch gave null, the clock
   * was read at or before the deadline `end`, and the driver slept for
   * min(250, remaining).
   */
  ghost predicate IsRetry(fetch: Call, clock: Call, sleep: Call, end: int)
  {
    fetch == GetRootInActiveWindow(None) &&
    clock.UptimeMillis? && end - clock.reading >= 0 &&
    sleep == Sleep(Min(MaxPollSleepMillis, end - clock.reading))
  }

  /** `t` is a sequence of unsuccessful rounds, all against deadline `end`. */
  ghost predicate Retries(t: seq<Call>, end: int)
    decreases |t|
  {
    if t == [] then true
    else |t| >= 3 && IsRetry(t[|t| - 3], t[|t| - 2], t[|t| - 1], end) && Retries(t[..|t| - 3], end)
  }

  /**
   * The polling phase: unsuccessful rounds, then either a fetch that gave a
   * root, returned as `r`, or a null fetch and a clock reading strictly past
   * `end`, which throws the root timeout naming `timeoutMillis`.
   */
  ghost predicate PollingTrace(t: seq<Call>, end: int, timeoutMillis: int,
                               r: Result<AccessibilityNodeInfo, TimeoutException>)
  {
    |t| >= 1 &&
    if t[|t| - 1].GetRootInActiveWindow? then
      t[|t| - 1].root.Some? && r == Success(t[|t| - 1].root.value) && Retries(t[..|t| - 1], end)
    else
      |t| >= 2 && t[|t| - 2] == GetRootInActiveWindow(None) &&
      t[|t| - 1].UptimeMillis? && end - t[|t| - 1].reading < 0 &&
      r == Failure(RootTimeout(timeoutMillis)) && Retries(t[..|t| - 2], end)
  }

  /**
   * A whole getRootNode call: one idle wait with the quiet time and the
   * poller's timeout; if it throws, the call fails with that cause and nothing
   * else happens; otherwise the clock is read once, the deadline is that
   * reading plus `timeoutMillis`, and the polling phase follows.
   */
  ghost predicate GetRootNodeTrace(t: seq<Call>, timeoutMillis: int,
                                   r: Result<AccessibilityNodeInfo, TimeoutException>)
  {
    |t| >= 1 && t[0].WaitForIdle? &&
    t[0].quietMillis == QuietTimeToBeConsideredIdleState && t[0].timeoutMillis == timeoutMillis &&
    match t[0].outcome
    case IdleTimedOut(cause) => |t| == 1 && r == Failure(IdleTimeout(cause))
    case Idle =>
      |t| >= 2 && t[1].UptimeMillis? &&
      PollingTrace(t[2..], t[1].reading + timeoutMillis, timeoutMillis, r)
  }

  /** The results of the root fetches in `t`, in order. */
  function Fetches(t: seq<Call>): (f: seq<Option<AccessibilityNodeInfo>>)
    ensures |f| <= |t|
    decreases |t|
  {
    if t == [] then []
    else
      var last := t[|t| - 1];
      Fetches(t[..|t| - 1]) + if last.GetRootInActiveWindow? then [last.root] else []
  }

  /** The first `k` results the platform gives for root fetches. */
  function Roots(p: Platform, k: nat): (s: seq<Option<AccessibilityNodeInfo>>)
    ensures |s| == k && forall i :: 0 <= i < k ==> s[i] == p.rootAt(i)
  {
    if k == 0 then [] else Roots(p, k - 1) + [p.rootAt(k - 1)]
  }

  /** Clock readings in `t` strictly increase. */
  ghost predicate ReadingsIncrease(t: seq<Call>)
  {
    forall i, j :: 0 <= i < j < |t| && t[i].UptimeMillis? && t[j].UptimeMillis? ==>
      t[i].reading < t[j].reading
  }

  /** No clock reading in `t` is later than `bound`. */
  ghost predicate ReadingsAtMost(t: seq<Call>, bound: int)
  {
    forall i :: 0 <= i < |t| && t[i].UptimeMillis? ==> t[i].reading <= bound
  }

  /** Every clock reading in `t` is later than `bound`. */
  ghost predicate ReadingsAfter(t: seq<Call>, bound: int)
  {
    forall i :: 0 <= i < |t| && t[i].UptimeMillis? ==> bound < t[i].reading
  }

  /** The latest clock reading in `t`, or `floor` when `t` reads no clock. */
  ghost function LastReading(t: seq<Call>, floor: int): int
    decreases |t|
  {
    if t == [] then floor
    else if t[|t| - 1].UptimeMillis? then t[|t| - 1].reading
    else LastReading(t[..|t| - 1], floor)
  }

  /** Each clock reading in `t` is later than the one before it, and the first is later than `floor`. */
  ghost predicate ClockForward(t: seq<Call>, floor: int)
    decreases |t|
  {
    t == [] ||
    (ClockForward(t[..|t| - 1], floor) &&
     (t[|t| - 1].UptimeMillis? ==> LastReading(t[..|t| - 1], floor) < t[|t| - 1].reading))
  }

  /**
   * The platform's uptime clock after the polling-phase calls `t`, entered at
   * `start`. Round j of the loop occupies positions 3j to 3j + 2: its fetch
   * takes `fetchMillis(j)`, its sleep lasts the time asked for plus
   * `oversleepMillis(j)`, and reading the clock takes no time.
   */
  ghost function ClockAt(p: Platform, start: int, t: seq<Call>): int
    decreases |t|
  {
    if t == [] then start
    else
      var prefix := t[..|t| - 1];
      ClockAt(p, start, prefix) +
        match t[|t| - 1]
        case GetRootInActiveWindow(_) => p.fetchMillis(|prefix| / 3)
        case Sleep(d) => d + p.oversleepMillis(|prefix| / 3)
        case _ => 0
  }

  /** Every clock reading in the polling-phase calls `t` is the platform's clock at that point. */
  ghost predicate ReadsClock(p: Platform, start: int, t: seq<Call>)
    decreases |t|
  {
    t == [] ||
    (ReadsClock(p, start, t[..|t| - 1]) &&
     (t[|t| - 1].UptimeMillis? ==> t[|t| - 1].reading == ClockAt(p, start, t[..|t| - 1])))
  }

  // ---------------------------------------------------------------------------
  // The methods
  // ---------------------------------------------------------------------------

  /**
   * The polling loop of getRootNode, entered with the clock at `start`: the
   * deadline is `start + timeoutMillis`. It follows the polling protocol, sees
   * the platform's fetch results in order, reads a clock that moves forward
   * from `start`, and fetches at most 2 + (timeoutMillis - 1) / 251 times.
   */
  method PollRoot(p: Platform, start: int, timeoutMillis: int)
      returns (r: Result<AccessibilityNodeInfo, TimeoutException>, polled: seq<Call>)
    ensures PollingTrace(polled, start + timeoutMillis, timeoutMillis, r)
    ensures forall k :: 0 <= k < |Fetches(polled)| ==> Fetches(polled)[k] == p.rootAt(k)
    ensures ClockForward(polled, start) && ReadsClock(p, start, polled)
    ensures |Fetches(polled)| <= 1 || 251 * (|Fetches(polled)| - 2) < timeoutMillis
  {
    var now := start;
    var end := now + timeoutMillis;
    polled := [];
    var k: nat := 0;
    while true
      invariant end == start + timeoutMillis && start <= now
      invariant Retries(polled, end)
      invariant Fetches(polled) == Roots(p, k) && |polled| == 3 * k
      invariant ReadsClock(p, start, polled) && now == ClockAt(p, start, polled)
      invariant ClockForward(polled, start) && LastReading(polled, start) <= now
      invariant now >= end || now >= start + 251 * k
      invariant k == 0 || 251 * (k - 1) < timeoutMillis
      decreases end - now
    {
      ghost var before := now;
      var root := p.rootAt(k);
      now := now + p.fetchMillis(k);
      if root.Some? {
        Succeeds(p, polled, k, end, timeoutMillis, start);
        return Success(root.value), polled + [GetRootInActiveWindow(root)];
      }

      var remainingMillis := end - now;
      if remainingMillis < 0 {
        TimesOut(p, polled, k, now, end, timeoutMillis, start);
        return Failure(RootTimeout(timeoutMillis)), polled + [GetRootInActiveWindow(None), UptimeMillis(now)];
      }

      var sleepMillis := Min(MaxPollSleepMillis, remainingMillis);
      RetryProtocol(p, polled, k, now, end);
      RetryClock(p, polled, k, now, sleepMillis, start);
      polled := polled + [GetRootInActiveWindow(None), UptimeMillis(now), Sleep(sleepMillis)];
      ghost var read := now;
      now := now + sleepMillis + p.oversleepMillis(k);
      RoundBudget(start, end, timeoutMillis, k, before, read, sleepMillis, now);
      k := k + 1;
    }
  }

  /**
   * getRootNode against platform `p`, with the poller's `timeoutMillis`: the
   * idle wait, then, if it returned, the polling loop with a deadline taken
   * from the clock right after it.
   */
  method GetRootNode(p: Platform, timeoutMillis: int)
      returns (r: Result<AccessibilityNodeInfo, TimeoutException>, trace: seq<Call>)
    ensures GetRootNodeTrace(trace, timeoutMillis, r)
    ensures trace[0].outcome == p.idleOutcome
    ensures p.idleOutcome.Idle? ==> trace[1] == UptimeMillis(p.startMillis + p.idleMillis)
    ensures forall k :: 0 <= k < |Fetches(trace)| ==> Fetches(trace)[k] == p.rootAt(k)
    ensures ReadingsIncrease(trace)
    ensures forall i :: 2 <= i < |trace| && trace[i].UptimeMillis? ==>
      trace[i].reading == ClockAt(p, p.startMillis + p.idleMillis, trace[2..i])
    ensures |Fetches(trace)| <= 1 || 251 * (|Fetches(trace)| - 2) < timeoutMillis
  {
    var now := p.startMillis;
    var idleWait := WaitForIdle(QuietTimeToBeConsideredIdleState, timeoutMillis, p.idleOutcome);
    now := now + p.idleMillis;
    if p.idleOutcome.IdleTimedOut? {
      assert Fetches([idleWait]) == Fetches([]) + [];
      return Failure(IdleTimeout(p.idleOutcome.cause)), [idleWait];
    }

    var polled;
    r, polled := PollRoot(p, now, timeoutMillis);
    Assembled(p, timeoutMillis, now, polled, r);
    trace := [idleWait, UptimeMillis(now)] + polled;
  }

  // ---------------------------------------------------------------------------
  // Steps of the methods
  // ---------------------------------------------------------------------------

  /** Appending one call adds its result, if it is a fetch, to `Fetches`. */
  lemma AppendFetch(t: seq<Call>, c: Call)
    ensures Fetches(t + [c]) == Fetches(t) + if c.GetRootInActiveWindow? then [c.root] else []
  {
    assert (t + [c])[..|t|] == t;
  }

  /**
   * Appending one call advances the platform's clock by the time the call
   * takes, and keeps the readings on the platform's clock and moving forward.
   */
  lemma AppendClock(p: Platform, t: seq<Call>, c: Call, floor: int)
    requires ClockForward(t, floor) && ReadsClock(p, floor, t)
    requires c.UptimeMillis? ==> LastReading(t, floor) < c.reading && c.reading == ClockAt(p, floor, t)
    ensures ClockForward(t + [c], floor) && ReadsClock(p, floor, t + [c])
    ensures LastReading(t + [c], floor) == if c.UptimeMillis? then c.reading else LastReading(t, floor)
    ensures ClockAt(p, floor, t + [c]) == ClockAt(p, floor, t) +
      if c.GetRootInActiveWindow? then p.fetchMillis(|t| / 3)
      else if c.Sleep? then c.millis + p.oversleepMillis(|t| / 3)
      else 0
  {
    assert (t + [c])[..|t|] == t;
  }

  /**
   * A clock that moves forward gives strictly increasing readings, all later
   * than the floor and none later than the last one.
   */
  lemma {:induction false} ClockForwardIncreases(t: seq<Call>, floor: int)
    requires ClockForward(t, floor)
    ensures ReadingsIncrease(t) && ReadingsAfter(t, floor)
    ensures ReadingsAtMost(t, LastReading(t, floor)) && floor <= LastReading(t, floor)
    decreases |t|
  {
    if t != [] {
      var s := t[..|t| - 1];
      ClockForwardIncreases(s, floor);
      assert forall i :: 0 <= i < |s| ==> t[i] == s[i];
    }
  }

  /**
   * Putting the idle wait and the deadline reading in front of the polling
   * phase: fetches are unchanged and readings still increase.
   */
  lemma Prefixed(idleWait: Call, start: int, polled: seq<Call>)
    requires !idleWait.GetRootInActiveWindow? && !idleWait.UptimeMillis?
    requires ReadingsIncrease(polled) && ReadingsAfter(polled, start)
    ensures Fetches([idleWait, UptimeMillis(start)] + polled) == Fetches(polled)
    ensures ReadingsIncrease([idleWait, UptimeMillis(start)] + polled)
    ensures ([idleWait, UptimeMillis(start)] + polled)[2..] == polled
  {
    var head := [idleWait, UptimeMillis(start)];
    var t := head + polled;
    assert t[2..] == polled;
    FetchesConcat(head, polled);
    assert head[..1] == [idleWait] && [idleWait][..0] == [];
    assert Fetches(head) == [];
    forall i, j | 0 <= i < j < |t| && t[i].UptimeMillis? && t[j].UptimeMillis?
      ensures t[i].reading < t[j].reading
    {
      assert t[j] == polled[j - 2];
      if i >= 2 {
        assert t[i] == polled[i - 2];
      }
    }
  }

  /**
   * After a normal idle wait, the deadline reading and the polling phase
   * together form a whole getRootNode trace with the promised properties.
   */
  lemma Assembled(p: Platform, timeoutMillis: int, start: int, polled: seq<Call>,
                  r: Result<AccessibilityNodeInfo, TimeoutException>)
    requires p.idleOutcome.Idle?
    requires PollingTrace(polled, start + timeoutMillis, timeoutMillis, r)
    requires forall k :: 0 <= k < |Fetches(polled)| ==> Fetches(polled)[k] == p.rootAt(k)
    requires ClockForward(polled, start) && ReadsClock(p, start, polled)
    requires |Fetches(polled)| <= 1 || 251 * (|Fetches(polled)| - 2) < timeoutMillis
    ensures var t := [WaitForIdle(QuietTimeToBeConsideredIdleState, timeoutMillis, p.idleOutcome), UptimeMillis(start)] + polled;
      GetRootNodeTrace(t, timeoutMillis, r) &&
      (forall k :: 0 <= k < |Fetches(t)| ==> Fetches(t)[k] == p.rootAt(k)) &&
      ReadingsIncrease(t) &&
      (forall i :: 2 <= i < |t| && t[i].UptimeMillis? ==> t[i].reading == ClockAt(p, start, t[2..i])) &&
      (|Fetches(t)| <= 1 || 251 * (|Fetches(t)| - 2) < timeoutMillis)
  {
    var idleWait := WaitForIdle(QuietTimeToBeConsideredIdleState, timeoutMillis, p.idleOutcome);
    var t := [idleWait, UptimeMillis(start)] + polled;
    assert t[0] == idleWait && t[1] == UptimeMillis(start) && t[2..] == polled;
    assert GetRootNodeTrace(t, timeoutMillis, r);
    ReadsClockAt(p, start, polled);
    forall i | 2 <= i < |t| && t[i].UptimeMillis?
      ensures t[i].reading == ClockAt(p, start, t[2..i])
    {
      assert t[2..i] == t[2..][..i - 2];
    }
    ClockForwardIncreases(polled, start);
    Prefixed(idleWait, start, polled);
  }

  /** Each clock reading equals the platform's clock after the calls before it. */
  lemma {:induction false} ReadsClockAt(p: Platform, start: int, t: seq<Call>)
    requires ReadsClock(p, start, t)
    ensures forall i :: 0 <= i < |t| && t[i].UptimeMillis? ==> t[i].reading == ClockAt(p, start, t[..i])
    decreases |t|
  {
    if t != [] {
      var s := t[..|t| - 1];
      ReadsClockAt(p, start, s);
      forall i | 0 <= i < |s|
        ensures t[i] == s[i] && t[..i] == s[..i]
      {
      }
    }
  }

  /** A fetch that returns a root ends the polling phase successfully. */
  lemma Succeeds(p: Platform, polled: seq<Call>, k: nat, end: int, timeoutMillis: int, floor: int)
    requires Retries(polled, end) && ClockForward(polled, floor) && ReadsClock(p, floor, polled)
    requires Fetches(polled) == Roots(p, k)
    requires p.rootAt(k).Some? && (k == 0 || 251 * (k - 1) < timeoutMillis)
    ensures var t := polled + [GetRootInActiveWindow(p.rootAt(k))];
      PollingTrace(t, end, timeoutMillis, Success(p.rootAt(k).value)) &&
      ClockForward(t, floor) && ReadsClock(p, floor, t) &&
      (forall i :: 0 <= i < |Fetches(t)| ==> Fetches(t)[i] == p.rootAt(i)) &&
      (|Fetches(t)| <= 1 || 251 * (|Fetches(t)| - 2) < timeoutMillis)
  {
    AppendFetch(polled, GetRootInActiveWindow(p.rootAt(k)));
    AppendClock(p, polled, GetRootInActiveWindow(p.rootAt(k)), floor);
    assert (polled + [GetRootInActiveWindow(p.rootAt(k))])[..|polled|] == polled;
    assert Roots(p, k + 1) == Roots(p, k) + [p.rootAt(k)];
  }

  /**
   * A null fetch followed by a reading past the deadline ends the polling
   * phase with the root timeout.
   */
  lemma TimesOut(p: Platform, polled: seq<Call>, k: nat, reading: int, end: int, timeoutMillis: int, floor: int)
    requires Retries(polled, end) && ClockForward(polled, floor) && LastReading(polled, floor) < reading
    requires ReadsClock(p, floor, polled) && |polled| == 3 * k
    requires reading == ClockAt(p, floor, polled) + p.fetchMillis(k)
    requires Fetches(polled) == Roots(p, k) && p.rootAt(k) == None
    requires k == 0 || 251 * (k - 1) < timeoutMillis
    requires end - reading < 0
    ensures var t := polled + [GetRootInActiveWindow(None), UptimeMillis(reading)];
      PollingTrace(t, end, timeoutMillis, Failure(RootTimeout(timeoutMillis))) &&
      ClockForward(t, floor) && ReadsClock(p, floor, t) &&
      (forall i :: 0 <= i < |Fetches(t)| ==> Fetches(t)[i] == p.rootAt(i)) &&
      (|Fetches(t)| <= 1 || 251 * (|Fetches(t)| - 2) < timeoutMillis)
  {
    var fetched := polled + [GetRootInActiveWindow(None)];
    assert |polled| / 3 == k;
    AppendFetch(polled, GetRootInActiveWindow(None));
    AppendFetch(fetched, UptimeMillis(reading));
    AppendClock(p, polled, GetRootInActiveWindow(None), floor);
    AppendClock(p, fetched, UptimeMillis(reading), floor);
    assert fetched + [UptimeMillis(reading)] == polled + [GetRootInActiveWindow(None), UptimeMillis(reading)];
    assert (fetched + [UptimeMillis(reading)])[..|polled|] == polled;
    assert Roots(p, k + 1) == Roots(p, k) + [p.rootAt(k)];
  }

  /**
   * One unsuccessful round, entered at `before` and read at `read`, moves the
   * clock forward; unless it reaches `end`, it takes at least 251 ms (a fetch
   * of at least 1 ms and a full 250 ms sleep), so k rounds fit in the budget
   * only when 251 * k < timeoutMillis.
   */
  lemma RoundBudget(start: int, end: int, timeoutMillis: int, k: nat, before: int, read: int,
                    sleepMillis: int, after: int)
    requires end == start + timeoutMillis && (before >= end || before >= start + 251 * k)
    requires read >= before + 1 && end - read >= 0
    requires sleepMillis == Min(MaxPollSleepMillis, end - read) && after >= read + sleepMillis
    ensures before < after && (after >= end || after >= start + 251 * (k + 1))
    ensures 251 * k < timeoutMillis
  {
  }

  /**
   * A null fetch followed by a reading at or before the deadline and the
   * capped sleep is one more retry, and it fetched the platform's next result.
   */
  lemma RetryProtocol(p: Platform, polled: seq<Call>, k: nat, reading: int, end: int)
    requires Retries(polled, end) && Fetches(polled) == Roots(p, k) && p.rootAt(k) == None
    requires end - reading >= 0
    ensures var t := polled + [GetRootInActiveWindow(None), UptimeMillis(reading),
                               Sleep(Min(MaxPollSleepMillis, end - reading))];
      Retries(t, end) && Fetches(t) == Roots(p, k + 1)
  {
    var sleep := Sleep(Min(MaxPollSleepMillis, end - reading));
    RetriesExtend(polled, GetRootInActiveWindow(None), UptimeMillis(reading), sleep, end);
    FetchesOfRetry(polled, reading, sleep);
    assert Roots(p, k + 1) == Roots(p, k) + [p.rootAt(k)];
  }

  /** Unsuccessful rounds followed by one more are unsuccessful rounds. */
  lemma RetriesExtend(polled: seq<Call>, fetch: Call, clock: Call, sleep: Call, end: int)
    requires Retries(polled, end) && IsRetry(fetch, clock, sleep, end)
    ensures Retries(polled + [fetch, clock, sleep], end)
  {
    var t := polled + [fetch, clock, sleep];
    assert t[..|t| - 3] == polled;
  }

  /** An unsuccessful round adds one null result to `Fetches`. */
  lemma FetchesOfRetry(polled: seq<Call>, reading: int, sleep: Call)
    requires sleep.Sleep?
    ensures Fetches(polled + [GetRootInActiveWindow(None), UptimeMillis(reading), sleep]) ==
      Fetches(polled) + [None]
  {
    var fetched := polled + [GetRootInActiveWindow(None)];
    var read := fetched + [UptimeMillis(reading)];
    assert read + [sleep] == polled + [GetRootInActiveWindow(None), UptimeMillis(reading), sleep];
    AppendFetch(polled, GetRootInActiveWindow(None));
    AppendFetch(fetched, UptimeMillis(reading));
    AppendFetch(read, sleep);
  }

  /**
   * The clock over one more retry: the reading is the platform's clock after
   * the fetch, and the round ends when the sleep and its overrun are over.
   */
  lemma RetryClock(p: Platform, polled: seq<Call>, k: nat, reading: int, sleepMillis: int, floor: int)
    requires ClockForward(polled, floor) && LastReading(polled, floor) < reading
    requires ReadsClock(p, floor, polled) && |polled| == 3 * k
    requires reading == ClockAt(p, floor, polled) + p.fetchMillis(k)
    ensures var t := polled + [GetRootInActiveWindow(None), UptimeMillis(reading), Sleep(sleepMillis)];
      ClockForward(t, floor) && LastReading(t, floor) == reading && ReadsClock(p, floor, t) &&
      ClockAt(p, floor, t) == reading + sleepMillis + p.oversleepMillis(k)
  {
    var fetched := polled + [GetRootInActiveWindow(None)];
    var read := fetched + [UptimeMillis(reading)];
    var t := polled + [GetRootInActiveWindow(None), UptimeMillis(reading), Sleep(sleepMillis)];
    assert read + [Sleep(sleepMillis)] == t;
    assert |polled| / 3 == k && |fetched| / 3 == k && |read| / 3 == k;
    AppendClock(p, polled, GetRootInActiveWindow(None), floor);
    AppendClock(p, fetched, UptimeMillis(reading), floor);
    AppendClock(p, read, Sleep(sleepMillis), floor);
  }

  // ---------------------------------------------------------------------------
  // What every trace of the protocol promises
  // ---------------------------------------------------------------------------

  /**
   * Position `i` of a run of unsuccessful rounds, read on its own: every third
   * call is a null fetch, the next a clock reading at or before `end`, and the
   * next a sleep of min(250, remaining) after that reading.
   */
  ghost predicate RetryAt(t: seq<Call>, i: int, end: int)
    requires 0 <= i < |t|
  {
    if i % 3 == 0 then t[i] == GetRootInActiveWindow(None)
    else if i % 3 == 1 then t[i].UptimeMillis? && end - t[i].reading >= 0
    else t[i - 1].UptimeMillis? && t[i] == Sleep(Min(MaxPollSleepMillis, end - t[i - 1].reading))
  }

  /** Reading position `i` of `t` or of a longer trace that starts with `t` is the same. */
  lemma RetryAtPrefix(t: seq<Call>, k: int, i: int, end: int)
    requires 0 <= i < k <= |t|
    ensures RetryAt(t[..k], i, end) == RetryAt(t, i, end)
  {
    assert t[..k][i] == t[i];
    if i % 3 == 2 {
      assert t[..k][i - 1] == t[i - 1];
    }
  }

  /** Every position of a run of unsuccessful rounds reads as `RetryAt`. */
  lemma {:induction false} RetriesAtEachPosition(t: seq<Call>, end: int)
    requires Retries(t, end)
    ensures |t| % 3 == 0 && forall i :: 0 <= i < |t| ==> RetryAt(t, i, end)
    decreases |t|
  {
    if t != [] {
      var k := |t| - 3;
      assert IsRetry(t[k], t[k + 1], t[k + 2], end);
      RetriesAtEachPosition(t[..k], end);
      var m := k / 3;
      assert k == 3 * m;
      forall i | 0 <= i < |t|
        ensures RetryAt(t, i, end)
      {
        if i < k {
          RetryAtPrefix(t, k, i, end);
        } else if i == k {
          assert i % 3 == 0;
        } else if i == k + 1 {
          assert i % 3 == 1;
        } else {
          assert i % 3 == 2;
        }
      }
    }
  }

  /** A trace that reads as `RetryAt` at every position is a run of unsuccessful rounds. */
  lemma {:induction false} RetriesFromPositions(t: seq<Call>, end: int)
    requires |t| % 3 == 0 && forall i :: 0 <= i < |t| ==> RetryAt(t, i, end)
    ensures Retries(t, end)
    decreases |t|
  {
    if t != [] {
      var k := |t| - 3;
      forall i | 0 <= i < k
        ensures RetryAt(t[..k], i, end)
      {
        RetryAtPrefix(t, k, i, end);
      }
      RetriesFromPositions(t[..k], end);
      assert RetryAt(t, k, end) && RetryAt(t, k + 1, end) && RetryAt(t, k + 2, end) by {
        var m := k / 3;
        assert k == 3 * m && (k + 1) % 3 == 1 && (k + 2) % 3 == 2;
      }
    }
  }

  /** `Retries`, defined round by round, agrees with the position-by-position reading. */
  lemma RetriesCharacterized(t: seq<Call>, end: int)
    ensures Retries(t, end) <==> |t| % 3 == 0 && forall i :: 0 <= i < |t| ==> RetryAt(t, i, end)
  {
    if Retries(t, end) {
      RetriesAtEachPosition(t, end);
    }
    if |t| % 3 == 0 && forall i :: 0 <= i < |t| ==> RetryAt(t, i, end) {
      RetriesFromPositions(t, end);
    }
  }

  /** The fetches of a concatenation are the fetches of its parts. */
  lemma {:induction false} FetchesConcat(a: seq<Call>, b: seq<Call>)
    ensures Fetches(a + b) == Fetches(a) + Fetches(b)
    decreases |b|
  {
    if b != [] {
      var b' := b[..|b| - 1];
      FetchesConcat(a, b');
      assert (a + b)[..|a + b| - 1] == a + b';
    } else {
      assert a + b == a;
    }
  }

  /** Every fetch in a run of unsuccessful rounds returned null, one per round. */
  lemma {:induction false} RetriesFetchNothing(t: seq<Call>, end: int)
    requires Retries(t, end)
    ensures |Fetches(t)| == |t| / 3
    ensures forall j :: 0 <= j < |Fetches(t)| ==> Fetches(t)[j] == None
    decreases |t|
  {
    if t != [] {
      var s := t[..|t| - 3];
      RetriesFetchNothing(s, end);
      assert t == s + t[|t| - 3..];
      FetchesConcat(s, t[|t| - 3..]);
      var last := t[|t| - 3..];
      assert last[..2][..1] == [last[0]] && last[..2] == [last[0], last[1]] && [last[0]][..0] == [];
      assert IsRetry(last[0], last[1], last[2], end);
      calc {
        Fetches(last);
        Fetches(last[..2]);
        Fetches([last[0]]);
        [None];
      }
    }
  }

  /**
   * The polling phase read position by position: a run of `n` calls of
   * unsuccessful rounds, then the final fetch (and, on timeout, the final
   * reading).
   */
  lemma PollingPositions(q: seq<Call>, end: int, timeoutMillis: int,
                         r: Result<AccessibilityNodeInfo, TimeoutException>) returns (n: nat)
    requires PollingTrace(q, end, timeoutMillis, r)
    ensures n % 3 == 0 && n < |q| && Retries(q[..n], end)
    ensures forall i :: 0 <= i < n ==> RetryAt(q, i, end)
    ensures q[n].GetRootInActiveWindow? && |Fetches(q)| == n / 3 + 1 && Fetches(q)[n / 3] == q[n].root
    ensures forall j :: 0 <= j < n / 3 ==> Fetches(q)[j] == None
    ensures r.Success? ==> |q| == n + 1 && q[n] == GetRootInActiveWindow(Some(r.value))
    ensures r.Failure? ==> |q| == n + 2 && q[n] == GetRootInActiveWindow(None) &&
                           q[n + 1].UptimeMillis? && end - q[n + 1].reading < 0 &&
                           r.error == RootTimeout(timeoutMillis)
  {
    n := if q[|q| - 1].GetRootInActiveWindow? then |q| - 1 else |q| - 2;
    RetriesAtEachPosition(q[..n], end);
    forall i | 0 <= i < n
      ensures RetryAt(q, i, end)
    {
      RetryAtPrefix(q, n, i, end);
    }
    PollingFetches(q, n, end);
  }

  /**
   * The fetches of a polling phase whose last round starts at `n`: one null
   * fetch per earlier round, then the last round's fetch.
   */
  lemma PollingFetches(q: seq<Call>, n: nat, end: int)
    requires n < |q| && Retries(q[..n], end) && q[n].GetRootInActiveWindow?
    requires |q| == n + 1 || (|q| == n + 2 && q[n + 1].UptimeMillis?)
    ensures Fetches(q) == Fetches(q[..n]) + [q[n].root] && |Fetches(q[..n])| == n / 3
    ensures forall j :: 0 <= j < n / 3 ==> Fetches(q)[j] == None
  {
    var pre := q[..n];
    RetriesFetchNothing(pre, end);
    assert q == pre + q[n..];
    FetchesConcat(pre, q[n..]);
    FinalFetch(q[n..]);
    forall j | 0 <= j < n / 3
      ensures Fetches(q)[j] == None
    {
      assert Fetches(q)[j] == Fetches(pre)[j];
    }
  }

  /**
   * The polling phase starts with a fetch, and every sleep comes after a null
   * fetch and a reading at or before the deadline, lasts min(250, remaining),
   * so between 0 and 250 and no longer than the time left, and is followed by
   * another fetch: there is no sleep before the first fetch or after the last.
   */
  lemma SleepsAreCapped(q: seq<Call>, end: int, timeoutMillis: int,
                        r: Result<AccessibilityNodeInfo, TimeoutException>)
    requires PollingTrace(q, end, timeoutMillis, r)
    ensures q[0].GetRootInActiveWindow?
    ensures forall i :: 0 <= i < |q| && q[i].Sleep? ==>
      2 <= i < |q| - 1 && q[i - 2] == GetRootInActiveWindow(None) && q[i - 1].UptimeMillis? &&
      q[i].millis == Min(MaxPollSleepMillis, end - q[i - 1].reading) &&
      0 <= q[i].millis <= MaxPollSleepMillis && q[i].millis <= end - q[i - 1].reading &&
      q[i + 1].GetRootInActiveWindow?
  {
    var n := PollingPositions(q, end, timeoutMillis, r);
    if n > 0 {
      assert RetryAt(q, 0, end);
    }
    forall i | 0 <= i < |q| && q[i].Sleep?
      ensures 2 <= i < |q| - 1 && q[i - 2] == GetRootInActiveWindow(None) && q[i - 1].UptimeMillis? &&
        q[i].millis == Min(MaxPollSleepMillis, end - q[i - 1].reading) &&
        0 <= q[i].millis <= MaxPollSleepMillis && q[i].millis <= end - q[i - 1].reading &&
        q[i + 1].GetRootInActiveWindow?
    {
      assert i < n;
      assert RetryAt(q, i, end) && RetryAt(q, i - 1, end) && RetryAt(q, i - 2, end);
      if i + 1 < n {
        assert RetryAt(q, i + 1, end);
      }
    }
  }

  /**
   * The call returns a root exactly when the last fetch found one, and it is
   * that root; every earlier fetch found none, so the first non-null root is
   * returned at once.
   */
  lemma ReturnsFirstRoot(q: seq<Call>, end: int, timeoutMillis: int,
                         r: Result<AccessibilityNodeInfo, TimeoutException>)
    requires PollingTrace(q, end, timeoutMillis, r)
    ensures |Fetches(q)| >= 1
    ensures r.Success? <==> Fetches(q)[|Fetches(q)| - 1].Some?
    ensures r.Success? ==> Fetches(q)[|Fetches(q)| - 1] == Some(r.value) &&
                           q[|q| - 1] == GetRootInActiveWindow(Some(r.value))
    ensures forall j :: 0 <= j < |Fetches(q)| - 1 ==> Fetches(q)[j] == None
  {
    var n := PollingPositions(q, end, timeoutMillis, r);
  }

  /** The last round of the polling phase, a fetch possibly followed by a reading, holds one fetch. */
  lemma FinalFetch(tail: seq<Call>)
    requires 1 <= |tail| <= 2 && tail[0].GetRootInActiveWindow?
    requires |tail| == 2 ==> tail[1].UptimeMillis?
    ensures Fetches(tail) == [tail[0].root]
  {
    assert tail[..1][..0] == [];
    if |tail| == 2 {
      assert tail[..1] == [tail[0]];
    }
  }

  /**
   * The polling phase fails only with the root timeout naming the poller's
   * timeout, and only at a reading strictly past the deadline; every other
   * reading is at or before it. A reading exactly at the deadline leaves 0 ms:
   * the loop sleeps 0 and fetches again.
   */
  lemma TimeoutOnlyPastDeadline(q: seq<Call>, end: int, timeoutMillis: int,
                                r: Result<AccessibilityNodeInfo, TimeoutException>)
    requires PollingTrace(q, end, timeoutMillis, r)
    ensures r.Failure? <==> q[|q| - 1].UptimeMillis? && q[|q| - 1].reading > end
    ensures r.Failure? ==> r.error == RootTimeout(timeoutMillis)
    ensures forall i :: 0 <= i < |q| - 1 && q[i].UptimeMillis? ==> q[i].reading <= end
    ensures forall i :: 0 <= i < |q| && q[i].UptimeMillis? && q[i].reading == end ==>
      i + 2 < |q| && q[i + 1] == Sleep(0) && q[i + 2].GetRootInActiveWindow?
  {
    var n := PollingPositions(q, end, timeoutMillis, r);
    forall i | 0 <= i < |q| - 1 && q[i].UptimeMillis?
      ensures q[i].reading <= end
    {
      assert i < n && RetryAt(q, i, end);
    }
    forall i | 0 <= i < |q| && q[i].UptimeMillis? && q[i].reading == end
      ensures i + 2 < |q| && q[i + 1] == Sleep(0) && q[i + 2].GetRootInActiveWindow?
    {
      assert i < n && RetryAt(q, i, end) && RetryAt(q, i + 1, end);
      if i + 2 < n {
        assert RetryAt(q, i + 2, end);
      }
    }
  }

  /** The polling phase makes no idle wait. */
  lemma PollingWaitsNoMore(q: seq<Call>, end: int, timeoutMillis: int,
                           r: Result<AccessibilityNodeInfo, TimeoutException>)
    requires PollingTrace(q, end, timeoutMillis, r)
    ensures forall i :: 0 <= i < |q| ==> !q[i].WaitForIdle?
  {
    var n := PollingPositions(q, end, timeoutMillis, r);
    forall i | 0 <= i < |q|
      ensures !q[i].WaitForIdle?
    {
      if i < n {
        assert RetryAt(q, i, end);
      }
    }
  }

  /**
   * The idle wait is the first call, made with the 500 ms quiet time and the
   * poller's timeout, and never repeated; when it throws, the call fails with
   * droiddriver's timeout wrapping that cause and fetches nothing; when it
   * returns, the call never fails with an idle timeout.
   */
  lemma IdleWaitOnceFirst(t: seq<Call>, timeoutMillis: int,
                          r: Result<AccessibilityNodeInfo, TimeoutException>)
    requires GetRootNodeTrace(t, timeoutMillis, r)
    ensures t[0] == WaitForIdle(QuietTimeToBeConsideredIdleState, timeoutMillis, t[0].outcome)
    ensures forall i :: 1 <= i < |t| ==> !t[i].WaitForIdle?
    ensures t[0].outcome.IdleTimedOut? ==> r == Failure(IdleTimeout(t[0].outcome.cause)) && Fetches(t) == []
    ensures (r.Failure? && r.error.IdleTimeout?) <==> t[0].outcome.IdleTimedOut?
  {
    if t[0].outcome.IdleTimedOut? {
      assert Fetches(t) == Fetches([]) + [];
    } else {
      var q := t[2..];
      IdlePollingPart(t, timeoutMillis, r);
      PollingWaitsNoMore(q, t[1].reading + timeoutMillis, timeoutMillis, r);
      forall i | 2 <= i < |t|
        ensures !t[i].WaitForIdle?
      {
        assert t[i] == q[i - 2];
      }
    }
  }

  /**
   * When the idle wait returns, the clock is read once and the fetch loop gets
   * the whole `timeoutMillis` from that reading, however long the idle wait
   * took: the first call after the reading is a fetch, and a root timeout
   * comes only at a reading more than `timeoutMillis` after it.
   */
  lemma FetchBudgetStartsAfterIdle(t: seq<Call>, timeoutMillis: int,
                                   r: Result<AccessibilityNodeInfo, TimeoutException>)
    requires GetRootNodeTrace(t, timeoutMillis, r) && t[0].outcome.Idle?
    ensures |t| >= 3 && t[1].UptimeMillis? && t[2].GetRootInActiveWindow?
    ensures |Fetches(t)| >= 1
    ensures r.Failure? ==> r.error == RootTimeout(timeoutMillis) &&
                           t[|t| - 1].UptimeMillis? && t[|t| - 1].reading > t[1].reading + timeoutMillis
    ensures forall i :: 2 <= i < |t| - 1 && t[i].UptimeMillis? ==> t[i].reading <= t[1].reading + timeoutMillis
  {
    var q := t[2..];
    var end := t[1].reading + timeoutMillis;
    SleepsAreCapped(q, end, timeoutMillis, r);
    ReturnsFirstRoot(q, end, timeoutMillis, r);
    TimeoutOnlyPastDeadline(q, end, timeoutMillis, r);
    assert t == t[..2] + q;
    FetchesConcat(t[..2], q);
    forall i | 2 <= i < |t| - 1 && t[i].UptimeMillis?
      ensures t[i].reading <= end
    {
      assert t[i] == q[i - 2];
    }
  }

  /**
   * The idle wait's time is not charged to the fetch loop. A call entered at
   * uptime 0 with a 2000 ms timeout has its idle wait end at 300. Its first
   * fetch finds no root and takes 1801 ms, so the clock reads 2101: past
   * 0 + 2000, but not past the deadline 300 + 2000. So the loop sleeps 199 ms,
   * and its second fetch returns the root.
   */
  method IdleTimeNotChargedToFetchLoop(root: AccessibilityNodeInfo)
      returns (r: Result<AccessibilityNodeInfo, TimeoutException>, trace: seq<Call>)
    ensures r == Success(root)
    ensures trace == [WaitForIdle(QuietTimeToBeConsideredIdleState, 2000, Idle), UptimeMillis(300),
                      GetRootInActiveWindow(None), UptimeMillis(2101), Sleep(199),
                      GetRootInActiveWindow(Some(root))]
  {
    var p := Platform(0, Idle, 300,
                      (k: nat) => if k == 0 then None else Some(root),
                      (k: nat) => if k == 0 then 1801 else 1,
                      (k: nat) => 0);
    r, trace := GetRootNode(p, 2000);
    FirstRoundRetries(p, trace, r, root);
  }

  /**
   * What `GetRootNode`'s contract decides for the platform of
   * `IdleTimeNotChargedToFetchLoop`: one null fetch ending at 2101, one sleep,
   * then the root.
   */
  lemma FirstRoundRetries(p: Platform, t: seq<Call>, r: Result<AccessibilityNodeInfo, TimeoutException>,
                          root: AccessibilityNodeInfo)
    requires GetRootNodeTrace(t, 2000, r) && t[0].outcome == p.idleOutcome
    requires p.idleOutcome.Idle? ==> t[1] == UptimeMillis(p.startMillis + p.idleMillis)
    requires forall k :: 0 <= k < |Fetches(t)| ==> Fetches(t)[k] == p.rootAt(k)
    requires forall i :: 2 <= i < |t| && t[i].UptimeMillis? ==>
      t[i].reading == ClockAt(p, p.startMillis + p.idleMillis, t[2..i])
    requires p.startMillis == 0 && p.idleOutcome == Idle && p.idleMillis == 300
    requires p.rootAt(0) == None && p.rootAt(1) == Some(root) && p.fetchMillis(0) == 1801
    ensures r == Success(root)
    ensures t == [WaitForIdle(QuietTimeToBeConsideredIdleState, 2000, Idle), UptimeMillis(300),
                  GetRootInActiveWindow(None), UptimeMillis(2101), Sleep(199),
                  GetRootInActiveWindow(Some(root))]
  {
    var q := t[2..];
    IdlePollingPart(t, 2000, r);
    assert t[1] == UptimeMillis(300);
    PollingClock(p, 300, t, q);
    FirstRoundRetriesPolling(p, q, r, root);
  }

  /**
   * After a normal idle wait, the calls from the third on are a polling trace
   * with the deadline read second, and they hold every fetch of the trace.
   */
  lemma IdlePollingPart(t: seq<Call>, timeoutMillis: int, r: Result<AccessibilityNodeInfo, TimeoutException>)
    requires GetRootNodeTrace(t, timeoutMillis, r) && t[0].outcome == Idle
    ensures |t| >= 2 && t[1].UptimeMillis?
    ensures PollingTrace(t[2..], t[1].reading + timeoutMillis, timeoutMillis, r)
    ensures Fetches(t[2..]) == Fetches(t)
  {
    var q := t[2..];
    assert Fetches(q) == Fetches(t) by {
      assert t == t[..2] + q;
      FetchesConcat(t[..2], q);
      assert t[..2][..1] == [t[0]] && [t[0]][..0] == [];
      assert Fetches(t[..2]) == [];
    }
  }

  /** The clock readings of a whole trace, restated on its polling part `q`. */
  lemma PollingClock(p: Platform, start: int, t: seq<Call>, q: seq<Call>)
    requires |t| >= 2 && q == t[2..]
    requires forall i :: 2 <= i < |t| && t[i].UptimeMillis? ==> t[i].reading == ClockAt(p, start, t[2..i])
    ensures forall i :: 0 <= i < |q| && q[i].UptimeMillis? ==> q[i].reading == ClockAt(p, start, q[..i])
  {
    forall i | 0 <= i < |q| && q[i].UptimeMillis?
      ensures q[i].reading == ClockAt(p, start, q[..i])
    {
      assert q[i] == t[i + 2] && q[..i] == t[2..i + 2];
    }
  }

  /** The polling part of `FirstRoundRetries`, with deadline 300 + 2000. */
  lemma FirstRoundRetriesPolling(p: Platform, q: seq<Call>, r: Result<AccessibilityNodeInfo, TimeoutException>,
                                 root: AccessibilityNodeInfo)
    requires PollingTrace(q, 2300, 2000, r)
    requires forall k :: 0 <= k < |Fetches(q)| ==> Fetches(q)[k] == p.rootAt(k)
    requires forall i :: 0 <= i < |q| && q[i].UptimeMillis? ==> q[i].reading == ClockAt(p, 300, q[..i])
    requires p.rootAt(0) == None && p.rootAt(1) == Some(root) && p.fetchMillis(0) == 1801
    ensures r == Success(root)
    ensures q == [GetRootInActiveWindow(None), UptimeMillis(2101), Sleep(199), GetRootInActiveWindow(Some(root))]
  {
    var n := PollingPositions(q, 2300, 2000, r);
    ReturnsFirstRoot(q, 2300, 2000, r);
    assert q[0].GetRootInActiveWindow? && Fetches(q)[0] == None;
    assert q[..1] == [q[0]] && [q[0]][..0] == [];
    assert ClockAt(p, 300, q[..1]) == 2101;
    if n == 0 {
      assert false;
    } else if n >= 6 {
      assert false;
    }
    assert n == 3 && RetryAt(q, 0, 2300) && RetryAt(q, 1, 2300) && RetryAt(q, 2, 2300);
    assert q[1].reading == 2101;
    assert Fetches(q)[1] == Some(root);
  }
}
