/**
  Whole runs of the limiter: the two counters against the full log of admitted
  requests, the bounds that follow, and the expiry of idle keys.
 */
module RateLimiterRuns {
  import opened Basics
  import opened SlidingWindow
  import opened RateLimiter

  predicate WellFormed(run: seq<Request>) {
    forall i :: 0 <= i < |run| ==> |run[i].keys| == |run[i].limits|
  }

  /** Stamps never go back to an earlier fixed window; inside one, the processes' clocks may disagree. */
  predicate WindowsAdvance(run: seq<Request>) {
    forall i, j :: 0 <= i <= j < |run| ==> run[i].now / WINDOW_MS <= run[j].now / WINDOW_MS
  }

  predicate NotAfter(run: seq<Request>, now: nat) {
    forall i :: 0 <= i < |run| ==> run[i].now / WINDOW_MS <= now / WINDOW_MS
  }

  lemma WindowsAdvanceFront(run: seq<Request>)
    requires WindowsAdvance(run) && run != []
    ensures WindowsAdvance(run[..|run| - 1]) && NotAfter(run, run[|run| - 1].now)
  {
  }

  /** The store an empty limiter reaches by serving `run`. */
  function After(run: seq<Request>): Store
    requires WellFormed(run)
  {
    if run == [] then map[] else Step(After(run[..|run| - 1]), run[|run| - 1])
  }

  predicate LastAdmitted(run: seq<Request>)
    requires WellFormed(run) && run != []
  {
    Answer(After(run[..|run| - 1]), run[|run| - 1]) == 0
  }

  /** Timestamps of the admitted requests that count against `key`: what the two counters stand for. */
  ghost function Log(run: seq<Request>, key: string): seq<nat>
    requires WellFormed(run)
  {
    if run == [] then []
    else
      var last := run[|run| - 1];
      Log(run[..|run| - 1], key) + if LastAdmitted(run) && key in last.keys then [last.now] else []
  }

  ghost function InWindow(log: seq<nat>, window: int): nat {
    if log == [] then 0
    else InWindow(log[..|log| - 1], window) + if log[|log| - 1] / WINDOW_MS == window then 1 else 0
  }

  ghost function InSpan(log: seq<nat>, from: nat, length: nat): nat {
    if log == [] then 0
    else InSpan(log[..|log| - 1], from, length) + if from <= log[|log| - 1] < from + length then 1 else 0
  }

  lemma InWindowAppend(log: seq<nat>, t: nat, window: int)
    ensures InWindow(log + [t], window) == InWindow(log, window) + if t / WINDOW_MS == window then 1 else 0
  {
    assert (log + [t])[..|log|] == log;
  }

  // The counters refine the log

  ghost predicate Tracks(stored: Option<Hash>, log: seq<nat>, now: nat) {
    match stored
    case None => log == []
    case Some(h) =>
      && h.w <= now / WINDOW_MS
      && h.c == InWindow(log, h.w)
      && h.p == InWindow(log, h.w - 1)
      && forall later :: later > h.w ==> InWindow(log, later) == 0
  }

  lemma TrackedCounts(stored: Option<Hash>, log: seq<nat>, now: nat)
    requires Tracks(stored, log, now)
    ensures RollOver(stored, now) ==
            Counts(InWindow(log, now / WINDOW_MS), InWindow(log, now / WINDOW_MS - 1))
  {
  }

  lemma TracksAppend(stored: Option<Hash>, log: seq<nat>, now: nat)
    requires Tracks(stored, log, now)
    ensures Tracks(Some(Counted(stored, now)), log + [now], now)
  {
    TrackedCounts(stored, log, now);
    forall window
      ensures InWindow(log + [now], window) ==
              InWindow(log, window) + if now / WINDOW_MS == window then 1 else 0
    {
      InWindowAppend(log, now, window);
    }
  }

  lemma TracksLater(stored: Option<Hash>, log: seq<nat>, now: nat, later: nat)
    requires Tracks(stored, log, now) && now / WINDOW_MS <= later / WINDOW_MS
    ensures Tracks(stored, log, later)
  {
  }

  /** The effect of one more request on a bucket and its log. */
  lemma LastRequest(run: seq<Request>, key: string)
    requires WellFormed(run) && run != []
    ensures var front, last := run[..|run| - 1], run[|run| - 1];
            if LastAdmitted(run) && key in last.keys then
              && Get(After(run), key) == Some(Counted(Get(After(front), key), last.now))
              && Log(run, key) == Log(front, key) + [last.now]
            else
              && Get(After(run), key) == Get(After(front), key)
              && Log(run, key) == Log(front, key)
  {
    hide Counted, Answer;
    AllBucketsOrNone(After(run[..|run| - 1]), run[|run| - 1], key);
  }

  lemma {:induction false} StoreTracksLog(run: seq<Request>, key: string, now: nat)
    requires WellFormed(run) && WindowsAdvance(run) && NotAfter(run, now)
    ensures Tracks(Get(After(run), key), Log(run, key), now)
  {
    if run != [] {
      hide Tracks, Counted, After, LastAdmitted, Log, Get;
      var front, last := run[..|run| - 1], run[|run| - 1];
      StoreTracksLog(front, key, last.now);
      LastRequest(run, key);
      if LastAdmitted(run) && key in last.keys {
        TracksAppend(Get(After(front), key), Log(front, key), last.now);
      }
      TracksLater(Get(After(run), key), Log(run, key), last.now, now);
    }
  }

  /**
    The O(1) hash refines the log: at any time from the last request's window
    on, the counts a request sees are the admissions of the current fixed window
    and of the one before it.
   */
  lemma CountersRefineLog(run: seq<Request>, key: string, now: nat)
    requires WellFormed(run) && WindowsAdvance(run) && NotAfter(run, now)
    ensures RollOver(Get(After(run), key), now) ==
            Counts(InWindow(Log(run, key), now / WINDOW_MS), InWindow(Log(run, key), now / WINDOW_MS - 1))
  {
    StoreTracksLog(run, key, now);
    TrackedCounts(Get(After(run), key), Log(run, key), now);
  }

  /** The source's own formula: the previous window weighed by the part of it still inside the sliding minute. */
  function Weighted(previous: nat, current: nat, elapsed: nat): real {
    var into := elapsed as real / WINDOW_MS as real;
    previous as real * (1.0 - into) + current as real
  }

  ghost function SlidingEstimate(log: seq<nat>, now: nat): real {
    Weighted(InWindow(log, now / WINDOW_MS - 1), InWindow(log, now / WINDOW_MS), now % WINDOW_MS)
  }

  lemma AdmitsIffEstimate(stored: Option<Hash>, log: seq<nat>, limit: nat, now: nat)
    requires RollOver(stored, now) == Counts(InWindow(log, now / WINDOW_MS), InWindow(log, now / WINDOW_MS - 1))
    ensures Admits(stored, limit, now) <==> SlidingEstimate(log, now) + 1.0 <= limit as real
  {
    hide Weighted, RollOver, InWindow;
    ScaledEstimate(InWindow(log, now / WINDOW_MS - 1), InWindow(log, now / WINDOW_MS), now % WINDOW_MS, limit);
  }

  lemma ScaledEstimate(p: nat, c: nat, m: nat, limit: nat)
    requires m < WINDOW_MS
    ensures p * (WINDOW_MS - m) + c * WINDOW_MS + WINDOW_MS <= limit * WINDOW_MS <==>
            Weighted(p, c, m) + 1.0 <= limit as real
  {
    var w := WINDOW_MS as real;
    var share := 1.0 - m as real / w;
    assert share * w == (WINDOW_MS - m) as real;
    assert p as real * share * w == p as real * (WINDOW_MS - m) as real == (p * (WINDOW_MS - m)) as real;
    assert (p as real * share + c as real + 1.0) * w == (p * (WINDOW_MS - m) + c * WINDOW_MS + WINDOW_MS) as real;
    assert limit as real * w == (limit * WINDOW_MS) as real;
  }

  /**
    After any run, a request is admitted exactly when in each of its buckets the
    sliding estimate over the log of admissions, with this request, is within the
    limit.
   */
  lemma AdmittedByLogIff(run: seq<Request>, r: Request)
    requires WellFormed(run) && WindowsAdvance(run) && NotAfter(run, r.now) && |r.keys| == |r.limits|
    ensures Answer(After(run), r) == 0 <==>
            forall i :: 0 <= i < |r.keys| ==> SlidingEstimate(Log(run, r.keys[i]), r.now) + 1.0 <= r.limits[i] as real
  {
    AllBucketsOrNone(After(run), r, "");
    hide SlidingEstimate, Admits, RollOver, After, Log, Answer, Get;
    forall i | 0 <= i < |r.keys|
      ensures Refuses(After(run), r, i) <==> !(SlidingEstimate(Log(run, r.keys[i]), r.now) + 1.0 <= r.limits[i] as real)
    {
      CountersRefineLog(run, r.keys[i], r.now);
      AdmitsIffEstimate(Get(After(run), r.keys[i]), Log(run, r.keys[i]), r.limits[i], r.now);
    }
  }

  // Bounds on admissions

  /** Every request of the run judges `key` by the same limit. */
  predicate LimitedTo(run: seq<Request>, key: string, limit: nat) {
    forall i, j :: 0 <= i < |run| && 0 <= j < |run[i].keys| && j < |run[i].limits| && run[i].keys[j] == key ==>
      run[i].limits[j] == limit
  }

  lemma AdmissionWithinLimit(store: Store, r: Request, key: string, limit: nat)
    requires |r.keys| == |r.limits| && key in r.keys && Answer(store, r) == 0
    requires forall j :: 0 <= j < |r.keys| && r.keys[j] == key ==> r.limits[j] == limit
    ensures Admits(Get(store, key), limit, r.now)
  {
    var j :| 0 <= j < |r.keys| && r.keys[j] == key;
    assert !Refuses(store, r, j);
  }

  /** What an admission leaves room for: of the previous window, at least a millisecond's share, or two before the last. */
  lemma AdmissionArithmetic(stored: Option<Hash>, limit: nat, now: nat)
    requires Admits(stored, limit, now)
    ensures var counts := RollOver(stored, now);
            && counts.current + 1 <= limit
            && counts.previous + (counts.current + 1) * WINDOW_MS <= limit * WINDOW_MS
            && (now % WINDOW_MS <= WINDOW_MS - 2 ==>
                  2 * counts.previous + (counts.current + 1) * WINDOW_MS <= limit * WINDOW_MS)
  {
    var counts := RollOver(stored, now);
    ProductMonotone(counts.previous, 1, WINDOW_MS - now % WINDOW_MS);
    if now % WINDOW_MS <= WINDOW_MS - 2 {
      ProductMonotone(counts.previous, 2, WINDOW_MS - now % WINDOW_MS);
    }
  }

  /** The most two consecutive windows admit when each previous request still weighs `share` milliseconds at the last. */
  function Budget(limit: nat, share: nat): int {
    2 * limit - CeilDiv(share * limit, WINDOW_MS)
  }

  lemma WithinBudget(limit: nat, share: nat, previous: nat, current: nat)
    requires 1 <= share <= 2 && 1 <= limit && previous <= limit
    requires share * previous + current * WINDOW_MS <= limit * WINDOW_MS
    ensures previous + current <= Budget(limit, share)
  {
    var q := CeilDiv(share * limit, WINDOW_MS);
    assert (q - 1) * WINDOW_MS < share * limit;
    if share == 1 {
      assert (previous + current) * WINDOW_MS <= 2 * limit * WINDOW_MS - limit;
    } else {
      assert (previous + current) * WINDOW_MS <= 2 * limit * WINDOW_MS - 2 * limit;
    }
  }

  ghost predicate Bounded(log: seq<nat>, limit: nat) {
    forall window ::
      InWindow(log, window) <= limit && InWindow(log, window) + InWindow(log, window - 1) <= Budget(limit, 1)
  }

  /**
    In every run, a bucket of limit L admits at most L requests in a fixed
    window and at most 2L - L/60000, rounded down, in two consecutive ones.
   */
  lemma {:induction false} WindowsAreBounded(run: seq<Request>, key: string, limit: nat)
    requires WellFormed(run) && WindowsAdvance(run) && LimitedTo(run, key, limit) && limit >= 1
    ensures Bounded(Log(run, key), limit)
  {
    if run == [] {
      WithinBudget(limit, 1, 0, 0);
    } else {
      hide Bounded, Tracks, Admits, Counted, After, Log, Get, Answer;
      var front, last := run[..|run| - 1], run[|run| - 1];
      assert forall i :: 0 <= i < |front| ==> front[i] == run[i];
      WindowsAreBounded(front, key, limit);
      LastRequest(run, key);
      if LastAdmitted(run) && key in last.keys {
        AdmissionWithinLimit(After(front), last, key, limit);
        StoreTracksLog(front, key, last.now);
        BoundedAppend(Get(After(front), key), Log(front, key), last.now, limit);
      }
    }
  }

  lemma BoundedAppend(stored: Option<Hash>, log: seq<nat>, now: nat, limit: nat)
    requires Bounded(log, limit) && Tracks(stored, log, now) && Admits(stored, limit, now)
    ensures Bounded(log + [now], limit)
  {
    hide Budget;
    AdmissionArithmetic(stored, limit, now);
    TrackedCounts(stored, log, now);
    var current := now / WINDOW_MS;
    var c, p := InWindow(log, current), InWindow(log, current - 1);
    WithinBudget(limit, 1, p, c + 1);
    WithinBudget(limit, 1, 0, c + 1);
    forall window
      ensures InWindow(log + [now], window) <= limit
      ensures InWindow(log + [now], window) + InWindow(log + [now], window - 1) <= Budget(limit, 1)
    {
      InWindowAppend(log, now, window);
      InWindowAppend(log, now, window - 1);
      assert InWindow(log, window) <= limit;
      assert InWindow(log, current + 1) == 0;
    }
  }

  /** A span of one window's length meets at most two fixed windows. */
  lemma SpanWithinTwoWindows(log: seq<nat>, from: nat)
    ensures InSpan(log, from, WINDOW_MS) <=
            InWindow(log, from / WINDOW_MS) + InWindow(log, from / WINDOW_MS + 1)
  {
  }

  lemma MinuteAppend(stored: Option<Hash>, log: seq<nat>, now: nat, limit: nat, from: nat)
    requires Bounded(log, limit) && Tracks(stored, log, now) && Admits(stored, limit, now)
    requires InSpan(log, from, WINDOW_MS) <= Budget(limit, 2)
    ensures InSpan(log + [now], from, WINDOW_MS) <= Budget(limit, 2)
  {
    hide Budget;
    InSpanAppend(log, now, from, WINDOW_MS);
    SpanWithinTwoWindows(log, from);
    AdmissionArithmetic(stored, limit, now);
    TrackedCounts(stored, log, now);
    var first, current := from / WINDOW_MS, now / WINDOW_MS;
    var c, p := InWindow(log, current), InWindow(log, current - 1);
    if from <= now < from + WINDOW_MS {
      if current == first {
        assert InWindow(log, first + 1) == 0;
        WithinBudget(limit, 2, 0, c + 1);
      } else {
        assert current == first + 1 && now % WINDOW_MS <= WINDOW_MS - 2;
        assert p <= limit;
        WithinBudget(limit, 2, p, c + 1);
      }
    }
  }

  /** In every run, any span of one minute holds at most 2L - 2L/60000 admissions, rounded down, wherever it starts. */
  lemma {:induction false} AnyMinuteIsBounded(run: seq<Request>, key: string, limit: nat, from: nat)
    requires WellFormed(run) && WindowsAdvance(run) && LimitedTo(run, key, limit) && limit >= 1
    ensures InSpan(Log(run, key), from, WINDOW_MS) <= Budget(limit, 2)
  {
    if run == [] {
      WithinBudget(limit, 2, 0, 0);
    } else {
      hide Bounded, Tracks, Admits, Counted, After, Log, Get, Answer, InSpan, Budget;
      var front, last := run[..|run| - 1], run[|run| - 1];
      assert forall i :: 0 <= i < |front| ==> front[i] == run[i];
      AnyMinuteIsBounded(front, key, limit, from);
      LastRequest(run, key);
      if LastAdmitted(run) && key in last.keys {
        AdmissionWithinLimit(After(front), last, key, limit);
        StoreTracksLog(front, key, last.now);
        WindowsAreBounded(front, key, limit);
        MinuteAppend(Get(After(front), key), Log(front, key), last.now, limit, from);
      }
    }
  }

  // The bound is reached

  /** Even under one clock that never steps back. */
  predicate ClockAdvances(run: seq<Request>) {
    forall i, j :: 0 <= i <= j < |run| ==> run[i].now <= run[j].now
  }

  predicate OneBucketRun(run: seq<Request>, key: string, limit: nat, now: nat) {
    && WellFormed(run) && ClockAdvances(run) && LimitedTo(run, key, limit)
    && forall i :: 0 <= i < |run| ==> run[i].now <= now
  }

  lemma InSpanAppend(log: seq<nat>, t: nat, from: nat, length: nat)
    ensures InSpan(log + [t], from, length) ==
            InSpan(log, from, length) + if from <= t < from + length then 1 else 0
  {
    assert (log + [t])[..|log|] == log;
  }

  lemma OneBucketRunAppend(front: seq<Request>, key: string, limit: nat, now: nat)
    requires OneBucketRun(front, key, limit, now)
    ensures OneBucketRun(front + [Request(now, [key], [limit])], key, limit, now)
  {
  }

  lemma AdmittedAlone(store: Store, key: string, limit: nat, now: nat)
    requires Admits(Get(store, key), limit, now)
    ensures Answer(store, Request(now, [key], [limit])) == 0
  {
    var r := Request(now, [key], [limit]);
    AllBucketsOrNone(store, r, key);
    assert !Refuses(store, r, 0);
  }

  /** One more request for the bucket alone, with room in it. */
  lemma OneAdmitted(front: seq<Request>, key: string, limit: nat, now: nat)
    requires WellFormed(front) && Admits(Get(After(front), key), limit, now)
    ensures var run := front + [Request(now, [key], [limit])];
            && WellFormed(run)
            && Get(After(run), key) == Some(Counted(Get(After(front), key), now))
            && Log(run, key) == Log(front, key) + [now]
  {
    var run := front + [Request(now, [key], [limit])];
    AdmittedAlone(After(front), key, limit, now);
    assert run[..|run| - 1] == front;
    hide Counted, After, Log, Get, Admits, Answer;
    LastRequest(run, key);
  }

  /** The same inside the minute that starts with the first window's last millisecond. */
  lemma OneMore(front: seq<Request>, key: string, limit: nat, now: nat) returns (run: seq<Request>)
    requires OneBucketRun(front, key, limit, now) && Admits(Get(After(front), key), limit, now)
    requires WINDOW_MS - 1 <= now < 2 * WINDOW_MS - 1
    ensures OneBucketRun(run, key, limit, now)
    ensures Get(After(run), key) == Some(Counted(Get(After(front), key), now))
    ensures InSpan(Log(run, key), WINDOW_MS - 1, WINDOW_MS) ==
            InSpan(Log(front, key), WINDOW_MS - 1, WINDOW_MS) + 1
  {
    hide Counted, After, Log, Get, Admits, InSpan, WindowsAdvance, LimitedTo;
    run := front + [Request(now, [key], [limit])];
    OneBucketRunAppend(front, key, limit, now);
    OneAdmitted(front, key, limit, now);
    InSpanAppend(Log(front, key), now, WINDOW_MS - 1, WINDOW_MS);
  }

  lemma FirstBurstAdmits(limit: nat, n: nat)
    requires n < limit
    ensures var stored := if n == 0 then None else Some(Hash(0, n, 0));
            && Admits(stored, limit, WINDOW_MS - 1)
            && Counted(stored, WINDOW_MS - 1) == Hash(0, n + 1, 0)
  {
  }

  /** A burst of `n` at the last millisecond of the first window. */
  lemma {:induction false} FirstBurst(key: string, limit: nat, n: nat) returns (run: seq<Request>)
    requires n <= limit
    ensures OneBucketRun(run, key, limit, WINDOW_MS - 1)
    ensures Get(After(run), key) == if n == 0 then None else Some(Hash(0, n, 0))
    ensures InSpan(Log(run, key), WINDOW_MS - 1, WINDOW_MS) == n
  {
    hide RollOver, Admits;
    if n == 0 {
      run := [];
    } else {
      run := FirstBurst(key, limit, n - 1);
      FirstBurstAdmits(limit, n - 1);
      run := OneMore(run, key, limit, WINDOW_MS - 1);
    }
  }

  lemma SecondBurstAdmits(limit: nat, n: nat)
    requires 1 <= limit && n < limit - CeilDiv(2 * limit, WINDOW_MS)
    ensures var stored := Some(if n == 0 then Hash(0, limit, 0) else Hash(1, n, limit));
            && Admits(stored, limit, 2 * WINDOW_MS - 2)
            && Counted(stored, 2 * WINDOW_MS - 2) == Hash(1, n + 1, limit)
  {
    var q := CeilDiv(2 * limit, WINDOW_MS);
    assert 2 * limit <= q * WINDOW_MS && (n + 1) * WINDOW_MS <= (limit - q) * WINDOW_MS;
  }

  /** A full first burst, then `n` requests within the same minute but late in the next window. */
  lemma {:induction false} SecondBurst(key: string, limit: nat, n: nat) returns (run: seq<Request>)
    requires 1 <= limit && n <= limit - CeilDiv(2 * limit, WINDOW_MS)
    ensures OneBucketRun(run, key, limit, 2 * WINDOW_MS - 2)
    ensures Get(After(run), key) == Some(if n == 0 then Hash(0, limit, 0) else Hash(1, n, limit))
    ensures InSpan(Log(run, key), WINDOW_MS - 1, WINDOW_MS) == limit + n
  {
    hide RollOver, Admits, CeilDiv, OneBucketRun;
    if n == 0 {
      run := FirstBurst(key, limit, limit);
      LaterRun(run, key, limit);
    } else {
      run := SecondBurst(key, limit, n - 1);
      SecondBurstAdmits(limit, n - 1);
      run := OneMore(run, key, limit, 2 * WINDOW_MS - 2);
    }
  }

  lemma LaterRun(run: seq<Request>, key: string, limit: nat)
    requires OneBucketRun(run, key, limit, WINDOW_MS - 1)
    ensures OneBucketRun(run, key, limit, 2 * WINDOW_MS - 2)
  {
  }

  /** No smaller bound holds: for every limit, some minute of some run holds that many. */
  lemma BoundIsReached(key: string, limit: nat) returns (run: seq<Request>)
    requires 1 <= limit
    ensures WellFormed(run) && ClockAdvances(run) && LimitedTo(run, key, limit)
    ensures InSpan(Log(run, key), WINDOW_MS - 1, WINDOW_MS) == Budget(limit, 2)
  {
    hide InSpan, Log;
    assert CeilDiv(2 * limit, WINDOW_MS) <= limit;
    run := SecondBurst(key, limit, limit - CeilDiv(2 * limit, WINDOW_MS));
  }

  // Windows must advance

  lemma StepBackAdmits()
    ensures var late, early := 2 * WINDOW_MS - 1, 0;
            && Admits(None, 3, late) && Counted(None, late) == Hash(1, 1, 0)
            && Admits(Some(Hash(1, 1, 0)), 3, late) && Counted(Some(Hash(1, 1, 0)), late) == Hash(1, 2, 0)
            && Admits(Some(Hash(1, 2, 0)), 3, early) && Counted(Some(Hash(1, 2, 0)), early) == Hash(0, 3, 0)
            && Admits(Some(Hash(0, 3, 0)), 3, late) && Counted(Some(Hash(0, 3, 0)), late) == Hash(1, 1, 3)
            && Admits(Some(Hash(1, 1, 3)), 3, late)
  {
  }

  /**
    A single request stamped by a process whose clock is a window behind makes
    the counters forget: the bound per fixed window then fails.
   */
  lemma StepBackBreaksTheBound(key: string) returns (run: seq<Request>)
    ensures WellFormed(run) && LimitedTo(run, key, 3) && !WindowsAdvance(run)
    ensures InWindow(Log(run, key), 1) > 3
  {
    StepBackAdmits();
    hide Counted, Log, Get, Admits, InWindow;
    var late, early := 2 * WINDOW_MS - 1, 0;
    assert Get(After([]), key) == None && InWindow(Log([], key), 1) == 0 by { NothingYet(key); }
    hide After;
    run := OneInWindow([], key, late);
    run := OneInWindow(run, key, late);
    run := OneInWindow(run, key, early);
    run := OneInWindow(run, key, late);
    run := OneInWindow(run, key, late);
    assert run[2].now < run[1].now;
  }

  lemma NothingYet(key: string)
    ensures Get(After([]), key) == None && InWindow(Log([], key), 1) == 0
  {
  }

  lemma OneInWindow(front: seq<Request>, key: string, now: nat) returns (run: seq<Request>)
    requires WellFormed(front) && LimitedTo(front, key, 3) && Admits(Get(After(front), key), 3, now)
    ensures run == front + [Request(now, [key], [3])] && WellFormed(run) && LimitedTo(run, key, 3)
    ensures Get(After(run), key) == Some(Counted(Get(After(front), key), now))
    ensures InWindow(Log(run, key), 1) == InWindow(Log(front, key), 1) + if now / WINDOW_MS == 1 then 1 else 0
  {
    hide Counted, After, Log, Get, Admits, InWindow;
    run := front + [Request(now, [key], [3])];
    OneAdmitted(front, key, 3, now);
    InWindowAppend(Log(front, key), now, 1);
  }

  // The two layers

  function GeneralKey(client: string): string { "rl:" + client }

  function StrictKey(client: string): string { "rl_auth:" + client }

  /** A request through one of the two layers of the router. */
  ghost predicate ThroughLayer(r: Request) {
    exists client :: r.keys == [GeneralKey(client)] || r.keys == [GeneralKey(client), StrictKey(client)]
  }

  lemma StrictImpliesGeneral(r: Request, client: string)
    requires ThroughLayer(r) && StrictKey(client) in r.keys
    ensures GeneralKey(client) in r.keys
  {
    var other :| r.keys == [GeneralKey(other)] || r.keys == [GeneralKey(other), StrictKey(other)];
    assert StrictKey(client)[2] != GeneralKey(other)[2];
    assert StrictKey(client) == StrictKey(other);
    assert client == StrictKey(client)[8..] == StrictKey(other)[8..] == other;
  }

  lemma {:induction false} StrictLogWithinGeneral(run: seq<Request>, client: string, window: int)
    requires WellFormed(run) && forall i :: 0 <= i < |run| ==> ThroughLayer(run[i])
    ensures InWindow(Log(run, StrictKey(client)), window) <= InWindow(Log(run, GeneralKey(client)), window)
  {
    if run != [] {
      var front, last := run[..|run| - 1], run[|run| - 1];
      StrictLogWithinGeneral(front, client, window);
      hide InWindow, Counted, After, Log, LastAdmitted, ThroughLayer;
      LastRequest(run, StrictKey(client));
      LastRequest(run, GeneralKey(client));
      InWindowAppend(Log(front, StrictKey(client)), last.now, window);
      InWindowAppend(Log(front, GeneralKey(client)), last.now, window);
      if StrictKey(client) in last.keys {
        StrictImpliesGeneral(last, client);
      }
    }
  }

  /** In every reachable state the strict bucket has counted no more than the general one, window by window. */
  lemma StrictNeverExceedsGeneral(run: seq<Request>, client: string, now: nat)
    requires WellFormed(run) && WindowsAdvance(run) && NotAfter(run, now)
    requires forall i :: 0 <= i < |run| ==> ThroughLayer(run[i])
    ensures var strict := RollOver(Get(After(run), StrictKey(client)), now);
            var general := RollOver(Get(After(run), GeneralKey(client)), now);
            strict.current <= general.current && strict.previous <= general.previous
  {
    CountersRefineLog(run, StrictKey(client), now);
    CountersRefineLog(run, GeneralKey(client), now);
    StrictLogWithinGeneral(run, client, now / WINDOW_MS);
    StrictLogWithinGeneral(run, client, now / WINDOW_MS - 1);
  }

  // Expiry

  /** Keys Redis drops before serving a request: any keys past their deadline, at its leisure. */
  predicate MayDrop(store: ExpiringStore, gone: set<string>, now: nat) {
    forall key :: key in gone ==> key in store && store[key].expiresAt <= now
  }

  function ExpiringAfter(run: seq<Request>, drops: seq<set<string>>): ExpiringStore
    requires WellFormed(run) && |drops| == |run|
    decreases |run|, 0
  {
    if run == [] then map[]
    else ExpiringStep(BeforeLast(run, drops), run[|run| - 1])
  }

  /** What is left when the last request is served: the earlier state without the keys dropped by then. */
  function BeforeLast(run: seq<Request>, drops: seq<set<string>>): ExpiringStore
    requires WellFormed(run) && |drops| == |run| && run != []
    decreases |run| - 1, 1
  {
    ExpiringAfter(run[..|run| - 1], drops[..|run| - 1]) - drops[|run| - 1]
  }

  predicate DropsAllowed(run: seq<Request>, drops: seq<set<string>>)
    requires WellFormed(run) && |drops| == |run|
  {
    run != [] ==>
      var front, dropped := run[..|run| - 1], drops[..|run| - 1];
      && DropsAllowed(front, dropped)
      && MayDrop(ExpiringAfter(front, dropped), drops[|run| - 1], run[|run| - 1].now)
  }

  /** The expiring store agrees with one that keeps every key, except for keys too old to matter. */
  predicate Agree(expiring: ExpiringStore, kept: Store, now: nat) {
    && (forall key :: key in expiring ==>
          && key in kept && kept[key] == expiring[key].hash
          && expiring[key].expiresAt >= 2 * WINDOW_MS
          && kept[key].w == (expiring[key].expiresAt - 2 * WINDOW_MS) / WINDOW_MS)
    && (forall key :: key in kept && key !in expiring ==> kept[key].w + 2 <= now / WINDOW_MS)
  }

  lemma AgreeLater(expiring: ExpiringStore, kept: Store, now: nat, later: nat)
    requires Agree(expiring, kept, now) && now / WINDOW_MS <= later / WINDOW_MS
    ensures Agree(expiring, kept, later)
  {
  }

  lemma DropKeepsAgreement(expiring: ExpiringStore, kept: Store, gone: set<string>, now: nat)
    requires Agree(expiring, kept, now) && MayDrop(expiring, gone, now)
    ensures Agree(expiring - gone, kept, now)
    ensures forall key :: RollOver(Get(Visible(expiring - gone), key), now) == RollOver(Get(kept, key), now)
  {
  }

  lemma SameAnswer(a: Store, b: Store, r: Request)
    requires |r.keys| == |r.limits|
    requires forall key :: RollOver(Get(a, key), r.now) == RollOver(Get(b, key), r.now)
    ensures Answer(a, r) == Answer(b, r)
  {
    hide RollOver;
    forall j | 0 <= j < |r.keys|
      ensures Refuses(a, r, j) == Refuses(b, r, j)
    {
    }
    var k, l := FirstRefusal(a, r, 0), FirstRefusal(b, r, 0);
    assert !(k < l) && !(l < k);
  }

  lemma StepKeepsAgreement(expiring: ExpiringStore, kept: Store, r: Request)
    requires |r.keys| == |r.limits| && Agree(expiring, kept, r.now)
    requires forall key :: RollOver(Get(Visible(expiring), key), r.now) == RollOver(Get(kept, key), r.now)
    ensures Agree(ExpiringStep(expiring, r), Step(kept, r), r.now)
  {
    hide Agree, RollOver, Answer, Committed;
    SameAnswer(Visible(expiring), kept, r);
    if Answer(kept, r) == 0 {
      var next, after := ExpiringStep(expiring, r), Step(kept, r);
      forall key
        ensures Get(after, key) ==
                if key in r.keys then Some(Counted(Get(Visible(expiring), key), r.now)) else Get(kept, key)
        ensures key in next <==> key in r.keys || key in expiring
      {
        AllBucketsOrNone(kept, r, key);
      }
      CountedKeepsAgreement(expiring, kept, next, after, r);
    }
  }

  lemma CountedKeepsAgreement(expiring: ExpiringStore, kept: Store, next: ExpiringStore, after: Store, r: Request)
    requires Agree(expiring, kept, r.now)
    requires forall key :: key in next <==> key in r.keys || key in expiring
    requires forall key :: key in next ==>
      (next[key] == if key in r.keys then Written(Visible(expiring), key, r.now) else expiring[key])
    requires forall key ::
      (Get(after, key) == if key in r.keys then Some(Counted(Get(Visible(expiring), key), r.now)) else Get(kept, key))
    ensures Agree(next, after, r.now)
  {
    forall key
      ensures key in after <==> Get(after, key).Some?
      ensures key in kept <==> Get(kept, key).Some?
    {
    }
  }

  lemma {:induction false} StoresAgree(run: seq<Request>, drops: seq<set<string>>, now: nat)
    requires WellFormed(run) && WindowsAdvance(run) && |drops| == |run| && DropsAllowed(run, drops)
    requires NotAfter(run, now)
    ensures Agree(ExpiringAfter(run, drops), After(run), now)
    ensures run != [] ==> Answer(Visible(BeforeLast(run, drops)), run[|run| - 1]) ==
                          Answer(After(run[..|run| - 1]), run[|run| - 1])
  {
    if run != [] {
      hide Agree, RollOver, Answer, Step, ExpiringStep, Visible, MayDrop, WindowsAdvance;
      var front, last := run[..|run| - 1], run[|run| - 1];
      var dropped := drops[..|run| - 1];
      WindowsAdvanceFront(run);
      StoresAgree(front, dropped, last.now);
      DropKeepsAgreement(ExpiringAfter(front, dropped), After(front), drops[|run| - 1], last.now);
      SameAnswer(Visible(BeforeLast(run, drops)), After(front), last);
      StepKeepsAgreement(BeforeLast(run, drops), After(front), last);
      AgreeLater(ExpiringAfter(run, drops), After(run), last.now, now);
    }
  }

  /** Expiry is invisible: whatever Redis drops past its deadline, every answer of the run is the same. */
  lemma ExpiryIsInvisible(run: seq<Request>, drops: seq<set<string>>, i: nat)
    requires WellFormed(run) && WindowsAdvance(run) && |drops| == |run| && DropsAllowed(run, drops)
    requires i < |run|
    ensures Answer(Visible(BeforeLast(run[..i + 1], drops[..i + 1])), run[i]) == Answer(After(run[..i]), run[i])
    decreases |run|
  {
    hide Answer, Visible, After, ExpiringAfter, BeforeLast, WindowsAdvance, Agree, MayDrop;
    if i == |run| - 1 {
      assert run[..i + 1] == run && drops[..i + 1] == drops;
      WindowsAdvanceFront(run);
      StoresAgree(run, drops, run[i].now);
    } else {
      var front, dropped := run[..|run| - 1], drops[..|run| - 1];
      WindowsAdvanceFront(run);
      ExpiryIsInvisible(front, dropped, i);
      assert front[..i + 1] == run[..i + 1] && dropped[..i + 1] == drops[..i + 1] && front[..i] == run[..i];
    }
  }
}
