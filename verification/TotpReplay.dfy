/**
  The replay guard of time-based codes: a consumed code is remembered for a
  while, and refused until its row is gone.

  The clock is in nanoseconds since the Unix epoch. A code is verified at one
  reading and consumed at a later one. The generator of codes (section 5.2 of
  RFC 6238) is a parameter: two steps may share a code.
 */
module TotpReplay {
  import opened Time

  const STEP: nat := 30 * NANOS
  const MAX_TOTP_SKEW: nat := 1
  /** How long a consumed code stays refused: every step it is accepted in, plus one of margin. */
  const REPLAY_WINDOW: nat := (2 * MAX_TOTP_SKEW + 2) * STEP

  /** The code of user and time step. */
  type Codes = (nat, nat) -> string

  predicate InReach(skew: nat, now: nat, step: nat) {
    now / STEP - skew <= step <= now / STEP + skew
  }

  /** A code is valid when a step in reach shows it; times within the skew of the epoch are errors. */
  ghost predicate Valid(codes: Codes, skew: nat, user: nat, code: string, now: nat) {
    now >= skew * STEP && exists step :: InReach(skew, now, step) && codes(user, step) == code
  }

  /** The `used_totp_codes` table: when each user's code was consumed. */
  type Table = map<(nat, string), nat>

  datatype Event =
    | Attempt(user: nat, code: string, verifiedAt: nat, consumedAt: nat, cached: bool)
    | Sweep(cutoff: nat)

  /** Rows of the user consumed more than the window ago go first. */
  function Purged(table: Table, user: nat, now: nat, window: nat): Table {
    map row | row in table && !(row.0 == user && table[row] + window < now) :: table[row]
  }

  /** Purge, then insert unless the row exists. */
  function TryConsume(table: Table, user: nat, code: string, now: nat, window: nat): (bool, Table) {
    var purged := Purged(table, user, now, window);
    if (user, code) in purged then (false, purged) else (true, purged[(user, code) := now])
  }

  /** Whether an attempt completes: valid, not in the Redis fast path, and consumed. */
  ghost predicate Accepted(codes: Codes, skew: nat, table: Table, e: Event, window: nat) {
    && e.Attempt?
    && Valid(codes, skew, e.user, e.code, e.verifiedAt)
    && !e.cached
    && TryConsume(table, e.user, e.code, e.consumedAt, window).0
  }

  ghost function Step(codes: Codes, skew: nat, table: Table, e: Event, window: nat): Table {
    match e
    case Attempt(user, code, verifiedAt, consumedAt, cached) =>
      if Valid(codes, skew, user, code, verifiedAt) && !cached then TryConsume(table, user, code, consumedAt, window).1
      else table
    case Sweep(cutoff) => map row | row in table && table[row] >= cutoff :: table[row]
  }

  ghost function After(codes: Codes, skew: nat, run: seq<Event>, window: nat): Table {
    if run == [] then map[] else Step(codes, skew, After(codes, skew, run[..|run| - 1], window), run[|run| - 1], window)
  }

  ghost predicate AcceptedAt(codes: Codes, skew: nat, run: seq<Event>, window: nat, i: nat)
    requires i < |run|
  {
    Accepted(codes, skew, After(codes, skew, run[..i], window), run[i], window)
  }

  /** A code is consumed within `delay` of its verification. */
  predicate Prompt(e: Event, delay: nat) {
    e.Attempt? ==> e.verifiedAt <= e.consumedAt <= e.verifiedAt + delay
  }

  /** Rows swept are older than the window by the clock of a later attempt. */
  predicate Timely(earlier: Event, later: Event, window: nat) {
    match later
    case Attempt(_, _, _, now, _) =>
      (match earlier
       case Attempt(_, _, _, before, _) => before <= now
       case Sweep(cutoff) => cutoff + window <= now)
    case Sweep(_) => true
  }

  predicate Legal(run: seq<Event>, delay: nat, window: nat) {
    && (forall i :: 0 <= i < |run| ==> Prompt(run[i], delay))
    && (forall i, j :: 0 <= i < j < |run| ==> Timely(run[i], run[j], window))
  }

  /** Two completed attempts with one code of a time step. */
  ghost predicate Replayed(codes: Codes, skew: nat, run: seq<Event>, window: nat, i: nat, j: nat, step: nat) {
    && i < j < |run|
    && AcceptedAt(codes, skew, run, window, i) && AcceptedAt(codes, skew, run, window, j)
    && run[i].user == run[j].user && run[i].code == run[j].code == codes(run[i].user, step)
    && InReach(skew, run[i].verifiedAt, step) && InReach(skew, run[j].verifiedAt, step)
  }

  ghost predicate NeverReplayed(codes: Codes, skew: nat, delay: nat, window: nat) {
    forall run: seq<Event>, i: nat, j: nat, step: nat :: Legal(run, delay, window) ==> !Replayed(codes, skew, run, window, i, j, step)
  }

  /** An accepted code is still on record, or too old to matter to any later attempt. */
  ghost predicate OnRecord(table: Table, user: nat, code: string, consumedAt: nat, now: nat, window: nat) {
    ((user, code) in table && table[(user, code)] >= consumedAt) || consumedAt + window < now
  }

  lemma {:induction false} AcceptedStaysOnRecord(codes: Codes, skew: nat, run: seq<Event>, window: nat, delay: nat, i: nat, now: nat)
    requires Legal(run, delay, window) && i < |run| && AcceptedAt(codes, skew, run, window, i)
    requires forall k :: 0 <= k < |run| ==> (if run[k].Attempt? then run[k].consumedAt else run[k].cutoff + window) <= now
    ensures OnRecord(After(codes, skew, run, window), run[i].user, run[i].code, run[i].consumedAt, now, window)
  {
    var front, last := run[..|run| - 1], run[|run| - 1];
    if i < |run| - 1 {
      assert front[..i] == run[..i];
      AcceptedStaysOnRecord(codes, skew, front, window, delay, i, now);
    }
  }

  /** A second acceptance of a code comes more than the window after the first. */
  lemma SecondAcceptanceIsLate(codes: Codes, skew: nat, run: seq<Event>, window: nat, delay: nat, i: nat, j: nat)
    requires Legal(run, delay, window) && i < j < |run|
    requires AcceptedAt(codes, skew, run, window, i) && AcceptedAt(codes, skew, run, window, j)
    requires run[i].user == run[j].user && run[i].code == run[j].code
    ensures run[i].consumedAt + window < run[j].consumedAt
  {
    var before := run[..j];
    assert before[..i] == run[..i];
    forall k | 0 <= k < |before|
      ensures (if before[k].Attempt? then before[k].consumedAt else before[k].cutoff + window) <= run[j].consumedAt
    {
      assert Timely(run[k], run[j], window);
    }
    AcceptedStaysOnRecord(codes, skew, before, window, delay, i, run[j].consumedAt);
  }

  /** Every row on record is an accepted attempt of the run. */
  lemma {:induction false} RecordIsAnAcceptance(codes: Codes, skew: nat, run: seq<Event>, window: nat, user: nat, code: string)
    returns (i: nat)
    requires (user, code) in After(codes, skew, run, window)
    ensures i < |run| && AcceptedAt(codes, skew, run, window, i)
    ensures run[i].user == user && run[i].code == code && run[i].consumedAt == After(codes, skew, run, window)[(user, code)]
    decreases |run|
  {
    var front, last := run[..|run| - 1], run[|run| - 1];
    var before := After(codes, skew, front, window);
    if (user, code) in before && before[(user, code)] == After(codes, skew, run, window)[(user, code)] {
      i := RecordIsAnAcceptance(codes, skew, front, window, user, code);
      assert front[..i] == run[..i];
    } else {
      i := |run| - 1;
    }
  }

  /** Accepted earlier in the run, and still within the window of it. */
  ghost predicate SpentBefore(codes: Codes, skew: nat, run: seq<Event>, window: nat, i: nat, j: nat)
    requires i < j < |run| && run[j].Attempt?
  {
    && AcceptedAt(codes, skew, run, window, i)
    && run[i].user == run[j].user && run[i].code == run[j].code && run[j].consumedAt <= run[i].consumedAt + window
  }

  /**
    In every run an attempt completes exactly when its code is valid, not in the
    Redis fast path, and not one the same user spent within the window: other
    users' codes, other codes, and sweeps never stand in the way.
   */
  lemma AcceptedIff(codes: Codes, skew: nat, run: seq<Event>, window: nat, delay: nat, j: nat)
    requires Legal(run, delay, window) && j < |run| && run[j].Attempt?
    ensures AcceptedAt(codes, skew, run, window, j) <==>
            && Valid(codes, skew, run[j].user, run[j].code, run[j].verifiedAt) && !run[j].cached
            && forall i :: 0 <= i < j ==> !SpentBefore(codes, skew, run, window, i, j)
  {
    hide Valid;
    var e, before := run[j], run[..j];
    if AcceptedAt(codes, skew, run, window, j) {
      forall i | 0 <= i < j
        ensures !SpentBefore(codes, skew, run, window, i, j)
      {
        if SpentBefore(codes, skew, run, window, i, j) {
          SecondAcceptanceIsLate(codes, skew, run, window, delay, i, j);
        }
      }
    } else if Valid(codes, skew, e.user, e.code, e.verifiedAt) && !e.cached {
      var i := RecordIsAnAcceptance(codes, skew, before, window, e.user, e.code);
      assert before[..i] == run[..i];
      assert SpentBefore(codes, skew, run, window, i, j);
    }
  }

  lemma ReachSpansSteps(skew: nat, early: nat, late: nat, step: nat)
    requires InReach(skew, early, step) && InReach(skew, late, step)
    ensures late < early + (2 * skew + 1) * STEP
  {
    assert late < (late / STEP + 1) * STEP && early >= early / STEP * STEP;
    assert late / STEP + 1 <= early / STEP + 2 * skew + 1;
    assert (late / STEP + 1) * STEP <= (early / STEP + 2 * skew + 1) * STEP;
    assert (early / STEP + 2 * skew + 1) * STEP == early / STEP * STEP + (2 * skew + 1) * STEP;
  }

  lemma ReplayWhenForgotten(codes: Codes, skew: nat, delay: nat, window: nat)
    requires (2 * skew + 1) * STEP - 1 + delay > window
    ensures !NeverReplayed(codes, skew, delay, window)
  {
    var step := 2 * skew;
    var code := codes(0, step);
    var early, late := skew * STEP, (3 * skew + 1) * STEP - 1;
    var run := [Attempt(0, code, early, early, false), Attempt(0, code, late, late + delay, false)];
    assert early / STEP == skew && InReach(skew, early, step);
    assert late / STEP == 3 * skew && InReach(skew, late, step) by {
      assert late == 3 * skew * STEP + (STEP - 1);
    }
    assert Legal(run, delay, window);
    assert run[..0] == [] && run[..1] == [run[0]] && run[..1][..0] == [];
    assert Valid(codes, skew, 0, code, early);
    assert Valid(codes, skew, 0, code, late);
    assert Purged(map[], 0, early, window) == map[];
    assert After(codes, skew, run[..1], window) == map[(0, code) := early];
    assert AcceptedAt(codes, skew, run, window, 0);
    assert late + delay > early + window;
    assert AcceptedAt(codes, skew, run, window, 1);
    assert Replayed(codes, skew, run, window, 0, 1, step);
  }

  /**
    The guard holds in every run exactly when the record outlives the steps the
    code is accepted in together with the time between verifying and consuming.
   */
  lemma GuardHoldsIff(codes: Codes, skew: nat, delay: nat, window: nat)
    ensures NeverReplayed(codes, skew, delay, window) <==> (2 * skew + 1) * STEP - 1 + delay <= window
  {
    if (2 * skew + 1) * STEP - 1 + delay <= window {
      forall run: seq<Event>, i: nat, j: nat, step: nat | Legal(run, delay, window)
        ensures !Replayed(codes, skew, run, window, i, j, step)
      {
        if Replayed(codes, skew, run, window, i, j, step) {
          assert Prompt(run[i], delay) && Prompt(run[j], delay);
          SecondAcceptanceIsLate(codes, skew, run, window, delay, i, j);
          ReachSpansSteps(skew, run[i].verifiedAt, run[j].verifiedAt, step);
        }
      }
    } else {
      ReplayWhenForgotten(codes, skew, delay, window);
    }
  }

  /** The configured bound is the right one: it is the largest skew the window covers, with a step to spare. */
  lemma MaxSkewIsLargestSafe(codes: Codes, skew: nat, delay: nat)
    requires delay <= STEP
    ensures NeverReplayed(codes, skew, delay, REPLAY_WINDOW) <==> skew <= MAX_TOTP_SKEW
  {
    GuardHoldsIff(codes, skew, delay, REPLAY_WINDOW);
  }
}
