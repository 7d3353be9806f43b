/**
  One bucket of the rate limiter: the hash `(w, c, p)` kept per client, the
  weighted estimate it yields, and the wait announced on a refusal.

  The script computes `p * (1 - into) + c + 1 > limit` in floating point. Here
  both sides are multiplied by the window, so the arithmetic is exact.
 */
module SlidingWindow {
  import opened Basics

  /** Length of the sliding window, in milliseconds. */
  const WINDOW_MS: nat := 60_000

  /** The stored fields: fixed window `w`, its count `c`, and the count `p` of the window before. */
  datatype Hash = Hash(w: nat, c: nat, p: nat)

  /** Counts of the fixed window holding `now` and of the one before it. */
  datatype Counts = Counts(current: nat, previous: nat)

  /** The counts a request at `now` sees: stored counts age by whole windows. */
  function RollOver(stored: Option<Hash>, now: nat): Counts {
    var current := now / WINDOW_MS;
    match stored
    case None => Counts(0, 0)
    case Some(h) =>
      if h.w < current - 1 then Counts(0, 0)
      else if h.w == current - 1 then Counts(0, h.c)
      else Counts(h.c, h.p)
  }

  /** The sliding estimate, multiplied by the window. */
  function Estimate(counts: Counts, now: nat): nat {
    counts.previous * (WINDOW_MS - now % WINDOW_MS) + counts.current * WINDOW_MS
  }

  predicate Admits(stored: Option<Hash>, limit: nat, now: nat) {
    Estimate(RollOver(stored, now), now) + WINDOW_MS <= limit * WINDOW_MS
  }

  function CeilDiv(a: nat, b: nat): (q: nat)
    requires b > 0
    ensures (q - 1) * b < a <= q * b
  {
    var q := (a + b - 1) / b;
    assert q * b <= a + b - 1 < (q + 1) * b by { DivisionBounds(a + b - 1, b); }
    q
  }

  lemma DivisionBounds(a: nat, b: nat)
    requires b > 0
    ensures a / b * b <= a < (a / b + 1) * b
  {
    assert a == a / b * b + a % b;
  }

  /** Milliseconds announced to a request refused by the bucket. */
  function Wait(stored: Option<Hash>, limit: nat, now: nat): (wait: nat)
    requires !Admits(stored, limit, now)
    ensures wait >= 1
  {
    var counts := RollOver(stored, now);
    if counts.current + 1 <= limit && counts.previous > 0 then
      var excess := Estimate(counts, now) + WINDOW_MS - limit * WINDOW_MS;
      CeilDiv(excess, counts.previous)
    else
      WINDOW_MS - now % WINDOW_MS
  }

  /** No process has stamped the bucket with a window later than the one holding `now`. */
  predicate NotFromFuture(stored: Option<Hash>, now: nat) {
    stored.Some? ==> stored.value.w <= now / WINDOW_MS
  }

  lemma ProductMonotone(a: nat, x: int, y: int)
    requires x <= y
    ensures a * x <= a * y
  {
  }

  /** With no further admission the estimate never rises, window turns included. */
  lemma EstimateNeverRises(stored: Option<Hash>, now: nat, later: nat)
    requires NotFromFuture(stored, now) && now <= later
    ensures Estimate(RollOver(stored, later), later) <= Estimate(RollOver(stored, now), now)
  {
    var before, after := RollOver(stored, now), RollOver(stored, later);
    if now / WINDOW_MS == later / WINDOW_MS {
      ProductMonotone(before.previous, WINDOW_MS - later % WINDOW_MS, WINDOW_MS - now % WINDOW_MS);
    } else if stored.Some? {
      assert after.current == 0 && after.previous <= before.current;
      ProductMonotone(after.previous, WINDOW_MS - later % WINDOW_MS, WINDOW_MS);
      assert after.previous * WINDOW_MS <= before.current * WINDOW_MS;
      ProductMonotone(before.previous, 0, WINDOW_MS - now % WINDOW_MS);
    }
  }

  /** A bucket with room keeps it while nothing else is admitted. */
  lemma AdmissionPersists(stored: Option<Hash>, limit: nat, now: nat, later: nat)
    requires NotFromFuture(stored, now) && now <= later && Admits(stored, limit, now)
    ensures Admits(stored, limit, later)
  {
    EstimateNeverRises(stored, now, later);
  }

  /** A refusal with room in the current window is due to the previous window alone. */
  lemma RefusedByPreviousWindow(stored: Option<Hash>, limit: nat, now: nat)
    requires !Admits(stored, limit, now) && RollOver(stored, now).current < limit
    ensures RollOver(stored, now).previous > 0
  {
    var counts := RollOver(stored, now);
    assert counts.previous == 0 ==> Estimate(counts, now) == counts.current * WINDOW_MS;
  }

  /** While only the previous window is in the way, the wait ends in the same window or at its turn. */
  lemma DecayWaitWithinWindow(stored: Option<Hash>, limit: nat, now: nat)
    requires !Admits(stored, limit, now) && RollOver(stored, now).current < limit
    ensures Wait(stored, limit, now) <= WINDOW_MS - now % WINDOW_MS
  {
    RefusedByPreviousWindow(stored, limit, now);
    var p, left := RollOver(stored, now).previous, WINDOW_MS - now % WINDOW_MS;
    var wait := Wait(stored, limit, now);
    assert (wait - 1) * p < p * left;
    if wait > left {
      ProductMonotone(p, left, wait - 1);
    }
  }

  /**
    While only the previous window is in the way, the announced wait is exact:
    the least number of milliseconds after which the bucket admits.
   */
  lemma DecayWaitIsLeast(stored: Option<Hash>, limit: nat, now: nat, elapsed: nat)
    requires NotFromFuture(stored, now)
    requires !Admits(stored, limit, now) && RollOver(stored, now).current < limit
    ensures Admits(stored, limit, now + elapsed) <==> elapsed >= Wait(stored, limit, now)
  {
    RefusedByPreviousWindow(stored, limit, now);
    DecayWaitWithinWindow(stored, limit, now);
    var wait := Wait(stored, limit, now);
    if elapsed < wait {
      RefusedBeforeWait(stored, limit, now, elapsed);
    } else {
      AdmittedAfterWait(stored, limit, now);
      AdmissionPersists(stored, limit, now + wait, now + elapsed);
    }
  }

  lemma RefusedBeforeWait(stored: Option<Hash>, limit: nat, now: nat, elapsed: nat)
    requires NotFromFuture(stored, now)
    requires !Admits(stored, limit, now) && RollOver(stored, now).current < limit
    requires elapsed < Wait(stored, limit, now) <= WINDOW_MS - now % WINDOW_MS
    ensures !Admits(stored, limit, now + elapsed)
  {
    RefusedByPreviousWindow(stored, limit, now);
    var counts, wait := RollOver(stored, now), Wait(stored, limit, now);
    assert (now + elapsed) / WINDOW_MS == now / WINDOW_MS;
    assert (now + elapsed) % WINDOW_MS == now % WINDOW_MS + elapsed;
    var left := WINDOW_MS - now % WINDOW_MS;
    var p := counts.previous;
    ProductMonotone(p, elapsed, wait - 1);
    assert p * (left - elapsed) == p * left - p * elapsed;
  }

  lemma AdmittedAfterWait(stored: Option<Hash>, limit: nat, now: nat)
    requires NotFromFuture(stored, now)
    requires !Admits(stored, limit, now) && RollOver(stored, now).current < limit
    requires Wait(stored, limit, now) <= WINDOW_MS - now % WINDOW_MS
    ensures Admits(stored, limit, now + Wait(stored, limit, now))
  {
    RefusedByPreviousWindow(stored, limit, now);
    var counts, wait := RollOver(stored, now), Wait(stored, limit, now);
    var left, p := WINDOW_MS - now % WINDOW_MS, counts.previous;
    if wait < left {
      assert (now + wait) / WINDOW_MS == now / WINDOW_MS;
      assert (now + wait) % WINDOW_MS == now % WINDOW_MS + wait;
      assert p * (left - wait) == p * left - p * wait;
    } else {
      assert (now + wait) / WINDOW_MS == now / WINDOW_MS + 1;
      assert (now + wait) % WINDOW_MS == 0;
      assert RollOver(stored, now + wait) == Counts(0, counts.current);
    }
  }

  /**
    "Waiting that long frees a slot" holds exactly when the current window
    itself has room. A full window turns into a full previous window, and the
    request that waited for the turn is refused once more.
   */
  lemma WaitFreesSlotIff(stored: Option<Hash>, limit: nat, now: nat)
    requires NotFromFuture(stored, now) && limit >= 1 && !Admits(stored, limit, now)
    ensures Admits(stored, limit, now + Wait(stored, limit, now)) <==> RollOver(stored, now).current < limit
  {
    var counts, wait := RollOver(stored, now), Wait(stored, limit, now);
    if counts.current < limit {
      DecayWaitIsLeast(stored, limit, now, wait);
    } else {
      assert wait == WINDOW_MS - now % WINDOW_MS;
      assert (now + wait) / WINDOW_MS == now / WINDOW_MS + 1;
      assert (now + wait) % WINDOW_MS == 0;
      assert RollOver(stored, now + wait) == Counts(0, counts.current);
    }
  }

  /** Refusals a lone client can still meet at this bucket: 0 with room, 1 while decaying, 2 when full. */
  function RefusalsLeft(stored: Option<Hash>, limit: nat, now: nat): (n: nat)
    ensures n <= 2
  {
    if Admits(stored, limit, now) then 0
    else if RollOver(stored, now).current < limit then 1
    else 2
  }

  lemma RefusalsLeftNeverRises(stored: Option<Hash>, limit: nat, now: nat, later: nat)
    requires NotFromFuture(stored, now) && limit >= 1 && now <= later
    ensures RefusalsLeft(stored, limit, later) <= RefusalsLeft(stored, limit, now)
  {
    EstimateNeverRises(stored, now, later);
  }

  /** Each announced wait, honoured in full or longer, uses up one refusal. */
  lemma WaitUsesUpARefusal(stored: Option<Hash>, limit: nat, now: nat, later: nat)
    requires NotFromFuture(stored, now) && limit >= 1 && !Admits(stored, limit, now)
    requires later >= now + Wait(stored, limit, now)
    ensures RefusalsLeft(stored, limit, later) < RefusalsLeft(stored, limit, now)
  {
    var wait := Wait(stored, limit, now);
    if RollOver(stored, now).current < limit {
      WaitFreesSlotIff(stored, limit, now);
      AdmissionPersists(stored, limit, now + wait, later);
    } else {
      assert later / WINDOW_MS > now / WINDOW_MS;
      assert RollOver(stored, later).current == 0;
    }
  }
}
