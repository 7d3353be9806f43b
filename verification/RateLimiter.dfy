/**
  The limiter script over a store of bucket hashes, and the answers the
  middleware gives from it.
 */
module RateLimiter {
  import opened Basics
  import opened SlidingWindow

  /** One hash per bucket key. */
  type Store = map<string, Hash>

  function Get(store: Store, key: string): Option<Hash> {
    if key in store then Some(store[key]) else None
  }

  /** One call of the script: a key and a limit per bucket, all judged at `now`. */
  datatype Request = Request(now: nat, keys: seq<string>, limits: seq<nat>)

  predicate Refuses(store: Store, r: Request, i: nat)
    requires i < |r.keys| == |r.limits|
  {
    !Admits(Get(store, r.keys[i]), r.limits[i], r.now)
  }

  /** Index of the first bucket from `i` on that refuses the request, or the number of buckets. */
  function FirstRefusal(store: Store, r: Request, i: nat): (k: nat)
    requires i <= |r.keys| == |r.limits|
    ensures i <= k <= |r.keys|
    ensures forall j :: i <= j < k ==> !Refuses(store, r, j)
    ensures k < |r.keys| ==> Refuses(store, r, k)
    decreases |r.keys| - i
  {
    if i == |r.keys| || Refuses(store, r, i) then i else FirstRefusal(store, r, i + 1)
  }

  /** What the script returns: 0 when every bucket has room, else the first refusing bucket's wait. */
  function Answer(store: Store, r: Request): nat
    requires |r.keys| == |r.limits|
  {
    var k := FirstRefusal(store, r, 0);
    if k == |r.keys| then 0 else Wait(Get(store, r.keys[k]), r.limits[k], r.now)
  }

  /** A bucket's hash once an admitted request at `now` is counted in it. */
  function Counted(stored: Option<Hash>, now: nat): Hash {
    var counts := RollOver(stored, now);
    Hash(now / WINDOW_MS, counts.current + 1, counts.previous)
  }

  /** The store once the first `n` buckets of an admitted request are written back. */
  function Committed(store: Store, r: Request, n: nat): Store
    requires n <= |r.keys|
  {
    if n == 0 then store
    else Committed(store, r, n - 1)[r.keys[n - 1] := Counted(Get(store, r.keys[n - 1]), r.now)]
  }

  function Step(store: Store, r: Request): Store
    requires |r.keys| == |r.limits|
  {
    if Answer(store, r) == 0 then Committed(store, r, |r.keys|) else store
  }

  /** A request is counted in each of its buckets and in no other. */
  lemma CommittedGet(store: Store, r: Request, n: nat, key: string)
    requires n <= |r.keys|
    ensures Get(Committed(store, r, n), key) ==
            if key in r.keys[..n] then Some(Counted(Get(store, key), r.now)) else Get(store, key)
  {
    if n > 0 {
      CommittedGet(store, r, n - 1, key);
      assert r.keys[..n] == r.keys[..n - 1] + [r.keys[n - 1]];
    }
  }

  /** Counted in every bucket or in none: the two whole outcomes of one call. */
  lemma AllBucketsOrNone(store: Store, r: Request, key: string)
    requires |r.keys| == |r.limits|
    ensures (Answer(store, r) == 0 <==> forall i :: 0 <= i < |r.keys| ==> !Refuses(store, r, i))
    ensures Answer(store, r) != 0 ==> Step(store, r) == store
    ensures Answer(store, r) == 0 && key in r.keys ==> Get(Step(store, r), key) == Some(Counted(Get(store, key), r.now))
    ensures key !in r.keys ==> Get(Step(store, r), key) == Get(store, key)
  {
    CommittedGet(store, r, |r.keys|, key);
    assert r.keys[..|r.keys|] == r.keys;
  }

  // Stored with a deadline

  /** A stored hash with the deadline its last `PEXPIRE` set. */
  datatype Entry = Entry(hash: Hash, expiresAt: nat)

  type ExpiringStore = map<string, Entry>

  function Visible(store: ExpiringStore): Store {
    map key | key in store :: store[key].hash
  }

  /** The entry an admitted request leaves in a bucket. */
  function Written(hashes: Store, key: string, now: nat): Entry {
    Entry(Counted(Get(hashes, key), now), now + 2 * WINDOW_MS)
  }

  /** The store once the given buckets of an admitted request are written back. */
  function Rewritten(store: ExpiringStore, hashes: Store, keys: seq<string>, now: nat): ExpiringStore {
    store + map key | key in keys :: Written(hashes, key, now)
  }

  lemma NothingRewritten(store: ExpiringStore, hashes: Store, now: nat)
    ensures Rewritten(store, hashes, [], now) == store
  {
  }

  lemma RewriteNext(store: ExpiringStore, hashes: Store, keys: seq<string>, i: nat, now: nat)
    requires i < |keys|
    ensures Rewritten(store, hashes, keys[..i + 1], now) ==
            Rewritten(store, hashes, keys[..i], now)[keys[i] := Written(hashes, keys[i], now)]
  {
    hide Written;
    assert keys[..i + 1] == keys[..i] + [keys[i]];
  }

  function ExpiringStep(store: ExpiringStore, r: Request): ExpiringStore
    requires |r.keys| == |r.limits|
  {
    var hashes := Visible(store);
    if Answer(hashes, r) == 0 then Rewritten(store, hashes, r.keys, r.now) else store
  }

  /** The Redis side: the stored hashes, and the script that checks every bucket before writing any. */
  class Limiter {
    var entries: ExpiringStore

    constructor ()
      ensures entries == map[]
    {
      entries := map[];
    }

    method SlidingWindow(r: Request) returns (wait: nat)
      requires |r.keys| == |r.limits|
      modifies this
      ensures wait == Answer(Visible(old(entries)), r)
      ensures entries == ExpiringStep(old(entries), r)
    {
      hide Admits, RollOver, Rewritten, Visible, Wait, Get;
      ghost var hashes := Visible(entries);
      var state: seq<Counts> := [];
      var i := 0;
      while i < |r.keys|
        invariant 0 <= i == |state| <= |r.keys|
        invariant entries == old(entries)
        invariant FirstRefusal(hashes, r, 0) == FirstRefusal(hashes, r, i)
        invariant forall j :: 0 <= j < i ==> state[j] == RollOver(Get(hashes, r.keys[j]), r.now)
      {
        var stored := Get(Visible(entries), r.keys[i]);
        if !Admits(stored, r.limits[i], r.now) {
          return Wait(stored, r.limits[i], r.now);
        }
        state := state + [RollOver(stored, r.now)];
        i := i + 1;
      }
      i := 0;
      NothingRewritten(entries, hashes, r.now);
      while i < |r.keys|
        invariant 0 <= i <= |r.keys|
        invariant entries == Rewritten(old(entries), hashes, r.keys[..i], r.now)
      {
        var hash := Hash(r.now / WINDOW_MS, state[i].current + 1, state[i].previous);
        RewriteNext(old(entries), hashes, r.keys, i, r.now);
        entries := entries[r.keys[i] := Entry(hash, r.now + 2 * WINDOW_MS)];
        i := i + 1;
      }
      assert r.keys[..i] == r.keys;
      return 0;
    }
  }

  /** A counted bucket is kept for two windows from the request; no other deadline moves. */
  lemma DeadlineIsTwoWindows(store: ExpiringStore, r: Request, key: string)
    requires |r.keys| == |r.limits|
    ensures var next := ExpiringStep(store, r);
            if Answer(Visible(store), r) == 0 && key in r.keys then
              key in next && next[key].expiresAt == r.now + 2 * WINDOW_MS
            else (key in next <==> key in store) && (key in store ==> next[key] == store[key])
  {
    hide Answer, Counted;
  }

  // What the answer means

  /** The first bucket that refuses, named by the index the script stops at. */
  predicate RefusedFirstBy(store: Store, r: Request, k: nat)
    requires |r.keys| == |r.limits|
  {
    k < |r.keys| && Refuses(store, r, k) && forall j :: 0 <= j < k ==> !Refuses(store, r, j)
  }

  lemma AnswerIsFirstWait(store: Store, r: Request, k: nat)
    requires |r.keys| == |r.limits| && RefusedFirstBy(store, r, k)
    ensures Answer(store, r) == Wait(Get(store, r.keys[k]), r.limits[k], r.now) >= 1
  {
    assert FirstRefusal(store, r, 0) == k;
  }

  /**
    The script's return value. It is zero exactly when no bucket refuses.
    Otherwise, with room in the current window of the first refusing bucket, it is
    the least number of milliseconds after which that bucket admits; with that
    window full, it leads to the first instant of the next one.
   */
  lemma AnswerMeans(store: Store, r: Request, k: nat, t: nat)
    requires |r.keys| == |r.limits| && RefusedFirstBy(store, r, k) && NotFromFuture(Get(store, r.keys[k]), r.now)
    ensures Answer(store, r) >= 1
    ensures var stored, limit := Get(store, r.keys[k]), r.limits[k];
            if RollOver(stored, r.now).current < limit then
              Admits(stored, limit, r.now + t) <==> t >= Answer(store, r)
            else
              (r.now + t) / WINDOW_MS > r.now / WINDOW_MS <==> t >= Answer(store, r)
  {
    AnswerIsFirstWait(store, r, k);
    var stored, limit := Get(store, r.keys[k]), r.limits[k];
    if RollOver(stored, r.now).current < limit {
      DecayWaitIsLeast(stored, limit, r.now, t);
    } else {
      assert Answer(store, r) == WINDOW_MS - r.now % WINDOW_MS;
    }
  }

  // Retrying after the announced waits

  function RefusalsLeftFrom(store: Store, r: Request, i: nat): (n: nat)
    requires i <= |r.keys| == |r.limits|
    ensures n <= 2 * (|r.keys| - i)
    decreases |r.keys| - i
  {
    if i == |r.keys| then 0
    else RefusalsLeft(Get(store, r.keys[i]), r.limits[i], r.now) + RefusalsLeftFrom(store, r, i + 1)
  }

  /** The limits are ones the configuration accepts, and no bucket is stamped later than `r.now`. */
  predicate Sane(store: Store, r: Request) {
    && |r.keys| == |r.limits|
    && forall i :: 0 <= i < |r.keys| ==> r.limits[i] >= 1 && NotFromFuture(Get(store, r.keys[i]), r.now)
  }

  lemma RetryLowersRefusals(store: Store, r: Request, later: nat, i: nat, refusing: nat)
    requires Sane(store, r) && i <= |r.keys|
    requires refusing < |r.keys| && Refuses(store, r, refusing)
    requires later >= r.now + Wait(Get(store, r.keys[refusing]), r.limits[refusing], r.now)
    ensures RefusalsLeftFrom(store, r.(now := later), i) + (if i <= refusing then 1 else 0)
         <= RefusalsLeftFrom(store, r, i)
    decreases |r.keys| - i
  {
    if i < |r.keys| {
      RetryLowersRefusals(store, r, later, i + 1, refusing);
      var stored, limit := Get(store, r.keys[i]), r.limits[i];
      if i == refusing {
        WaitUsesUpARefusal(stored, limit, r.now, later);
      } else {
        RefusalsLeftNeverRises(stored, limit, r.now, later);
      }
    }
  }

  /** Attempts at the given times, each at least the announced wait after the one before. */
  predicate FollowsWaits(store: Store, r: Request, times: seq<nat>)
    requires |r.keys| == |r.limits|
  {
    forall i :: 0 < i < |times| ==>
      times[i] >= times[i - 1] + Answer(store, r.(now := times[i - 1]))
  }

  /** A lone client that honours every wait meets at most two refusals per bucket. */
  lemma {:induction false} FollowingWaitsEndsInAdmission(store: Store, r: Request, times: seq<nat>)
    requires times != [] && times[0] == r.now && Sane(store, r)
    requires FollowsWaits(store, r, times)
    requires forall i :: 0 <= i < |times| ==> Answer(store, r.(now := times[i])) != 0
    ensures |times| <= RefusalsLeftFrom(store, r, 0) <= 2 * |r.keys|
    decreases |times|
  {
    var refusing := FirstRefusal(store, r, 0);
    if |times| == 1 {
      RetryLowersRefusals(store, r, r.now + Answer(store, r), 0, refusing);
    } else {
      var next := r.(now := times[1]);
      assert r.(now := times[0]) == r;
      RetryLowersRefusals(store, r, times[1], 0, refusing);
      forall i | 0 <= i < |times| - 1
        ensures next.(now := times[1..][i]) == r.(now := times[i + 1])
      {
      }
      FollowingWaitsEndsInAdmission(store, next, times[1..]);
    }
  }

  // What the client is told

  datatype LimiterAnswer = Clear | WaitMs(ms: nat) | Unreachable

  datatype Verdict = Allow | Refuse(retryAfterSecs: nat) | Unavailable

  /** Whole seconds that cover the wait, with no second to spare and never zero. */
  function RetryAfterSecs(waitMs: nat): (secs: nat)
    ensures secs >= 1 && secs * 1000 >= waitMs
    ensures waitMs >= 1 ==> (secs - 1) * 1000 < waitMs
  {
    var secs := (waitMs + 999) / 1000;
    if secs > 1 then secs else 1
  }

  /**
    Whether the whole seconds of the header free a slot. The rounding leaves some
    milliseconds to spare, and a full window, turned into a full previous one,
    gives back one request in those exactly when it has decayed enough.
   */
  lemma RetryAfterFreesSlotIff(stored: Option<Hash>, limit: nat, now: nat)
    requires NotFromFuture(stored, now) && limit >= 1 && !Admits(stored, limit, now)
    ensures var wait, current := Wait(stored, limit, now), RollOver(stored, now).current;
            var spare := 1000 * RetryAfterSecs(wait) - wait;
            Admits(stored, limit, now + 1000 * RetryAfterSecs(wait)) <==>
              current < limit || current * (WINDOW_MS - spare) + WINDOW_MS <= limit * WINDOW_MS
  {
    var counts, wait := RollOver(stored, now), Wait(stored, limit, now);
    var elapsed := 1000 * RetryAfterSecs(wait);
    if counts.current < limit {
      DecayWaitIsLeast(stored, limit, now, elapsed);
    } else {
      assert wait == WINDOW_MS - now % WINDOW_MS;
      assert (now + elapsed) / WINDOW_MS == now / WINDOW_MS + 1 && (now + elapsed) % WINDOW_MS == elapsed - wait;
      assert RollOver(stored, now + elapsed) == Counts(0, counts.current);
    }
  }

  /**
    A full window of limit 1 refuses again after the announced milliseconds and
    after the header's seconds; a full one of limit 100 refuses after the former
    and admits after the latter.
   */
  lemma WaitingOnceIsNotAlwaysEnough()
    ensures var stored, wait := Some(Hash(0, 1, 0)), Wait(Some(Hash(0, 1, 0)), 1, 0);
            !Admits(stored, 1, 0 + wait) && !Admits(stored, 1, 0 + 1000 * RetryAfterSecs(wait))
    ensures var stored, now, wait := Some(Hash(0, 100, 0)), 59_601, Wait(Some(Hash(0, 100, 0)), 100, 59_601);
            !Admits(stored, 100, now + wait) && Admits(stored, 100, now + 1000 * RetryAfterSecs(wait))
  {
    WaitFreesSlotIff(Some(Hash(0, 1, 0)), 1, 0);
    RetryAfterFreesSlotIff(Some(Hash(0, 1, 0)), 1, 0);
    WaitFreesSlotIff(Some(Hash(0, 100, 0)), 100, 59_601);
    RetryAfterFreesSlotIff(Some(Hash(0, 100, 0)), 100, 59_601);
  }

  function VerdictOf(answer: LimiterAnswer, failOpen: bool): Verdict {
    match answer
    case Clear => Allow
    case WaitMs(ms) => Refuse(RetryAfterSecs(ms))
    case Unreachable => if failOpen then Allow else Unavailable
  }

  /** The middleware's reading of the script's return value. */
  function Ask(store: Store, r: Request): LimiterAnswer
    requires |r.keys| == |r.limits|
  {
    var wait := Answer(store, r);
    if wait > 0 then WaitMs(wait) else Clear
  }

  /**
    What the client is told, in whole seconds: to come back after the least
    number of them, at least one, that covers what `AnswerMeans` describes.
   */
  lemma VerdictMeans(store: Store, r: Request, k: nat, n: nat, failOpen: bool)
    requires |r.keys| == |r.limits| && RefusedFirstBy(store, r, k) && NotFromFuture(Get(store, r.keys[k]), r.now)
    ensures var verdict := VerdictOf(Ask(store, r), failOpen);
            var stored, limit := Get(store, r.keys[k]), r.limits[k];
            && verdict.Refuse? && verdict.retryAfterSecs >= 1
            && (if RollOver(stored, r.now).current < limit then
                  Admits(stored, limit, r.now + 1000 * n) <==> n >= verdict.retryAfterSecs
                else
                  (r.now + 1000 * n) / WINDOW_MS > r.now / WINDOW_MS <==> n >= verdict.retryAfterSecs)
  {
    hide Admits, RollOver, Answer, RefusedFirstBy;
    AnswerMeans(store, r, k, 1000 * n);
    var wait, secs := Answer(store, r), RetryAfterSecs(Answer(store, r));
    assert 1000 * n >= wait <==> n >= secs;
  }

  /** Let through exactly when no bucket refuses, and without Redis exactly when told to fail open. */
  lemma AllowedIff(store: Store, r: Request, failOpen: bool)
    requires |r.keys| == |r.limits|
    ensures VerdictOf(Ask(store, r), failOpen) == Allow <==> forall i :: 0 <= i < |r.keys| ==> !Refuses(store, r, i)
    ensures VerdictOf(Unreachable, failOpen) == (if failOpen then Allow else Unavailable)
  {
    AllBucketsOrNone(store, r, "");
  }

  /** Attempts spaced by the `Retry-After` header of each refusal. */
  predicate FollowsRetryAfter(store: Store, r: Request, times: seq<nat>)
    requires |r.keys| == |r.limits|
  {
    forall i :: 0 < i < |times| ==>
      match VerdictOf(Ask(store, r.(now := times[i - 1])), false)
      case Refuse(secs) => times[i] >= times[i - 1] + 1000 * secs
      case _ => times[i] >= times[i - 1]
  }

  /** Among any `2n + 1` attempts that honour `Retry-After`, one is let through by `n` buckets. */
  lemma RetryAfterEndsInAdmission(store: Store, r: Request, times: seq<nat>) returns (i: nat)
    requires times != [] && times[0] == r.now && Sane(store, r)
    requires FollowsRetryAfter(store, r, times) && |times| > 2 * |r.keys|
    ensures i <= 2 * |r.keys| && VerdictOf(Ask(store, r.(now := times[i])), false) == Allow
  {
    if j :| 0 <= j <= 2 * |r.keys| && Answer(store, r.(now := times[j])) == 0 {
      return j;
    }
    var tried := times[..2 * |r.keys| + 1];
    forall j | 0 < j < |tried|
      ensures tried[j] >= tried[j - 1] + Answer(store, r.(now := tried[j - 1]))
    {
      assert VerdictOf(Ask(store, r.(now := times[j - 1])), false).Refuse?;
    }
    FollowingWaitsEndsInAdmission(store, r, tried);
    assert false;
  }
}
