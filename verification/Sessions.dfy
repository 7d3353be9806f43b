/**
  Judging a refresh: the session row, the verdict on a presented token, and the
  expiry a session is dated with. Durations are nanoseconds.
 */
module Sessions {
  import opened Basics
  import opened Time

  const I64_MAX: int := 0x7fff_ffff_ffff_ffff

  /** Seconds as the source reads an unsigned count: at most the largest signed one. */
  function ClampedSeconds(secs: nat): nat {
    if secs <= I64_MAX then secs else I64_MAX
  }

  function SaturatingAdd(t: Instant, nanos: int): Instant {
    if t + nanos > MAX_TIME then MAX_TIME
    else if t + nanos < MIN_TIME then MIN_TIME
    else t + nanos
  }

  /** Whole seconds of a duration, truncated toward zero. */
  function WholeSeconds(nanos: int): int {
    if nanos >= 0 then nanos / NANOS else -((-nanos) / NANOS)
  }

  /** The end of the sign-in that started at `familyStart`. */
  function LifetimeEnd(familyStart: Instant, maxLifetimeSecs: nat): Instant {
    SaturatingAdd(familyStart, ClampedSeconds(maxLifetimeSecs) * NANOS)
  }

  function CappedExpiry(now: Instant, ttlSecs: nat, familyStart: Instant, maxLifetimeSecs: nat): (expiry: Instant)
    ensures expiry <= LifetimeEnd(familyStart, maxLifetimeSecs)
    ensures expiry <= SaturatingAdd(now, ClampedSeconds(ttlSecs) * NANOS)
    ensures expiry in {LifetimeEnd(familyStart, maxLifetimeSecs), SaturatingAdd(now, ClampedSeconds(ttlSecs) * NANOS)}
  {
    var byTtl := SaturatingAdd(now, ClampedSeconds(ttlSecs) * NANOS);
    var byLifetime := LifetimeEnd(familyStart, maxLifetimeSecs);
    if byTtl <= byLifetime then byTtl else byLifetime
  }

  /** A client address, split at the prefix that tells networks apart (/24 for IPv4, /48 for IPv6). */
  datatype Address = Address(network: nat, host: nat)

  datatype Session = Session(
    family: nat,
    expiresAt: Instant,
    familyCreatedAt: Instant,
    revokedAt: Option<Instant>,
    rotatedAt: Option<Instant>,
    compromisedAt: Option<Instant>,
    replacedBy: Option<nat>,
    address: Option<Address>,
    userAgent: Option<string>,
    clientId: Option<string>,
    rememberMe: bool)

  datatype RefreshPolicy = RefreshPolicy(reuseGrace: int, maxLifetimeSecs: nat, strictBinding: bool)

  datatype Verdict = Rotate | ConcurrentRefresh | Replay | Expired | AddressMismatch

  predicate IsActive(s: Session, now: Instant) {
    s.revokedAt.None? && s.expiresAt > now
  }

  predicate RotatedWithin(s: Session, grace: int, now: Instant) {
    s.compromisedAt.None? && s.rotatedAt.Some? && now - s.rotatedAt.value <= grace
  }

  predicate Outlived(s: Session, now: Instant, policy: RefreshPolicy) {
    WholeSeconds(now - s.familyCreatedAt) >= ClampedSeconds(policy.maxLifetimeSecs)
  }

  function RefreshVerdict(s: Session, now: Instant, requestIp: Option<Address>, policy: RefreshPolicy): Verdict {
    if s.revokedAt.Some? then
      if RotatedWithin(s, policy.reuseGrace, now) then ConcurrentRefresh else Replay
    else if !IsActive(s, now) then Expired
    else if Outlived(s, now, policy) then Expired
    else if policy.strictBinding && s.address != requestIp then AddressMismatch
    else Rotate
  }

  /** Dated no later than the end of its sign-in, as every rotation is. */
  predicate Capped(s: Session, maxLifetimeSecs: nat) {
    s.expiresAt <= LifetimeEnd(s.familyCreatedAt, maxLifetimeSecs)
  }

  /** Truncation and saturation included, the lifetime ends for the check exactly when it ends for the cap. */
  lemma LifetimeCheckMeetsCap(start: Instant, now: Instant, maxLifetimeSecs: nat)
    requires maxLifetimeSecs >= 1 && now < MAX_TIME
    ensures WholeSeconds(now - start) >= ClampedSeconds(maxLifetimeSecs) <==> LifetimeEnd(start, maxLifetimeSecs) <= now
  {
    var elapsed, seconds := now - start, ClampedSeconds(maxLifetimeSecs);
    if elapsed >= 0 {
      assert elapsed / NANOS >= seconds <==> elapsed >= seconds * NANOS;
    }
  }

  /**
    For sessions dated by the cap, the separate lifetime check never decides
    alone: one that still runs has not outlived its sign-in. A lifetime of zero
    is the one setting for which this fails, and the configuration refuses it.
   */
  lemma LifetimeCheckIsRedundantIff(maxLifetimeSecs: nat)
    ensures maxLifetimeSecs >= 1 <==>
            forall s: Session, now: Instant, policy: RefreshPolicy ::
              Capped(s, maxLifetimeSecs) && IsActive(s, now) && policy.maxLifetimeSecs == maxLifetimeSecs ==>
                !Outlived(s, now, policy)
  {
    if maxLifetimeSecs >= 1 {
      forall s: Session, now: Instant, policy: RefreshPolicy |
        Capped(s, maxLifetimeSecs) && IsActive(s, now) && policy.maxLifetimeSecs == maxLifetimeSecs
        ensures !Outlived(s, now, policy)
      {
        LifetimeCheckMeetsCap(s.familyCreatedAt, now, maxLifetimeSecs);
      }
    } else {
      var s := Session(0, 1, 1, None, None, None, None, None, None, None, false);
      assert Capped(s, 0) && IsActive(s, 0) && Outlived(s, 0, RefreshPolicy(0, 0, false));
    }
  }

  /**
    A rotation judged at one clock reading and dated at a later one: its session
    is not born expired exactly when the sign-in has not ended in between.
   */
  lemma RotationIsBornAliveIff(s: Session, judgedAt: Instant, now: Instant, ip: Option<Address>, policy: RefreshPolicy, ttlSecs: nat)
    requires RefreshVerdict(s, judgedAt, ip, policy) == Rotate && judgedAt <= now < MAX_TIME
    requires ttlSecs >= 1 && policy.maxLifetimeSecs >= 1
    ensures CappedExpiry(now, ttlSecs, s.familyCreatedAt, policy.maxLifetimeSecs) > now <==> !Outlived(s, now, policy)
    ensures judgedAt == now ==> !Outlived(s, now, policy)
  {
    LifetimeCheckMeetsCap(s.familyCreatedAt, now, policy.maxLifetimeSecs);
  }

  /** Rotated no longer than the grace ago, and not for a compromise. */
  predicate WithinGrace(s: Session, now: Instant, policy: RefreshPolicy) {
    s.compromisedAt.None? && s.rotatedAt.Some? && now <= s.rotatedAt.value + policy.reuseGrace
  }

  /** The sign-in ended `maxLifetimeSecs` after it started; a lifetime of zero ends a second early, by truncation. */
  predicate SignInEnded(familyStart: Instant, now: Instant, maxLifetimeSecs: nat) {
    if maxLifetimeSecs >= 1 then familyStart + maxLifetimeSecs * NANOS <= now else familyStart - NANOS < now
  }

  /**
    The five verdicts, each by the row's fields alone: revocation decides first,
    then expiry and lifetime, then the address. The clamp of the lifetime and the
    truncation to whole seconds are gone.
   */
  lemma VerdictIff(s: Session, now: Instant, ip: Option<Address>, policy: RefreshPolicy)
    ensures var verdict, revoked := RefreshVerdict(s, now, ip, policy), s.revokedAt.Some?;
            var ended := s.expiresAt <= now || SignInEnded(s.familyCreatedAt, now, policy.maxLifetimeSecs);
            var elsewhere := policy.strictBinding && s.address != ip;
            && (verdict == ConcurrentRefresh <==> revoked && WithinGrace(s, now, policy))
            && (verdict == Replay <==> revoked && !WithinGrace(s, now, policy))
            && (verdict == Expired <==> !revoked && ended)
            && (verdict == AddressMismatch <==> !revoked && !ended && elsewhere)
            && (verdict == Rotate <==> !revoked && !ended && !elsewhere)
  {
    OutlivedIff(s, now, policy);
    hide Outlived, SignInEnded;
  }

  lemma OutlivedIff(s: Session, now: Instant, policy: RefreshPolicy)
    ensures Outlived(s, now, policy) <==> SignInEnded(s.familyCreatedAt, now, policy.maxLifetimeSecs)
  {
    var elapsed, seconds := now - s.familyCreatedAt, ClampedSeconds(policy.maxLifetimeSecs);
    assert elapsed <= MAX_TIME - MIN_TIME < I64_MAX * NANOS;
    if elapsed >= 0 {
      assert elapsed / NANOS >= seconds <==> elapsed >= seconds * NANOS;
    } else {
      assert (-elapsed) / NANOS <= 0 <==> -elapsed < NANOS;
    }
  }

  /** Active and within its sign-in: the verdict on its token turns on the address alone. */
  predicate Refreshable(s: Session, now: Instant, policy: RefreshPolicy) {
    IsActive(s, now) && !Outlived(s, now, policy)
  }

  lemma RefreshableEarlier(s: Session, now: Instant, later: Instant, policy: RefreshPolicy)
    requires Refreshable(s, later, policy) && now <= later
    ensures Refreshable(s, now, policy)
  {
    assert WholeSeconds(now - s.familyCreatedAt) <= WholeSeconds(later - s.familyCreatedAt);
  }
}
