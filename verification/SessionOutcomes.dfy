/**
  What becomes of a refresh, a sign-in and a logout: the outcome of each request
  by the rows it meets, with other requests in between, and what it changes.
 */
module SessionOutcomes {
  import opened Basics
  import opened SessionFamilies
  import opened SessionFutures
  import opened Sessions
  import opened Time

  // Which presented tokens condemn their family

  /** The session that replaced `row` is still stored, and was opened from this network by this user agent. */
  predicate SucceededHere(sessions: map<nat, Session>, row: Session, address: Option<Address>, agent: Option<string>) {
    && row.replacedBy.Some? && row.replacedBy.value in sessions
    && var next := sessions[row.replacedBy.value];
    && next.userAgent == agent
    && next.address.Some? == address.Some? && (address.Some? ==> next.address.value.network == address.value.network)
  }

  /** A token of a known row, presented by the client it was issued to. */
  predicate Known(sessions: map<nat, Session>, id: nat, clientId: Option<string>) {
    id in sessions && sessions[id].clientId == clientId
  }

  /** Judging: only the request's phase changes, and which phase it enters. */
  lemma PresentedIff(cfg: Config, s: State, e: Event)
    requires e.Present? && Enabled(s, e)
    ensures e.rid in Apply(cfg, s, e).requests
    ensures var phase := Apply(cfg, s, e).requests[e.rid];
            var revoked := Known(s.sessions, e.id, e.clientId) && s.sessions[e.id].revokedAt.Some?;
            && Apply(cfg, s, e) == s.(requests := s.requests[e.rid := phase])
            && (phase == Condemning(e.id) <==> revoked && !WithinGrace(s.sessions[e.id], e.now, cfg.policy))
            && (revoked && WithinGrace(s.sessions[e.id], e.now, cfg.policy) ==>
                  phase == Comparing(e.id, s.sessions[e.id], e.address, e.userAgent))
            && (phase.Comparing? || phase.Condemning? ==> revoked)
            && !phase.LostRace?
  {
    hide SignInEnded, RefreshVerdict;
    if e.id in s.sessions {
      VerdictIff(s.sessions[e.id], e.now, e.address, cfg.policy);
    }
  }

  /** Comparing clients: excused exactly when the successor is this client's; nothing but the phase changes. */
  lemma ComparedIff(cfg: Config, s: State, rid: nat)
    requires Enabled(s, Compare(rid))
    ensures var p := s.requests[rid];
            Apply(cfg, s, Compare(rid)) ==
            s.(requests := s.requests[rid := if SucceededHere(s.sessions, p.seen, p.address, p.userAgent) then Done else Condemning(p.id)])
  {
  }

  /** Where a request for a token stands once compared, if it had to be. */
  function Settled(cfg: Config, s: State, rid: nat): Phase
    requires rid in s.requests
  {
    if s.requests[rid].Comparing? then Apply(cfg, s, Compare(rid)).requests[rid] else s.requests[rid]
  }

  /**
    A presented token condemns its family exactly when its row is revoked, unless
    it was rotated within the grace, uncompromised, and its successor, when looked
    up, is a session of this very network and user agent. Whatever other requests
    do between judging and comparing.
   */
  lemma CondemnedIff(cfg: Config, s: State, e: Event, between: seq<Event>)
    requires e.Present? && Enabled(s, e) && Legal(cfg, Apply(cfg, s, e), between)
    requires var t := Run(cfg, Apply(cfg, s, e), between);
             e.rid in t.requests && e.rid in Apply(cfg, s, e).requests && t.requests[e.rid] == Apply(cfg, s, e).requests[e.rid]
    ensures var t := Run(cfg, Apply(cfg, s, e), between);
            Settled(cfg, t, e.rid) == Condemning(e.id) <==>
              && Known(s.sessions, e.id, e.clientId) && s.sessions[e.id].revokedAt.Some?
              && !(&& WithinGrace(s.sessions[e.id], e.now, cfg.policy)
                   && SucceededHere(t.sessions, s.sessions[e.id], e.address, e.userAgent))
  {
    PresentedIff(cfg, s, e);
    var t := Run(cfg, Apply(cfg, s, e), between);
    hide Run, Legal, Apply, WithinGrace, SucceededHere;
    if t.requests[e.rid].Comparing? {
      ComparedIff(cfg, t, e.rid);
    }
  }

  /** A granted request loses the race exactly when its row is gone or revoked; it then changes nothing but its phase. */
  lemma RaceLostIff(cfg: Config, s: State, rid: nat, newId: nat, now: Instant, dbNow: Instant)
    requires Enabled(s, CommitRotation(rid, newId, now, dbNow))
    ensures var p, next := s.requests[rid], Apply(cfg, s, CommitRotation(rid, newId, now, dbNow));
            && rid in next.requests
            && (next.requests[rid].LostRace? <==> p.id !in s.sessions || s.sessions[p.id].revokedAt.Some?)
            && (next.requests[rid].LostRace? ==>
                  next == s.(requests := s.requests[rid := LostRace(p.id, p.address, p.userAgent)]))
  {
    hide CappedExpiry;
  }

  /**
    The same law for a request that lost the race: reading the row again, it
    condemns the family unless the row stands rotated within the grace,
    uncompromised, by a client of this network and user agent.
   */
  lemma LoserCondemnsIff(cfg: Config, s: State, rid: nat, now: Instant)
    requires Enabled(s, Reread(rid, now))
    ensures var p := s.requests[rid];
            var excused := && p.id in s.sessions && WithinGrace(s.sessions[p.id], now, cfg.policy)
                           && SucceededHere(s.sessions, s.sessions[p.id], p.address, p.userAgent);
            Apply(cfg, s, Reread(rid, now)) == s.(requests := s.requests[rid := if excused then Done else Condemning(p.id)])
  {
  }

  // What a rotation leaves

  predicate Uncompromised(s: State) {
    forall id :: id in s.sessions && s.sessions[id].revokedAt.None? ==> s.sessions[id].compromisedAt.None?
  }

  lemma StepKeepsUncompromised(cfg: Config, s: State, e: Event)
    requires Uncompromised(s) && Enabled(s, e)
    ensures Uncompromised(Apply(cfg, s, e))
  {
    hide CappedExpiry, Judge, RotatedByThisClient, RotatedWithin;
  }

  /** No run leaves a session marked compromised and unrevoked. */
  lemma {:induction false} UnrevokedIsUncompromised(cfg: Config, s: State, run: seq<Event>)
    requires Uncompromised(s) && Legal(cfg, s, run)
    ensures Uncompromised(Run(cfg, s, run))
    decreases |run|
  {
    if run != [] {
      hide Uncompromised, Apply, Enabled;
      StepKeepsUncompromised(cfg, s, run[0]);
      UnrevokedIsUncompromised(cfg, Apply(cfg, s, run[0]), run[1..]);
    }
  }

  /** A session's token is granted a rotation at `now` to its own client, from its own address. */
  predicate Works(cfg: Config, s: State, id: nat, now: Instant, agent: Option<string>)
    requires id in s.sessions
  {
    Judge(cfg, s.sessions, id, now, s.sessions[id].address, agent, s.sessions[id].clientId).Granted?
  }

  /** A fresh session: unrevoked, of this family, client and choice, opened here. */
  predicate Fresh(row: Session, family: nat, address: Option<Address>, agent: Option<string>,
                  clientId: Option<string>, rememberMe: bool) {
    && row.family == family && row.clientId == clientId && row.rememberMe == rememberMe
    && row.address == address && row.userAgent == agent
    && row.revokedAt == None && row.rotatedAt == None && row.compromisedAt == None && row.replacedBy == None
  }

  lemma WorksIff(cfg: Config, s: State, id: nat, now: Instant, agent: Option<string>)
    requires id in s.sessions
    ensures var row := s.sessions[id];
            Works(cfg, s, id, now, agent) <==>
              && row.revokedAt.None? && now < row.expiresAt
              && !SignInEnded(row.familyCreatedAt, now, cfg.policy.maxLifetimeSecs)
  {
    var row := s.sessions[id];
    VerdictIff(row, now, row.address, cfg.policy);
    hide SignInEnded, RefreshVerdict;
  }

  /**
    A sign-in opens a session of its client, address and choice of lifetime, whose
    token works until the refresh lifetime by the application's clock or the
    sign-in by the database's is over; every other row stays.
   */
  lemma SignInOpens(cfg: Config, s: State, e: Event, now: Instant, agent: Option<string>)
    requires e.SignIn? && Enabled(s, e)
    ensures var next := Apply(cfg, s, e);
            && e.id in next.sessions && next.sessions - {e.id} == s.sessions - {e.id} && next.requests == s.requests
            && Fresh(next.sessions[e.id], e.family, e.address, e.userAgent, e.clientId, e.rememberMe)
            && (Works(cfg, next, e.id, now, agent) <==>
                  && now < CappedExpiry(e.appNow, TtlSecs(cfg, e.rememberMe), e.appNow, cfg.policy.maxLifetimeSecs)
                  && !SignInEnded(e.dbNow, now, cfg.policy.maxLifetimeSecs))
  {
    hide CappedExpiry, SignInEnded, Works;
    WorksIff(cfg, Apply(cfg, s, e), e.id, now, agent);
  }

  /**
    A rotation that commits: the old row revoked, dated as rotated and linked to
    the new one; the new one opened for the same family, client and choice, from
    where the request came, with a token that works until its own refresh lifetime
    or the sign-in is over; every other row stays.
   */
  lemma RotationOpens(cfg: Config, s: State, rid: nat, newId: nat, now: Instant, dbNow: Instant,
                      later: Instant, agent: Option<string>)
    requires MayRotate(s, rid, newId) && s.sessions.Keys <= s.issued
    ensures var p := s.requests[rid];
            var row, next := s.sessions[p.id], Apply(cfg, s, CommitRotation(rid, newId, now, dbNow));
            && newId in next.sessions && next.sessions - {p.id, newId} == s.sessions - {p.id, newId}
            && next.requests == s.requests[rid := Done]
            && p.id in next.sessions
            && next.sessions[p.id] == row.(revokedAt := Some(dbNow), rotatedAt := Some(dbNow), replacedBy := Some(newId))
            && Fresh(next.sessions[newId], row.family, p.address, p.userAgent, row.clientId, row.rememberMe)
            && next.sessions[newId].familyCreatedAt == row.familyCreatedAt
            && (Works(cfg, next, newId, later, agent) <==>
                  && later < CappedExpiry(now, TtlSecs(cfg, row.rememberMe), row.familyCreatedAt, cfg.policy.maxLifetimeSecs)
                  && !SignInEnded(row.familyCreatedAt, later, cfg.policy.maxLifetimeSecs))
  {
    hide CappedExpiry, SignInEnded, Works;
    WorksIff(cfg, Apply(cfg, s, CommitRotation(rid, newId, now, dbNow)), newId, later, agent);
  }

  /**
    Two tabs: from any reachable state, a rotated token presented again is refused
    without harm exactly when it comes within the grace from the network and user
    agent that rotated it; otherwise it condemns the family.
   */
  lemma SecondUseIsExcusedIff(cfg: Config, run: seq<Event>, rid: nat, newId: nat, now: Instant, dbNow: Instant, e: Event)
    requires Legal(cfg, INIT, run) && MayRotate(Run(cfg, INIT, run), rid, newId)
    requires var s := Run(cfg, INIT, run);
             && e.Present? && e.rid !in s.requests && e.id == s.requests[rid].id
             && e.clientId == s.sessions[e.id].clientId
    ensures var s := Run(cfg, INIT, run);
            var p, rotated := s.requests[rid], Apply(cfg, s, CommitRotation(rid, newId, now, dbNow));
            var presented := Apply(cfg, rotated, e);
            && e.rid in presented.requests
            && Settled(cfg, presented, e.rid) ==
               (if && e.now <= dbNow + cfg.policy.reuseGrace
                   && p.userAgent == e.userAgent
                   && p.address.Some? == e.address.Some?
                   && (e.address.Some? ==> p.address.value.network == e.address.value.network)
                then Done else Condemning(e.id))
            && presented.sessions == rotated.sessions
  {
    var s := Run(cfg, INIT, run);
    ReachableInv(cfg, run);
    UnrevokedIsUncompromised(cfg, INIT, run);
    var rotated := Apply(cfg, s, CommitRotation(rid, newId, now, dbNow));
    assert s.sessions.Keys <= s.issued;
    RotationOpens(cfg, s, rid, newId, now, dbNow, now, None);
    assert WithinGrace(rotated.sessions[e.id], e.now, cfg.policy) <==> e.now <= dbNow + cfg.policy.reuseGrace;
    hide Apply, Run, Legal, Inv, WithinGrace, Works, CappedExpiry, SignInEnded;
    assert Enabled(rotated, e);
    PresentedIff(cfg, rotated, e);
    var presented := Apply(cfg, rotated, e);
    if presented.requests[e.rid].Comparing? {
      ComparedIff(cfg, presented, e.rid);
    }
  }

  // Revocations

  /** A logout marks exactly the unrevoked rows it names, and touches nothing else. */
  lemma LogoutRevokesExactly(cfg: Config, s: State, ids: set<nat>, dbNow: Instant, id: nat)
    ensures var next := Apply(cfg, s, Revoke(ids, dbNow));
            && next.(sessions := s.sessions) == s && next.sessions.Keys == s.sessions.Keys
            && (id in s.sessions ==>
                  next.sessions[id] == if id in ids && s.sessions[id].revokedAt.None?
                                       then s.sessions[id].(revokedAt := Some(dbNow)) else s.sessions[id])
  {
  }

  /** Exactly the families a logout ends: those whose unrevoked sessions it names. */
  lemma LogoutEndsExactly(cfg: Config, s: State, ids: set<nat>, dbNow: Instant, family: nat)
    ensures Dead(Apply(cfg, s, Revoke(ids, dbNow)), family) <==>
            forall id :: id in s.sessions && s.sessions[id].family == family && s.sessions[id].revokedAt.None? ==> id in ids
  {
    hide Apply;
    var next := Apply(cfg, s, Revoke(ids, dbNow));
    forall id
      ensures id in next.sessions <==> id in s.sessions
      ensures id in s.sessions ==>
                && next.sessions[id].family == s.sessions[id].family
                && (next.sessions[id].revokedAt.Some? <==> s.sessions[id].revokedAt.Some? || id in ids)
    {
      LogoutRevokesExactly(cfg, s, ids, dbNow, id);
    }
  }

  /** After a logout of the session a family issued last, no continuation rotates or grants a token of the family. */
  lemma LogoutEndsTheFamily(cfg: Config, run: seq<Event>, ids: set<nat>, dbNow: Instant, family: nat, more: seq<Event>,
                            id: nat, now: Instant, address: Option<Address>, agent: Option<string>, clientId: Option<string>)
    requires Legal(cfg, INIT, run)
    requires var s := Run(cfg, INIT, run); family in s.tips && s.tips[family] in ids
    requires Legal(cfg, Apply(cfg, Run(cfg, INIT, run), Revoke(ids, dbNow)), more)
    ensures var loggedOut := Apply(cfg, Run(cfg, INIT, run), Revoke(ids, dbNow));
            var t := Run(cfg, loggedOut, more);
            && Dead(t, family) && !RotatedSince(loggedOut, t, family)
            && (id in t.sessions && t.sessions[id].family == family ==>
                  !Judge(cfg, t.sessions, id, now, address, agent, clientId).Granted?)
  {
    var s, e := Run(cfg, INIT, run), Revoke(ids, dbNow);
    ReachableInv(cfg, run);
    forall other | other in s.sessions && s.sessions[other].family == family && s.sessions[other].revokedAt.None?
      ensures other in ids
    {
      FamilyHasTip(cfg, s, other);
    }
    LogoutEndsExactly(cfg, s, ids, dbNow, family);
    LogoutRevokesExactly(cfg, s, ids, dbNow, id);
    StepKeepsInv(cfg, s, e);
    hide Inv, Judge, Run, Legal, Apply, Dead;
    var loggedOut := Apply(cfg, s, e);
    DeadFamilyStaysDead(cfg, loggedOut, more, family);
    DeadFamilyIsNotGranted(cfg, Run(cfg, loggedOut, more), family, id, now, address, agent, clientId);
  }

  lemma DeadFamilyIsNotGranted(cfg: Config, s: State, family: nat, id: nat, now: Instant,
                               address: Option<Address>, agent: Option<string>, clientId: Option<string>)
    requires Dead(s, family)
    ensures id in s.sessions && s.sessions[id].family == family ==>
              !Judge(cfg, s.sessions, id, now, address, agent, clientId).Granted?
  {
    hide Judge, Outlived;
    GrantedIff(cfg, s.sessions, id, now, address, agent, clientId);
  }

  /** A revocation marks every row of the family it finds, first marks kept, and touches no other row. */
  lemma RevocationMarksExactly(cfg: Config, s: State, rid: nat, dbNow: Instant, id: nat)
    requires Enabled(s, RevokeFamily(rid, dbNow))
    ensures var found, next := s.requests[rid].id, Apply(cfg, s, RevokeFamily(rid, dbNow));
            && next.sessions.Keys == s.sessions.Keys && next.requests == s.requests[rid := Done]
            && (id in s.sessions ==>
                  var row, after := s.sessions[id], next.sessions[id];
                  if found in s.sessions && row.family == s.sessions[found].family then
                    && after == row.(revokedAt := after.revokedAt, compromisedAt := after.compromisedAt)
                    && after.revokedAt == (if row.revokedAt.None? then Some(dbNow) else row.revokedAt)
                    && after.compromisedAt == (if row.compromisedAt.None? then Some(dbNow) else row.compromisedAt)
                  else after == row)
  {
  }
}
