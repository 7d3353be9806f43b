/**
  What can still happen: exactly when a family can rotate again, and a token be
  granted again, in the continuations of any reachable state of the refresh
  protocol; and runs in which judging and committing come apart.
 */
module SessionFutures {
  import opened Basics
  import opened SessionFamilies
  import opened Sessions
  import opened Time

  // When a family can rotate again

  /** No session of the family stands unrevoked, for whatever reason: replay, logout, or the rows being gone. */
  predicate Dead(s: State, family: nat) {
    forall id :: id in s.sessions && s.sessions[id].family == family ==> s.sessions[id].revokedAt.Some?
  }

  predicate InFlight(s: State, id: nat) {
    exists rid :: rid in s.requests && s.requests[rid].Granted? && s.requests[rid].id == id
  }

  /** A session of the family stands unrevoked, and is granted a rotation or could be at `now`. */
  predicate MayStillRotate(cfg: Config, s: State, family: nat, id: nat, now: Instant) {
    && id in s.sessions && s.sessions[id].family == family && s.sessions[id].revokedAt.None?
    && (Refreshable(s.sessions[id], now, cfg.policy) || InFlight(s, id))
  }

  ghost predicate CanRotate(cfg: Config, s: State, family: nat, now: Instant) {
    exists id :: MayStillRotate(cfg, s, family, id, now)
  }

  /** No token is presented before `now`. */
  predicate PresentedFrom(run: seq<Event>, now: Instant) {
    forall i :: 0 <= i < |run| && run[i].Present? ==> now <= run[i].now
  }

  predicate RotatedSince(s: State, t: State, family: nat) {
    exists k :: |s.rotations| <= k < |t.rotations| && t.rotations[k].family == family
  }

  /** Judging grants a rotation exactly to an unrevoked row of the asking client, refreshable and rightly addressed. */
  lemma GrantedIff(cfg: Config, sessions: map<nat, Session>, id: nat, now: Instant,
                   address: Option<Address>, agent: Option<string>, clientId: Option<string>)
    ensures Judge(cfg, sessions, id, now, address, agent, clientId).Granted? <==>
              && id in sessions && sessions[id].clientId == clientId
              && Refreshable(sessions[id], now, cfg.policy)
              && (cfg.policy.strictBinding ==> sessions[id].address == address)
    ensures var phase := Judge(cfg, sessions, id, now, address, agent, clientId); phase.Granted? ==> phase.id == id
  {
    hide Outlived;
  }

  /** What is left of a row after one event. */
  predicate RowAfter(before: Session, after: Session) {
    && after.family == before.family && after.familyCreatedAt == before.familyCreatedAt
    && after.expiresAt == before.expiresAt && after.address == before.address && after.clientId == before.clientId
    && (before.revokedAt.Some? ==> after.revokedAt.Some?)
  }

  /** Rows are inserted under fresh ids, into a fresh family or by a rotation, and never unrevoked. */
  lemma RowsAfterStep(cfg: Config, s: State, e: Event, id: nat)
    requires OnlyTipLives(s) && Enabled(s, e) && id in Apply(cfg, s, e).sessions
    ensures id in s.sessions ==> RowAfter(s.sessions[id], Apply(cfg, s, e).sessions[id])
    ensures id !in s.sessions ==> id !in s.issued && (e.SignIn? || e.CommitRotation?)
    ensures id !in s.sessions && e.SignIn? ==> Apply(cfg, s, e).sessions[id].family == e.family
    ensures id !in s.sessions && e.CommitRotation? ==>
              && MayRotate(s, e.rid, e.newId)
              && Apply(cfg, s, e).sessions[id].family == s.sessions[s.requests[e.rid].id].family
  {
    hide Judge, CappedExpiry, RotatedByThisClient, RotatedWithin;
  }

  /** A rotation commits for a granted request whose row is unrevoked, and on no other event. */
  lemma RotationsAfterStep(cfg: Config, s: State, e: Event)
    requires Enabled(s, e)
    ensures var next := Apply(cfg, s, e);
            if e.CommitRotation? && MayRotate(s, e.rid, e.newId) then
              var id := s.requests[e.rid].id;
              next.rotations == s.rotations + [Rotation(id, e.newId, s.sessions[id].family)]
            else next.rotations == s.rotations
    ensures s.tips.Keys <= Apply(cfg, s, e).tips.Keys && s.issued <= Apply(cfg, s, e).issued
  {
    hide Judge, CappedExpiry, RotatedByThisClient, RotatedWithin;
  }

  /** Requests are granted by a presentation and by nothing else. */
  lemma GrantsAfterStep(cfg: Config, s: State, e: Event, rid: nat)
    requires Enabled(s, e) && rid in Apply(cfg, s, e).requests && Apply(cfg, s, e).requests[rid].Granted?
    ensures var phase := Apply(cfg, s, e).requests[rid];
            || (rid in s.requests && s.requests[rid] == phase)
            || (&& e.Present?
                && phase == Judge(cfg, s.sessions, e.id, e.now, e.address, e.userAgent, e.clientId))
  {
    hide Judge, CappedExpiry, RotatedByThisClient, RotatedWithin;
  }

  lemma SignInOpensNewFamily(s: State, e: Event, family: nat)
    requires Enabled(s, e) && e.SignIn? && family in s.tips
    ensures e.family != family
  {
  }

  lemma RefreshableBefore(before: Session, after: Session, now: Instant, policy: RefreshPolicy)
    requires RowAfter(before, after) && Refreshable(after, now, policy)
    ensures Refreshable(before, now, policy)
  {
  }

  lemma CandidateBeforeStep(cfg: Config, s: State, e: Event, family: nat, id: nat, now: Instant)
    requires OnlyTipLives(s) && Enabled(s, e) && (e.Present? ==> now <= e.now) && family in s.tips
    requires MayStillRotate(cfg, Apply(cfg, s, e), family, id, now)
    ensures CanRotate(cfg, s, family, now)
  {
    hide Apply, OnlyTipLives, Judge, Outlived;
    var next := Apply(cfg, s, e);
    RowsAfterStep(cfg, s, e, id);
    if id !in s.sessions {
      if e.SignIn? {
        SignInOpensNewFamily(s, e, family);
      }
      CommitIsCandidate(cfg, s, e.rid, e.newId, now);
    } else {
      if Refreshable(next.sessions[id], now, cfg.policy) {
        RefreshableBefore(s.sessions[id], next.sessions[id], now, cfg.policy);
      } else {
        var rid :| rid in next.requests && next.requests[rid].Granted? && next.requests[rid].id == id;
        GrantsAfterStep(cfg, s, e, rid);
        if e.Present? {
          GrantedIff(cfg, s.sessions, e.id, e.now, e.address, e.userAgent, e.clientId);
          if e.id == id && Refreshable(s.sessions[id], e.now, cfg.policy) {
            RefreshableEarlier(s.sessions[id], now, e.now, cfg.policy);
          }
        }
      }
      assert MayStillRotate(cfg, s, family, id, now);
    }
  }

  lemma {:induction false} NoRotationWithoutCandidate(cfg: Config, s: State, more: seq<Event>, family: nat, now: Instant)
    requires Inv(cfg, s) && Legal(cfg, s, more) && PresentedFrom(more, now) && family in s.tips
    requires !CanRotate(cfg, s, family, now)
    ensures s.rotations <= Run(cfg, s, more).rotations && !RotatedSince(s, Run(cfg, s, more), family)
    decreases |more|
  {
    hide Inv, Apply, Enabled, CanRotate, MayRotate;
    if more != [] {
      var e := more[0];
      var next := Apply(cfg, s, e);
      StepKeepsInv(cfg, s, e);
      RotationsAfterStep(cfg, s, e);
      StillStuck(cfg, s, e, family, now);
      assert forall i :: 0 <= i < |more[1..]| ==> more[1..][i] == more[i + 1];
      NoRotationWithoutCandidate(cfg, next, more[1..], family, now);
    }
  }

  /** One event from a family without candidates: it gets none, and what commits is another family's rotation. */
  lemma StillStuck(cfg: Config, s: State, e: Event, family: nat, now: Instant)
    requires Inv(cfg, s) && Enabled(s, e) && (e.Present? ==> now <= e.now) && family in s.tips
    requires !CanRotate(cfg, s, family, now)
    ensures !CanRotate(cfg, Apply(cfg, s, e), family, now)
    ensures e.CommitRotation? && MayRotate(s, e.rid, e.newId) ==> s.sessions[s.requests[e.rid].id].family != family
  {
    hide Apply, OneChain, RotatedOnce, CondemnedStaysDead, Dated, OnlyTipLives, Refreshable;
    if CanRotate(cfg, Apply(cfg, s, e), family, now) {
      var id :| MayStillRotate(cfg, Apply(cfg, s, e), family, id, now);
      CandidateBeforeStep(cfg, s, e, family, id, now);
    }
    if e.CommitRotation? && MayRotate(s, e.rid, e.newId) {
      CommitIsCandidate(cfg, s, e.rid, e.newId, now);
    }
  }

  lemma CommitIsCandidate(cfg: Config, s: State, rid: nat, newId: nat, now: Instant)
    requires MayRotate(s, rid, newId)
    ensures MayStillRotate(cfg, s, s.sessions[s.requests[rid].id].family, s.requests[rid].id, now)
  {
    assert InFlight(s, s.requests[rid].id);
  }

  lemma FreshId(used: set<nat>) returns (unused: nat)
    ensures unused !in used
  {
    unused := 0;
    var below: set<nat> := {};
    while unused in used
      invariant below <= used && forall n :: n in below <==> 0 <= n < unused
      decreases used - below
    {
      below := below + {unused};
      unused := unused + 1;
    }
  }

  ghost predicate LaterRotates(cfg: Config, s: State, more: seq<Event>, family: nat, now: Instant) {
    Legal(cfg, s, more) && PresentedFrom(more, now) && RotatedSince(s, Run(cfg, s, more), family)
  }

  lemma {:induction false} RunAppend(cfg: Config, s: State, run: seq<Event>, e: Event)
    requires Legal(cfg, s, run) && Enabled(Run(cfg, s, run), e)
    ensures Legal(cfg, s, run + [e]) && Run(cfg, s, run + [e]) == Apply(cfg, Run(cfg, s, run), e)
    decreases |run|
  {
    hide Enabled, Apply;
    var longer := run + [e];
    if run == [] {
      assert longer[1..] == [];
    } else {
      RunAppend(cfg, Apply(cfg, s, run[0]), run[1..], e);
      assert longer[1..] == run[1..] + [e];
    }
  }

  lemma OneEvent(cfg: Config, s: State, e: Event)
    requires Enabled(s, e)
    ensures Legal(cfg, s, [e]) && Run(cfg, s, [e]) == Apply(cfg, s, e)
  {
    hide Enabled, Apply;
    assert [e][1..] == [];
  }

  lemma CommitNow(cfg: Config, s: State, rid: nat, newId: nat, now: Instant)
    requires MayRotate(s, rid, newId)
    ensures var e := CommitRotation(rid, newId, now, now);
            && Enabled(s, e) && RotatedSince(s, Apply(cfg, s, e), s.sessions[s.requests[rid].id].family)
  {
    var e := CommitRotation(rid, newId, now, now);
    hide CappedExpiry, Successor;
    assert Apply(cfg, s, e).rotations[|s.rotations|].family == s.sessions[s.requests[rid].id].family;
  }

  lemma PresentNow(cfg: Config, s: State, rid: nat, id: nat, now: Instant)
    requires rid !in s.requests && id in s.sessions && Refreshable(s.sessions[id], now, cfg.policy)
    ensures var e := Present(rid, id, now, s.sessions[id].address, s.sessions[id].userAgent, s.sessions[id].clientId);
            && Enabled(s, e)
            && var next := Apply(cfg, s, e);
            && next.sessions == s.sessions && next.rotations == s.rotations && next.issued == s.issued
            && rid in next.requests && next.requests[rid].Granted? && next.requests[rid].id == id
  {
    hide Judge, Outlived;
    var session := s.sessions[id];
    GrantedIff(cfg, s.sessions, id, now, session.address, session.userAgent, session.clientId);
  }

  lemma CandidateRotates(cfg: Config, s: State, family: nat, id: nat, now: Instant) returns (more: seq<Event>)
    requires MayStillRotate(cfg, s, family, id, now)
    ensures LaterRotates(cfg, s, more, family, now)
  {
    hide Apply, Enabled, Refreshable, Run, Legal;
    var newId := FreshId(s.issued);
    if InFlight(s, id) {
      var rid :| rid in s.requests && s.requests[rid].Granted? && s.requests[rid].id == id;
      CommitNow(cfg, s, rid, newId, now);
      more := [CommitRotation(rid, newId, now, now)];
      OneEvent(cfg, s, more[0]);
    } else {
      var rid := FreshId(s.requests.Keys);
      var session := s.sessions[id];
      var e := Present(rid, id, now, session.address, session.userAgent, session.clientId);
      PresentNow(cfg, s, rid, id, now);
      OneEvent(cfg, s, e);
      CommitNow(cfg, Apply(cfg, s, e), rid, newId, now);
      RunAppend(cfg, s, [e], CommitRotation(rid, newId, now, now));
      more := [e] + [CommitRotation(rid, newId, now, now)];
    }
  }

  /**
    From any reachable state, in the continuations where tokens are presented at
    `now` or later: one of them rotates a token of the family if and only if a
    session of it stands unrevoked that is still refreshable at `now` or already
    granted. In particular after a replay was judged.
   */
  lemma RotatesAgainIff(cfg: Config, run: seq<Event>, family: nat, now: Instant)
    requires Legal(cfg, INIT, run) && family in Run(cfg, INIT, run).tips
    ensures var s := Run(cfg, INIT, run);
            (exists more :: LaterRotates(cfg, s, more, family, now)) <==> CanRotate(cfg, s, family, now)
  {
    ReachableInv(cfg, run);
    var s := Run(cfg, INIT, run);
    hide Inv, MayStillRotate, Legal, Run;
    if CanRotate(cfg, s, family, now) {
      var id :| MayStillRotate(cfg, s, family, id, now);
      var more := CandidateRotates(cfg, s, family, id, now);
      assert LaterRotates(cfg, s, more, family, now);
    } else {
      hide CanRotate;
      forall more | Legal(cfg, s, more) && PresentedFrom(more, now)
        ensures !RotatedSince(s, Run(cfg, s, more), family)
      {
        NoRotationWithoutCandidate(cfg, s, more, family, now);
      }
    }
  }

  /** Whatever revoked its sessions, a family without an unrevoked one never returns. */
  lemma {:induction false} DeadFamilyStaysDead(cfg: Config, s: State, more: seq<Event>, family: nat)
    requires Inv(cfg, s) && Legal(cfg, s, more) && family in s.tips && Dead(s, family)
    ensures Dead(Run(cfg, s, more), family) && !RotatedSince(s, Run(cfg, s, more), family)
    ensures s.rotations <= Run(cfg, s, more).rotations
    decreases |more|
  {
    hide Inv, Apply, Enabled, Dead, MayRotate;
    if more != [] {
      StepKeepsInv(cfg, s, more[0]);
      RotationsAfterStep(cfg, s, more[0]);
      StillDead(cfg, s, more[0], family);
      DeadFamilyStaysDead(cfg, Apply(cfg, s, more[0]), more[1..], family);
    }
  }

  lemma StillDead(cfg: Config, s: State, e: Event, family: nat)
    requires Inv(cfg, s) && Enabled(s, e) && family in s.tips && Dead(s, family)
    ensures Dead(Apply(cfg, s, e), family)
    ensures e.CommitRotation? && MayRotate(s, e.rid, e.newId) ==> s.sessions[s.requests[e.rid].id].family != family
  {
    hide Apply, OneChain, RotatedOnce, CondemnedStaysDead, Dated, OnlyTipLives;
    forall id | id in Apply(cfg, s, e).sessions && Apply(cfg, s, e).sessions[id].family == family
      ensures Apply(cfg, s, e).sessions[id].revokedAt.Some?
    {
      RowsAfterStep(cfg, s, e, id);
    }
  }

  /** A family logged out, revoked or cleaned up in any run: nothing afterwards rotates or is granted a token of it. */
  lemma EndedFamilyNeverReturns(cfg: Config, run: seq<Event>, more: seq<Event>, family: nat, id: nat, now: Instant,
                                address: Option<Address>, agent: Option<string>, clientId: Option<string>)
    requires Legal(cfg, INIT, run) && family in Run(cfg, INIT, run).tips && Dead(Run(cfg, INIT, run), family)
    requires Legal(cfg, Run(cfg, INIT, run), more)
    ensures var s := Run(cfg, INIT, run);
            var t := Run(cfg, s, more);
            && !RotatedSince(s, t, family)
            && (id in t.sessions && t.sessions[id].family == family ==>
                  !Judge(cfg, t.sessions, id, now, address, agent, clientId).Granted?)
  {
    ReachableInv(cfg, run);
    hide Inv, Judge, Run, Legal;
    var s := Run(cfg, INIT, run);
    DeadFamilyStaysDead(cfg, s, more, family);
    GrantedIff(cfg, Run(cfg, s, more).sessions, id, now, address, agent, clientId);
  }

  /** Exactly the families a revocation ends: the one of the row it finds, if it finds one, and those dead before. */
  lemma RevocationEndsExactly(cfg: Config, s: State, rid: nat, dbNow: Instant, family: nat)
    requires Enabled(s, RevokeFamily(rid, dbNow))
    ensures var id := s.requests[rid].id;
            Dead(Apply(cfg, s, RevokeFamily(rid, dbNow)), family) <==>
              Dead(s, family) || (id in s.sessions && s.sessions[id].family == family)
  {
    var id, next := s.requests[rid].id, Apply(cfg, s, RevokeFamily(rid, dbNow));
    if Dead(next, family) && !(id in s.sessions && s.sessions[id].family == family) {
      forall other | other in s.sessions && s.sessions[other].family == family
        ensures s.sessions[other].revokedAt.Some?
      {
        assert next.sessions[other] == s.sessions[other];
      }
    }
  }

  // When a token can be granted again

  predicate Grants(cfg: Config, s: State, e: Event, id: nat) {
    && e.Present? && e.id == id
    && Judge(cfg, s.sessions, id, e.now, e.address, e.userAgent, e.clientId).Granted?
  }

  /** Some presentation in the run is granted a rotation of `id`. */
  predicate GrantsDuring(cfg: Config, s: State, run: seq<Event>, id: nat)
    requires Legal(cfg, s, run)
    decreases |run|
  {
    run != [] && (Grants(cfg, s, run[0], id) || GrantsDuring(cfg, Apply(cfg, s, run[0]), run[1..], id))
  }

  predicate Grantable(cfg: Config, s: State, id: nat, now: Instant) {
    id in s.sessions && Refreshable(s.sessions[id], now, cfg.policy)
  }

  lemma GrantableBeforeStep(cfg: Config, s: State, e: Event, id: nat, now: Instant)
    requires OnlyTipLives(s) && Enabled(s, e) && id in s.issued
    requires Grantable(cfg, Apply(cfg, s, e), id, now)
    ensures Grantable(cfg, s, id, now)
  {
    hide Apply, OnlyTipLives;
    RowsAfterStep(cfg, s, e, id);
  }

  lemma {:induction false} NeverGrantedOnceRefused(cfg: Config, s: State, more: seq<Event>, id: nat, now: Instant)
    requires Inv(cfg, s) && Legal(cfg, s, more) && PresentedFrom(more, now) && id in s.issued
    requires !Grantable(cfg, s, id, now)
    ensures !GrantsDuring(cfg, s, more, id)
    decreases |more|
  {
    if more != [] {
      hide OneChain, RotatedOnce, CondemnedStaysDead, Dated, OnlyTipLives, Apply, Enabled, Refreshable, Judge;
      var e := more[0];
      StepKeepsInv(cfg, s, e);
      RotationsAfterStep(cfg, s, e);
      if Grantable(cfg, Apply(cfg, s, e), id, now) {
        GrantableBeforeStep(cfg, s, e, id, now);
      }
      if Grants(cfg, s, e, id) {
        GrantedIff(cfg, s.sessions, id, e.now, e.address, e.userAgent, e.clientId);
        RefreshableEarlier(s.sessions[id], now, e.now, cfg.policy);
      }
      assert forall i :: 0 <= i < |more[1..]| ==> more[1..][i] == more[i + 1];
      NeverGrantedOnceRefused(cfg, Apply(cfg, s, e), more[1..], id, now);
    }
  }

  ghost predicate LaterGrants(cfg: Config, s: State, more: seq<Event>, id: nat, now: Instant) {
    Legal(cfg, s, more) && PresentedFrom(more, now) && GrantsDuring(cfg, s, more, id)
  }

  /**
    From any reachable state, in particular one where its token was granted
    before: a presentation at `now` or later is granted the token in some
    continuation if and only if its row stands unrevoked and refreshable at `now`.
   */
  lemma GrantedAgainIff(cfg: Config, run: seq<Event>, id: nat, now: Instant)
    requires Legal(cfg, INIT, run) && id in Run(cfg, INIT, run).issued
    ensures var s := Run(cfg, INIT, run);
            (exists more :: LaterGrants(cfg, s, more, id, now)) <==> Grantable(cfg, s, id, now)
  {
    ReachableInv(cfg, run);
    var s := Run(cfg, INIT, run);
    hide Inv, Refreshable, Run;
    if Grantable(cfg, s, id, now) {
      var more := GrantNow(cfg, s, id, now);
      assert LaterGrants(cfg, s, more, id, now);
    } else {
      hide Legal, GrantsDuring, Grantable;
      forall more | Legal(cfg, s, more) && PresentedFrom(more, now)
        ensures !GrantsDuring(cfg, s, more, id)
      {
        NeverGrantedOnceRefused(cfg, s, more, id, now);
      }
    }
  }

  lemma GrantNow(cfg: Config, s: State, id: nat, now: Instant) returns (more: seq<Event>)
    requires Grantable(cfg, s, id, now)
    ensures LaterGrants(cfg, s, more, id, now)
  {
    hide Apply, Enabled, Refreshable, Judge;
    var rid := FreshId(s.requests.Keys);
    var session := s.sessions[id];
    var e := Present(rid, id, now, session.address, session.userAgent, session.clientId);
    PresentNow(cfg, s, rid, id, now);
    OneEvent(cfg, s, e);
    GrantedIff(cfg, s.sessions, id, now, session.address, session.userAgent, session.clientId);
    more := [e];
  }

  // Where judging and committing differ

  const DAY: nat := 86_400
  const SAMPLE := Config(RefreshPolicy(NANOS, 30 * DAY, false), 20 * DAY, 20 * DAY)

  /** Session 1 of family 7 signed in, and its token granted a rotation. */
  ghost predicate SignedIn(s: State) {
    && s.sessions.Keys == {1} && s.sessions[1].family == 7 && s.sessions[1].revokedAt.None?
    && s.sessions[1].clientId == None && s.sessions[1].expiresAt == 20 * DAY * NANOS
    && s.sessions[1].familyCreatedAt == 0
    && s.requests == map[10 := Granted(1, s.sessions[1], None, None)]
    && s.issued == {1} && s.rotations == []
  }

  lemma OneGranted() returns (run: seq<Event>)
    ensures Legal(SAMPLE, INIT, run) && SignedIn(Run(SAMPLE, INIT, run))
  {
    var e0, e1 := SignIn(1, 7, 0, 0, None, None, None, false), Present(10, 1, 1, None, None, None);
    RunAppend(SAMPLE, INIT, [], e0);
    assert [] + [e0] == [e0];
    RunAppend(SAMPLE, INIT, [e0], e1);
    run := [e0, e1];
    assert [e0] + [e1] == run;
  }

  /** Two requests granted session 1; `settled` goes on until one of them has rotated it and the other has lost. */
  ghost predicate GrantsOneTokenTwice(judged: seq<Event>, settled: seq<Event>) {
    && Legal(SAMPLE, INIT, judged) && Legal(SAMPLE, INIT, settled) && judged <= settled
    && var s, t := Run(SAMPLE, INIT, judged), Run(SAMPLE, INIT, settled);
    && 10 in s.requests && s.requests[10].Granted? && s.requests[10].id == 1
    && 11 in s.requests && s.requests[11].Granted? && s.requests[11].id == 1
    && t.rotations == [Rotation(1, 2, 7)] && 11 in t.requests && t.requests[11].LostRace?
  }

  /** Two refreshes judged before either commits are both granted the same token; one of them then loses. */
  lemma GrantedTwice()
    ensures exists judged, settled :: GrantsOneTokenTwice(judged, settled)
  {
    hide Run, Legal, CappedExpiry;
    var judged := OneGranted();
    RunAppend(SAMPLE, INIT, judged, Present(11, 1, 2, None, None, None));
    judged := judged + [Present(11, 1, 2, None, None, None)];
    RunAppend(SAMPLE, INIT, judged, CommitRotation(10, 2, 3, 3));
    var settled := judged + [CommitRotation(10, 2, 3, 3)];
    RunAppend(SAMPLE, INIT, settled, CommitRotation(11, 3, 4, 4));
    settled := settled + [CommitRotation(11, 3, 4, 4)];
    assert GrantsOneTokenTwice(judged, settled);
  }

  /** The granted rotation committed: session 2 in place of session 1. */
  ghost predicate Rotated(s: State) {
    && s.sessions.Keys == {1, 2} && s.sessions[1].revokedAt.Some? && s.sessions[1].rotatedAt == Some(3)
    && s.sessions[1].clientId == s.sessions[2].clientId == None
    && s.sessions[2].family == 7 && s.sessions[2].revokedAt.None? && s.sessions[2].replacedBy.None?
    && s.sessions[2].familyCreatedAt == 0 && s.sessions[2].expiresAt == 20 * DAY * NANOS + 3
    && s.requests == map[10 := Done]
    && s.issued == {1, 2} && s.rotations == [Rotation(1, 2, 7)]
  }

  lemma OneRotated() returns (run: seq<Event>)
    ensures Legal(SAMPLE, INIT, run) && Rotated(Run(SAMPLE, INIT, run))
  {
    run := OneGranted();
    hide Run, Legal;
    RunAppend(SAMPLE, INIT, run, CommitRotation(10, 2, 3, 3));
    run := run + [CommitRotation(10, 2, 3, 3)];
  }

  const LATE: Instant := 8 * DAY * NANOS

  /** Session 2 unrevoked and refreshable at `LATE`, the replay of session 1 judged; whether row 1 still exists is open. */
  ghost predicate ReplayJudged(s: State) {
    && 2 in s.sessions && s.sessions.Keys <= {1, 2} && s.sessions[2].clientId == None
    && s.sessions[2].family == 7 && s.sessions[2].revokedAt.None? && s.sessions[2].replacedBy.None?
    && s.sessions[2].familyCreatedAt == 0 && s.sessions[2].expiresAt == 20 * DAY * NANOS + 3
    && s.requests.Keys == {10, 11} && s.issued == {1, 2} && s.rotations == [Rotation(1, 2, 7)]
  }

  lemma OneReplayed() returns (run: seq<Event>)
    ensures Legal(SAMPLE, INIT, run) && ReplayJudged(Run(SAMPLE, INIT, run))
    ensures Run(SAMPLE, INIT, run).requests[11] == Condemning(1)
  {
    run := OneRotated();
    hide Run, Legal;
    RunAppend(SAMPLE, INIT, run, Present(11, 1, LATE, None, None, None));
    run := run + [Present(11, 1, LATE, None, None, None)];
  }

  /** From such a state session 2 is rotated into session 3. */
  lemma TipRotates(run: seq<Event>) returns (longer: seq<Event>)
    requires Legal(SAMPLE, INIT, run) && ReplayJudged(Run(SAMPLE, INIT, run))
    ensures run <= longer && Legal(SAMPLE, INIT, longer)
    ensures var s, t := Run(SAMPLE, INIT, run), Run(SAMPLE, INIT, longer);
            && t.rotations == [Rotation(1, 2, 7), Rotation(2, 3, 7)]
            && 3 in t.sessions && t.sessions[3].revokedAt.None?
            && 11 in t.requests && t.requests[11] == s.requests[11]
  {
    hide Run, Legal, CappedExpiry;
    RunAppend(SAMPLE, INIT, run, Present(12, 2, LATE, None, None, None));
    longer := run + [Present(12, 2, LATE, None, None, None)];
    RunAppend(SAMPLE, INIT, longer, CommitRotation(12, 3, LATE, LATE));
    longer := longer + [CommitRotation(12, 3, LATE, LATE)];
  }

  /** A replay of session 1 awaits its revocation, and session 2 of the same family has been rotated meanwhile. */
  ghost predicate RotatesDespiteReplay(run: seq<Event>) {
    && Legal(SAMPLE, INIT, run)
    && var s := Run(SAMPLE, INIT, run);
    && 11 in s.requests && s.requests[11] == Condemning(1)
    && s.rotations == [Rotation(1, 2, 7), Rotation(2, 3, 7)]
    && 3 in s.sessions && s.sessions[3].revokedAt.None?
  }

  /** A replay judged but not yet acted on does not stop a rotation: the family ends when the revocation commits. */
  lemma RotatedBetweenReplayAndRevocation()
    ensures exists run :: RotatesDespiteReplay(run)
  {
    hide Run, Legal, ReplayJudged;
    var run := OneReplayed();
    run := TipRotates(run);
    assert RotatesDespiteReplay(run);
  }

  /** A revocation that finds its row cleaned up, in the middle of a run that rotates the family afterwards. */
  ghost predicate SurvivesRevocation(before: seq<Event>, run: seq<Event>) {
    && Legal(SAMPLE, INIT, before) && Legal(SAMPLE, INIT, run)
    && |run| > |before| && before == run[..|before|] && run[|before|].RevokeFamily? && run[|before|].rid == 11
    && var s, t := Run(SAMPLE, INIT, before), Run(SAMPLE, INIT, run);
    && 11 in s.requests && s.requests[11] == Condemning(1) && 1 !in s.sessions
    && s.rotations == [Rotation(1, 2, 7)] && t.rotations == [Rotation(1, 2, 7), Rotation(2, 3, 7)]
  }

  /** A replayed row that retention deletes before the revocation reaches it takes the revocation with it. */
  lemma CleanedUpReplayEndsNothing()
    ensures exists before, run :: SurvivesRevocation(before, run)
  {
    hide Run, Legal;
    var before := OneReplayed();
    RunAppend(SAMPLE, INIT, before, Cleanup({1}));
    before := before + [Cleanup({1})];
    RunAppend(SAMPLE, INIT, before, RevokeFamily(11, LATE));
    var run := TipRotates(before + [RevokeFamily(11, LATE)]);
    assert before == run[..|before|] && run[|before|] == RevokeFamily(11, LATE);
    assert SurvivesRevocation(before, run);
  }
}
