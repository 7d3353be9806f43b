/**
  The refresh protocol over whole runs, requests interleaved at will.

  A refresh is not one transaction: it reads the session and judges it, then
  rotates it in a transaction that looks at the row again, and on losing a race
  reads it once more before deciding whether to revoke the family. Each of these
  is one event here, so any number of refreshes, logouts and clean-ups may run
  between two of them. Each SQL statement or transaction is atomic.

  A token is identified with the session it opens: `token_hash` is unique.
 */
module SessionFamilies {
  import opened Basics
  import opened Sessions
  import opened Time

  datatype Config = Config(policy: RefreshPolicy, shortTtlSecs: nat, rememberTtlSecs: nat)

  /** The refresh lifetime of a session, as its sign-in chose. */
  function TtlSecs(cfg: Config, rememberMe: bool): nat {
    if rememberMe then cfg.rememberTtlSecs else cfg.shortTtlSecs
  }

  /** Where a refresh request stands between two database operations. */
  datatype Phase =
    | Granted(id: nat, seen: Session, address: Option<Address>, userAgent: Option<string>)
    | Comparing(id: nat, seen: Session, address: Option<Address>, userAgent: Option<string>)
    | LostRace(id: nat, address: Option<Address>, userAgent: Option<string>)
    | Condemning(id: nat)
    | Done

  datatype Rotation = Rotation(source: nat, target: nat, family: nat)

  /**
    The sessions table and the requests in flight; then the history of the run:
    every id and family ever issued, the session each family last issued, the
    committed rotations, and how many of them preceded the revocation of a family.
   */
  datatype State = State(
    sessions: map<nat, Session>,
    requests: map<nat, Phase>,
    issued: set<nat>,
    tips: map<nat, nat>,
    rotations: seq<Rotation>,
    condemned: map<nat, nat>)

  const INIT := State(map[], map[], {}, map[], [], map[])

  datatype Event =
    | SignIn(id: nat, family: nat, appNow: Instant, dbNow: Instant,
             address: Option<Address>, userAgent: Option<string>, clientId: Option<string>, rememberMe: bool)
    | Present(rid: nat, id: nat, now: Instant,
              address: Option<Address>, userAgent: Option<string>, clientId: Option<string>)
    | Compare(rid: nat)
    | CommitRotation(rid: nat, newId: nat, now: Instant, dbNow: Instant)
    | Reread(rid: nat, now: Instant)
    | RevokeFamily(rid: nat, dbNow: Instant)
    | Revoke(ids: set<nat>, dbNow: Instant)
    | Cleanup(ids: set<nat>)
    | Abandon(rid: nat)

  /** Whether the session that replaced `s` was opened from the network and user agent now asking. */
  predicate RotatedByThisClient(sessions: map<nat, Session>, s: Session, address: Option<Address>, agent: Option<string>) {
    && s.replacedBy.Some? && s.replacedBy.value in sessions
    && var next := sessions[s.replacedBy.value];
    && (match (next.address, address)
        case (None, None) => true
        case (Some(a), Some(b)) => a.network == b.network
        case _ => false)
    && next.userAgent == agent
  }

  /** What reading and judging a presented token leads to. */
  function Judge(cfg: Config, sessions: map<nat, Session>, id: nat, now: Instant,
                 address: Option<Address>, agent: Option<string>, clientId: Option<string>): Phase
  {
    if id !in sessions || sessions[id].clientId != clientId then Done
    else
      match RefreshVerdict(sessions[id], now, address, cfg.policy)
      case Rotate => Granted(id, sessions[id], address, agent)
      case ConcurrentRefresh => Comparing(id, sessions[id], address, agent)
      case Replay => Condemning(id)
      case Expired => Done
      case AddressMismatch => Done
  }

  /** The session a rotation of `replaced` inserts. */
  function Successor(cfg: Config, replaced: Session, now: Instant, address: Option<Address>, agent: Option<string>): Session {
    replaced.(expiresAt := CappedExpiry(now, TtlSecs(cfg, replaced.rememberMe), replaced.familyCreatedAt, cfg.policy.maxLifetimeSecs),
              revokedAt := None, rotatedAt := None, compromisedAt := None, replacedBy := None,
              address := address, userAgent := agent)
  }

  function OrElse(a: Option<Instant>, b: Instant): Option<Instant> {
    if a.Some? then a else Some(b)
  }

  predicate Enabled(s: State, e: Event) {
    match e
    case SignIn(id, family, _, _, _, _, _, _) => id !in s.issued && family !in s.tips
    case Present(rid, _, _, _, _, _) => rid !in s.requests
    case Compare(rid) => rid in s.requests && s.requests[rid].Comparing?
    case CommitRotation(rid, newId, _, _) => rid in s.requests && s.requests[rid].Granted? && newId !in s.issued
    case Reread(rid, _) => rid in s.requests && s.requests[rid].LostRace?
    case RevokeFamily(rid, _) => rid in s.requests && s.requests[rid].Condemning?
    case Revoke(_, _) => true
    // The foreign key clears `replaced_by_session_id` of a row left behind, which its own constraint
    // forbids: a clean-up that would do so fails as a whole.
    case Cleanup(ids) => forall id :: id in s.sessions && id !in ids ==>
                           (s.sessions[id].replacedBy.Some? ==> s.sessions[id].replacedBy.value !in ids)
    case Abandon(rid) => rid in s.requests
  }

  function WithPhase(s: State, rid: nat, phase: Phase): State {
    s.(requests := s.requests[rid := phase])
  }

  function Apply(cfg: Config, s: State, e: Event): State
    requires Enabled(s, e)
  {
    match e
    case SignIn(id, family, appNow, dbNow, address, agent, clientId, rememberMe) =>
      var expiresAt := CappedExpiry(appNow, TtlSecs(cfg, rememberMe), appNow, cfg.policy.maxLifetimeSecs);
      s.(sessions := s.sessions[id := Session(family, expiresAt, dbNow, None, None, None, None, address, agent, clientId, rememberMe)],
         issued := s.issued + {id}, tips := s.tips[family := id])
    case Present(rid, id, now, address, agent, clientId) =>
      WithPhase(s, rid, Judge(cfg, s.sessions, id, now, address, agent, clientId))
    case Compare(rid) =>
      var p := s.requests[rid];
      WithPhase(s, rid, if RotatedByThisClient(s.sessions, p.seen, p.address, p.userAgent) then Done else Condemning(p.id))
    case CommitRotation(rid, newId, now, dbNow) =>
      var p := s.requests[rid];
      if p.id in s.sessions && s.sessions[p.id].revokedAt.None? then CommitRotated(cfg, s, rid, newId, now, dbNow)
      else WithPhase(s, rid, LostRace(p.id, p.address, p.userAgent))
    case Reread(rid, now) =>
      var p := s.requests[rid];
      var excused := && p.id in s.sessions
                     && RotatedWithin(s.sessions[p.id], cfg.policy.reuseGrace, now)
                     && RotatedByThisClient(s.sessions, s.sessions[p.id], p.address, p.userAgent);
      WithPhase(s, rid, if excused then Done else Condemning(p.id))
    case RevokeFamily(rid, dbNow) =>
      var id := s.requests[rid].id;
      var done := WithPhase(s, rid, Done);
      // The database function raises an exception for a session cleaned up meanwhile.
      if id in s.sessions then Condemn(done, s.sessions[id].family, dbNow) else done
    case Revoke(ids, dbNow) =>
      s.(sessions := map id | id in s.sessions ::
           if id in ids then s.sessions[id].(revokedAt := OrElse(s.sessions[id].revokedAt, dbNow)) else s.sessions[id])
    case Cleanup(ids) => s.(sessions := s.sessions - ids)
    case Abandon(rid) => WithPhase(s, rid, Done)
  }

  /** The rotation transaction, once it holds the row and finds it unrevoked. */
  function CommitRotated(cfg: Config, s: State, rid: nat, newId: nat, now: Instant, dbNow: Instant): State
    requires rid in s.requests && s.requests[rid].Granted? && s.requests[rid].id in s.sessions
  {
    var p := s.requests[rid];
    var replaced := s.sessions[p.id];
    WithPhase(s, rid, Done)
      .(sessions := s.sessions[p.id := replaced.(revokedAt := Some(dbNow), rotatedAt := Some(dbNow), replacedBy := Some(newId))]
                              [newId := Successor(cfg, replaced, now, p.address, p.userAgent)],
        issued := s.issued + {newId},
        tips := s.tips[replaced.family := newId],
        rotations := s.rotations + [Rotation(p.id, newId, replaced.family)])
  }

  /** `revoke_session_family`: every session of the family revoked and marked compromised. */
  function Condemn(s: State, family: nat, dbNow: Instant): State {
    s.(sessions := map id | id in s.sessions ::
         var session := s.sessions[id];
         if session.family == family then
           session.(revokedAt := OrElse(session.revokedAt, dbNow), compromisedAt := OrElse(session.compromisedAt, dbNow))
         else session,
       condemned := if family in s.condemned then s.condemned else s.condemned[family := |s.rotations|])
  }

  // Reachable states

  predicate Legal(cfg: Config, s: State, run: seq<Event>)
    decreases |run|
  {
    run != [] ==> Enabled(s, run[0]) && Legal(cfg, Apply(cfg, s, run[0]), run[1..])
  }

  function Run(cfg: Config, s: State, run: seq<Event>): State
    requires Legal(cfg, s, run)
    decreases |run|
  {
    if run == [] then s else Run(cfg, Apply(cfg, s, run[0]), run[1..])
  }

  /** Only the session its family issued last may be unrevoked. */
  predicate OnlyTipLives(s: State) {
    && s.sessions.Keys <= s.issued
    && (forall family :: family in s.tips ==> s.tips[family] in s.issued)
    && forall id :: id in s.sessions ==>
         && s.sessions[id].family in s.tips
         && (s.sessions[id].revokedAt.None? ==> s.tips[s.sessions[id].family] == id)
  }

  /** A rotated session was issued, and is revoked for as long as its row exists; no session is rotated twice. */
  predicate RotatedOnce(s: State) {
    && (forall k :: 0 <= k < |s.rotations| ==>
          && s.rotations[k].source in s.issued && s.rotations[k].family in s.tips
          && (s.rotations[k].source in s.sessions ==> s.sessions[s.rotations[k].source].revokedAt.Some?))
    && (forall k, l :: 0 <= k < l < |s.rotations| ==> s.rotations[k].source != s.rotations[l].source)
  }

  predicate LastOfFamily(rotations: seq<Rotation>, k: nat)
    requires k < |rotations|
  {
    forall l :: k < l < |rotations| ==> rotations[l].family != rotations[k].family
  }

  predicate Consecutive(rotations: seq<Rotation>, k: nat, l: nat)
    requires k < l < |rotations|
  {
    && rotations[k].family == rotations[l].family
    && forall m :: k < m < l ==> rotations[m].family != rotations[k].family
  }

  /** The rotations of a family form one chain, which ends at its tip. */
  predicate OneChain(rotations: seq<Rotation>, tips: map<nat, nat>) {
    && (forall k :: 0 <= k < |rotations| ==> rotations[k].family in tips)
    && (forall k :: 0 <= k < |rotations| && LastOfFamily(rotations, k) ==>
          tips[rotations[k].family] == rotations[k].target)
    && (forall k, l :: 0 <= k < l < |rotations| && Consecutive(rotations, k, l) ==>
          rotations[l].source == rotations[k].target)
  }

  /** A condemned family holds only revoked, compromised sessions and has rotated none since. */
  predicate CondemnedStaysDead(s: State) {
    && (forall id :: id in s.sessions && s.sessions[id].family in s.condemned ==>
          s.sessions[id].revokedAt.Some? && s.sessions[id].compromisedAt.Some?)
    && (forall family :: family in s.condemned ==> family in s.tips && s.condemned[family] <= |s.rotations|)
    && (forall family, k :: family in s.condemned && s.condemned[family] <= k < |s.rotations| ==>
          s.rotations[k].family != family)
  }

  /** Sessions of one family share its start, and every session a rotation issued is dated by the cap. */
  predicate Dated(cfg: Config, s: State) {
    && (forall i, j :: i in s.sessions && j in s.sessions && s.sessions[i].family == s.sessions[j].family ==>
          s.sessions[i].familyCreatedAt == s.sessions[j].familyCreatedAt)
    && (forall k :: 0 <= k < |s.rotations| && s.rotations[k].target in s.sessions ==>
          Capped(s.sessions[s.rotations[k].target], cfg.policy.maxLifetimeSecs))
    && (forall k :: 0 <= k < |s.rotations| ==> s.rotations[k].target in s.issued)
  }

  predicate Inv(cfg: Config, s: State) {
    OnlyTipLives(s) && RotatedOnce(s) && OneChain(s.rotations, s.tips) && CondemnedStaysDead(s) && Dated(cfg, s)
  }

  /** Rows only revoked, marked or deleted; nothing issued. */
  predicate Tightened(s: State, next: State) {
    && next.issued == s.issued && next.tips == s.tips && next.rotations == s.rotations
    && next.sessions.Keys <= s.sessions.Keys
    && forall id :: id in next.sessions ==>
         && var before, after := s.sessions[id], next.sessions[id];
         && after.family == before.family && after.familyCreatedAt == before.familyCreatedAt
         && after.expiresAt == before.expiresAt
         && (before.revokedAt.Some? ==> after.revokedAt.Some?)
         && (before.compromisedAt.Some? ==> after.compromisedAt.Some?)
  }

  lemma TighteningKeepsIssue(cfg: Config, s: State, next: State)
    requires Inv(cfg, s) && Tightened(s, next)
    ensures OnlyTipLives(next) && RotatedOnce(next)
  {
    hide Dated, OneChain, CondemnedStaysDead, Capped;
  }

  lemma TighteningKeepsDates(cfg: Config, s: State, next: State)
    requires Inv(cfg, s) && Tightened(s, next)
    ensures Dated(cfg, next) && OneChain(next.rotations, next.tips)
    ensures next.condemned == s.condemned ==> CondemnedStaysDead(next)
  {
    hide OneChain, OnlyTipLives, RotatedOnce;
  }

  lemma TighteningKeepsInv(cfg: Config, s: State, next: State)
    requires Inv(cfg, s) && Tightened(s, next) && next.condemned == s.condemned
    ensures Inv(cfg, next)
  {
    hide Dated, OneChain, CondemnedStaysDead, OnlyTipLives, RotatedOnce;
    TighteningKeepsIssue(cfg, s, next);
    TighteningKeepsDates(cfg, s, next);
  }

  lemma CondemnKeepsDead(cfg: Config, s: State, family: nat, dbNow: Instant)
    requires CondemnedStaysDead(s) && family in s.tips
    ensures CondemnedStaysDead(Condemn(s, family, dbNow))
  {
  }

  lemma CondemnKeepsInv(cfg: Config, s: State, family: nat, dbNow: Instant)
    requires Inv(cfg, s) && family in s.tips
    ensures Inv(cfg, Condemn(s, family, dbNow))
  {
    var next := Condemn(s, family, dbNow);
    assert Tightened(s, next);
    hide Dated, OneChain, OnlyTipLives, RotatedOnce, Condemn, CondemnedStaysDead, Tightened;
    TighteningKeepsIssue(cfg, s, next);
    TighteningKeepsDates(cfg, s, next);
    CondemnKeepsDead(cfg, s, family, dbNow);
  }

  lemma SignInKeepsIssue(cfg: Config, s: State, e: Event)
    requires OnlyTipLives(s) && RotatedOnce(s) && e.SignIn? && Enabled(s, e)
    ensures OnlyTipLives(Apply(cfg, s, e)) && RotatedOnce(Apply(cfg, s, e))
  {
  }

  lemma SignInKeepsDates(cfg: Config, s: State, e: Event)
    requires Inv(cfg, s) && e.SignIn? && Enabled(s, e)
    ensures Dated(cfg, Apply(cfg, s, e)) && CondemnedStaysDead(Apply(cfg, s, e))
    ensures OneChain(s.rotations, Apply(cfg, s, e).tips)
  {
    hide CappedExpiry, Capped;
  }

  lemma SignInKeepsInv(cfg: Config, s: State, e: Event)
    requires Inv(cfg, s) && e.SignIn? && Enabled(s, e)
    ensures Inv(cfg, Apply(cfg, s, e))
  {
    hide Dated, OneChain, CondemnedStaysDead, OnlyTipLives, RotatedOnce;
    SignInKeepsIssue(cfg, s, e);
    SignInKeepsDates(cfg, s, e);
  }

  lemma RequestsKeepInv(cfg: Config, s: State, rid: nat, phase: Phase)
    requires Inv(cfg, s)
    ensures Inv(cfg, WithPhase(s, rid, phase))
  {
  }

  predicate MayRotate(s: State, rid: nat, newId: nat) {
    && rid in s.requests && s.requests[rid].Granted? && newId !in s.issued
    && s.requests[rid].id in s.sessions && s.sessions[s.requests[rid].id].revokedAt.None?
  }

  lemma RotationKeepsIssue(cfg: Config, s: State, rid: nat, newId: nat, now: Instant, dbNow: Instant)
    requires OnlyTipLives(s) && RotatedOnce(s) && MayRotate(s, rid, newId)
    ensures var next := CommitRotated(cfg, s, rid, newId, now, dbNow); OnlyTipLives(next) && RotatedOnce(next)
  {
    hide CappedExpiry;
  }

  lemma RotationKeepsDead(cfg: Config, s: State, rid: nat, newId: nat, now: Instant, dbNow: Instant)
    requires OnlyTipLives(s) && CondemnedStaysDead(s) && MayRotate(s, rid, newId)
    ensures CondemnedStaysDead(CommitRotated(cfg, s, rid, newId, now, dbNow))
  {
    hide CappedExpiry;
  }

  lemma RotationKeepsDates(cfg: Config, s: State, rid: nat, newId: nat, now: Instant, dbNow: Instant)
    requires OnlyTipLives(s) && Dated(cfg, s) && MayRotate(s, rid, newId)
    ensures Dated(cfg, CommitRotated(cfg, s, rid, newId, now, dbNow))
  {
    hide CappedExpiry, LifetimeEnd;
  }

  lemma ChainGrowsAtTip(rotations: seq<Rotation>, tips: map<nat, nat>, r: Rotation)
    requires OneChain(rotations, tips) && r.family in tips && r.source == tips[r.family]
    ensures OneChain(rotations + [r], tips[r.family := r.target])
  {
    var next, n := rotations + [r], |rotations|;
    forall k | 0 <= k < n && Consecutive(next, k, n)
      ensures LastOfFamily(rotations, k)
    {
      assert forall m :: k < m < n ==> next[m] == rotations[m];
    }
    forall k | 0 <= k < n && LastOfFamily(next, k)
      ensures LastOfFamily(rotations, k) && next[k].family != r.family
    {
      assert next[n] == r;
      assert forall m :: k < m < n ==> next[m] == rotations[m];
    }
    forall k, l | 0 <= k < l < n && Consecutive(next, k, l)
      ensures Consecutive(rotations, k, l)
    {
      assert forall m :: k < m < l ==> next[m] == rotations[m];
    }
  }

  lemma FamilyHasTip(cfg: Config, s: State, id: nat)
    requires Inv(cfg, s) && id in s.sessions
    ensures s.sessions[id].family in s.tips
    ensures s.sessions[id].revokedAt.None? ==> s.tips[s.sessions[id].family] == id
  {
  }

  lemma RotationKeepsInv(cfg: Config, s: State, rid: nat, newId: nat, now: Instant, dbNow: Instant)
    requires Inv(cfg, s) && MayRotate(s, rid, newId)
    ensures Inv(cfg, CommitRotated(cfg, s, rid, newId, now, dbNow))
  {
    var p := s.requests[rid];
    FamilyHasTip(cfg, s, p.id);
    hide Dated, OneChain, CondemnedStaysDead, OnlyTipLives, RotatedOnce, Successor;
    RotationKeepsIssue(cfg, s, rid, newId, now, dbNow);
    RotationKeepsDead(cfg, s, rid, newId, now, dbNow);
    RotationKeepsDates(cfg, s, rid, newId, now, dbNow);
    ChainGrowsAtTip(s.rotations, s.tips, Rotation(p.id, newId, s.sessions[p.id].family));
  }

  lemma StepKeepsInv(cfg: Config, s: State, e: Event)
    requires Inv(cfg, s) && Enabled(s, e)
    ensures Inv(cfg, Apply(cfg, s, e))
  {
    hide Inv;
    match e
    case SignIn(_, _, _, _, _, _, _, _) => SignInKeepsInv(cfg, s, e);
    case Revoke(_, _) => TighteningKeepsInv(cfg, s, Apply(cfg, s, e));
    case Cleanup(_) => TighteningKeepsInv(cfg, s, Apply(cfg, s, e));
    case RevokeFamily(rid, dbNow) =>
      RequestsKeepInv(cfg, s, rid, Done);
      var id := s.requests[rid].id;
      if id in s.sessions {
        FamilyHasTip(cfg, s, id);
        CondemnKeepsInv(cfg, WithPhase(s, rid, Done), s.sessions[id].family, dbNow);
      }
    case CommitRotation(rid, newId, now, dbNow) =>
      if MayRotate(s, rid, newId) {
        RotationKeepsInv(cfg, s, rid, newId, now, dbNow);
      } else {
        RequestsKeepInv(cfg, s, rid, Apply(cfg, s, e).requests[rid]);
      }
    case _ => RequestsKeepInv(cfg, s, e.rid, Apply(cfg, s, e).requests[e.rid]);
  }

  lemma {:induction false} RunKeepsInv(cfg: Config, s: State, run: seq<Event>)
    requires Inv(cfg, s) && Legal(cfg, s, run)
    ensures Inv(cfg, Run(cfg, s, run))
    decreases |run|
  {
    if run != [] {
      hide Inv, Apply, Enabled;
      StepKeepsInv(cfg, s, run[0]);
      RunKeepsInv(cfg, Apply(cfg, s, run[0]), run[1..]);
    }
  }

  lemma ReachableInv(cfg: Config, run: seq<Event>)
    requires Legal(cfg, INIT, run)
    ensures Inv(cfg, Run(cfg, INIT, run))
  {
    RunKeepsInv(cfg, INIT, run);
  }

  // What every run guarantees

  /** At no point of any run do two sessions of a family both stand unrevoked. */
  lemma AtMostOneUnrevoked(cfg: Config, run: seq<Event>, i: nat, j: nat)
    requires Legal(cfg, INIT, run)
    requires var sessions := Run(cfg, INIT, run).sessions;
             && i in sessions && j in sessions && sessions[i].family == sessions[j].family
             && sessions[i].revokedAt.None? && sessions[j].revokedAt.None?
    ensures i == j
  {
    ReachableInv(cfg, run);
    FamilyHasTip(cfg, Run(cfg, INIT, run), i);
    FamilyHasTip(cfg, Run(cfg, INIT, run), j);
  }

  /** However requests interleave, no token is rotated twice, and a family's rotations form a single chain. */
  lemma NoTokenRotatesTwice(cfg: Config, run: seq<Event>, k: nat, l: nat)
    requires Legal(cfg, INIT, run) && k < l < |Run(cfg, INIT, run).rotations|
    ensures var rotations := Run(cfg, INIT, run).rotations;
            && rotations[k].source != rotations[l].source
            && (Consecutive(rotations, k, l) ==> rotations[l].source == rotations[k].target)
  {
    ReachableInv(cfg, run);
  }

  /** Once a token's rotation has committed, no presentation of it is granted another. */
  lemma RotatedTokenIsNotGranted(cfg: Config, run: seq<Event>, k: nat, now: Instant,
                                 address: Option<Address>, agent: Option<string>, clientId: Option<string>)
    requires Legal(cfg, INIT, run) && k < |Run(cfg, INIT, run).rotations|
    ensures var s := Run(cfg, INIT, run);
            !Judge(cfg, s.sessions, s.rotations[k].source, now, address, agent, clientId).Granted?
  {
    ReachableInv(cfg, run);
  }

  lemma RevocationOutlivesStep(cfg: Config, s: State, e: Event, family: nat)
    requires Inv(cfg, s) && Enabled(s, e) && family in s.condemned
    ensures var next := Apply(cfg, s, e);
            && family in next.condemned && next.condemned[family] == s.condemned[family]
            && s.rotations <= next.rotations
  {
    hide Inv, Judge, CappedExpiry, Successor, RotatedByThisClient, RotatedWithin;
  }

  lemma {:induction false} RevocationOutlivesRun(cfg: Config, s: State, run: seq<Event>, family: nat)
    requires Inv(cfg, s) && Legal(cfg, s, run) && family in s.condemned
    ensures var t := Run(cfg, s, run);
            && Inv(cfg, t) && family in t.condemned && t.condemned[family] == s.condemned[family]
            && s.rotations <= t.rotations
    decreases |run|
  {
    if run != [] {
      hide Inv, Apply, Enabled;
      StepKeepsInv(cfg, s, run[0]);
      RevocationOutlivesStep(cfg, s, run[0], family);
      RevocationOutlivesRun(cfg, Apply(cfg, s, run[0]), run[1..], family);
    }
  }

  /**
    From the moment a replay's revocation commits, in every continuation: the
    family holds no unrevoked session, none of its tokens is rotated again (in
    flight requests included), and each of them still stored is judged a replay.
   */
  lemma ReplayEndsTheFamily(cfg: Config, run: seq<Event>, rid: nat, dbNow: Instant, more: seq<Event>)
    requires Legal(cfg, INIT, run)
    requires var s := Run(cfg, INIT, run);
             && rid in s.requests && s.requests[rid].Condemning? && s.requests[rid].id in s.sessions
             && Legal(cfg, Apply(cfg, s, RevokeFamily(rid, dbNow)), more)
    ensures var s := Run(cfg, INIT, run);
            var family := s.sessions[s.requests[rid].id].family;
            var t := Run(cfg, Apply(cfg, s, RevokeFamily(rid, dbNow)), more);
            && (forall k :: |s.rotations| <= k < |t.rotations| ==> t.rotations[k].family != family)
            && (forall id :: id in t.sessions && t.sessions[id].family == family ==>
                  && t.sessions[id].revokedAt.Some?
                  && forall now: Instant, ip: Option<Address> :: RefreshVerdict(t.sessions[id], now, ip, cfg.policy) == Replay)
  {
    ReachableInv(cfg, run);
    var s := Run(cfg, INIT, run);
    var e := RevokeFamily(rid, dbNow);
    var family := s.sessions[s.requests[rid].id].family;
    StepKeepsInv(cfg, s, e);
    var revoked := Apply(cfg, s, e);
    assert family in revoked.condemned && revoked.condemned[family] <= |s.rotations| && revoked.rotations == s.rotations;
    RevocationOutlivesRun(cfg, revoked, more, family);
  }

  /** A session that any run rotated into ends with its sign-in, and never by the lifetime check alone. */
  lemma RotationsEndWithTheSignIn(cfg: Config, run: seq<Event>, k: nat, now: Instant)
    requires Legal(cfg, INIT, run) && k < |Run(cfg, INIT, run).rotations| && cfg.policy.maxLifetimeSecs >= 1
    requires Run(cfg, INIT, run).rotations[k].target in Run(cfg, INIT, run).sessions
    ensures var s := Run(cfg, INIT, run);
            var session := s.sessions[s.rotations[k].target];
            && session.expiresAt <= LifetimeEnd(session.familyCreatedAt, cfg.policy.maxLifetimeSecs)
            && (IsActive(session, now) ==> !Outlived(session, now, cfg.policy))
  {
    ReachableInv(cfg, run);
    LifetimeCheckIsRedundantIff(cfg.policy.maxLifetimeSecs);
  }

  /**
    The first session of a family is dated by the application's clock, its start
    by the database's: it ends within its sign-in exactly when the former is not
    ahead, or by no more than the refresh lifetime falls short of the sign-in.
   */
  lemma FirstSessionIsCappedIff(cfg: Config, s: State, e: Event)
    requires e.SignIn? && Enabled(s, e)
    ensures var max, end := cfg.policy.maxLifetimeSecs, LifetimeEnd(e.dbNow, cfg.policy.maxLifetimeSecs);
            Capped(Apply(cfg, s, e).sessions[e.id], max) <==>
              || e.appNow <= e.dbNow
              || end == MAX_TIME
              || SaturatingAdd(e.appNow, ClampedSeconds(TtlSecs(cfg, e.rememberMe)) * NANOS) <= end
  {
  }
}
