/**
  From a `scope` parameter to the claims of a token: what a client may ask for,
  what an approval freezes, and what each token issued later may carry.
 */
module Scopes {
  import opened Basics

  function Filter(xs: seq<string>, keep: string -> bool): (ys: seq<string>)
    ensures forall x :: x in ys <==> x in xs && keep(x)
  {
    if xs == [] then []
    else (if keep(xs[0]) then [xs[0]] else []) + Filter(xs[1..], keep)
  }

  lemma FilterSame(xs: seq<string>, f: string -> bool, g: string -> bool)
    requires forall x :: x in xs ==> (f(x) <==> g(x))
    ensures Filter(xs, f) == Filter(xs, g)
  {
  }

  lemma FilterAll(xs: seq<string>, f: string -> bool)
    requires forall x :: x in xs ==> f(x)
    ensures Filter(xs, f) == xs
  {
  }

  // Vocabulary

  predicate IsOidcScope(scope: string) {
    scope in ["openid", "profile", "email"]
  }

  /** Permission names are generated as `resource:action`. */
  predicate IsPermissionName(name: string) {
    ':' in name
  }

  lemma OidcScopeIsNoPermission(name: string)
    requires IsPermissionName(name)
    ensures !IsOidcScope(name)
  {
  }

  datatype Client = Client(scopes: seq<string>, isPrimary: bool)

  datatype Claims = Claims(roles: seq<string>, permissions: seq<string>)

  // The pipeline

  /** The scopes a request asks for, or those outside the client's registration. */
  function RequestedScopes(requested: Option<seq<string>>, clientScopes: seq<string>)
    : (r: Result<Option<seq<string>>, seq<string>>)
    ensures r.Err? <==>
      (&& requested.Some? && clientScopes != []
       && exists s :: s in requested.value && !IsOidcScope(s) && s !in clientScopes)
    ensures r.Err? ==>
      forall s :: s in r.error <==> s in requested.value && !IsOidcScope(s) && s !in clientScopes
    ensures r.Ok? && requested.Some? ==> r.value == requested
    ensures requested.None? ==> r == Ok(if clientScopes == [] then None else Some(clientScopes))
    ensures r.Ok? && r.value.Some? && clientScopes != [] ==>
              forall s :: s in r.value.value ==> IsOidcScope(s) || s in clientScopes
  {
    match requested
    case None => if clientScopes != [] then Ok(Some(clientScopes)) else Ok(None)
    case Some(asked) =>
      if clientScopes == [] then Ok(requested)
      else
        var outside := Filter(asked, s => !IsOidcScope(s) && s !in clientScopes);
        assert outside != [] ==> outside[0] in outside;
        if outside == [] then Ok(requested) else Err(outside)
  }

  /** What an approval freezes: the requested scopes the user holds, and the identity scopes. */
  function Consent(requested: Option<seq<string>>, held: seq<string>): Option<seq<string>> {
    match requested
    case None => None
    case Some(asked) => Some(Filter(asked, s => IsOidcScope(s) || s in held))
  }

  /** A session's consent, narrowed to what its client is registered with now. */
  function WithinClientScopes(consented: Option<seq<string>>, clientScopes: Option<seq<string>>): Option<seq<string>> {
    if clientScopes.None? || clientScopes.value == [] then consented
    else
      match consented
      case Some(scopes) => Some(Filter(scopes, s => IsOidcScope(s) || s in clientScopes.value))
      case None => clientScopes
  }

  function RestrictToConsent(roles: seq<string>, permissions: seq<string>, consent: Option<seq<string>>): Claims {
    match consent
    case None => Claims(roles, permissions)
    case Some(scopes) => Claims([], Filter(permissions, p => p in scopes))
  }

  /** The claims of an access token, from the user, the session's consent and the client as they stand. */
  function TokenClaims(roles: seq<string>, permissions: seq<string>, consent: Option<seq<string>>, client: Option<Client>): Claims {
    var current := if client.Some? then Some(client.value.scopes) else None;
    var claims := RestrictToConsent(roles, permissions, WithinClientScopes(consent, current));
    if client.Some? && !client.value.isPrimary then claims.(roles := []) else claims
  }

  predicate Covers(scopes: Option<seq<string>>, permission: string) {
    scopes.Some? ==> permission in scopes.value
  }

  /** A client's registration restricts a token only by scopes it actually has. */
  function Restriction(client: Option<Client>): Option<seq<string>> {
    if client.Some? && client.value.scopes != [] then Some(client.value.scopes) else None
  }

  /**
    A token carries exactly the user's permissions that both the stored consent
    and the client's present registration cover, in the user's order; it carries
    roles only when neither restricts it and no third-party client is involved.
    Identity scopes contribute nothing.
   */
  lemma ClaimsAreTheIntersection(roles: seq<string>, permissions: seq<string>, consent: Option<seq<string>>, client: Option<Client>)
    requires forall p :: p in permissions ==> IsPermissionName(p)
    ensures var claims := TokenClaims(roles, permissions, consent, client);
            && claims.permissions == Filter(permissions, p => Covers(consent, p) && Covers(Restriction(client), p))
            && claims.roles == if consent.Some? || Restriction(client).Some? || (client.Some? && !client.value.isPrimary)
                               then [] else roles
  {
    forall p | p in permissions
      ensures !IsOidcScope(p)
    {
      OidcScopeIsNoPermission(p);
    }
    var current := if client.Some? then Some(client.value.scopes) else None;
    var narrowed := WithinClientScopes(consent, current);
    var covered := p => Covers(consent, p) && Covers(Restriction(client), p);
    if narrowed.None? {
      FilterAll(permissions, covered);
    } else {
      FilterSame(permissions, p => p in narrowed.value, covered);
    }
  }

  // Runs: one approval of one client, its code and its sessions, while the user and the registration change

  datatype Event =
    | ChangeUser(roles: seq<string>, permissions: seq<string>)
    | ChangeClient(client: Option<Client>)
    | Approve(requested: Option<seq<string>>)
    | Redeem
    | Rotate

  /** What was asked and what the user held at the approval. */
  datatype Grant = Grant(asked: Option<seq<string>>, held: seq<string>)

  /** The authorization code's row. */
  datatype Code = Code(scopes: Option<seq<string>>)

  /**
    The account and the registration as they stand; the approval; and the stored
    scopes: of the code, and of each session row of the family in turn.
   */
  datatype State = State(
    roles: seq<string>,
    permissions: seq<string>,
    client: Option<Client>,
    grant: Option<Grant>,
    code: Option<Code>,
    rows: seq<Option<seq<string>>>)

  /** The scopes a rotation stores: those it is given, else those of the row it replaces. */
  function InheritedScopes(given: Option<seq<string>>, replaced: Option<seq<string>>): Option<seq<string>> {
    if given.Some? then given else replaced
  }

  predicate Enabled(s: State, e: Event) {
    match e
    case ChangeUser(_, permissions) => forall p :: p in permissions ==> IsPermissionName(p)
    case ChangeClient(_) => true
    case Approve(requested) => s.grant.None? && s.client.Some? && RequestedScopes(requested, s.client.value.scopes).Ok?
    case Redeem => s.code.Some? && s.rows == []
    case Rotate => s.rows != []
  }

  function Step(s: State, e: Event): State
    requires Enabled(s, e)
  {
    match e
    case ChangeUser(roles, permissions) => s.(roles := roles, permissions := permissions)
    case ChangeClient(client) => s.(client := client)
    case Approve(requested) =>
      var asked := RequestedScopes(requested, s.client.value.scopes).value;
      s.(grant := Some(Grant(asked, s.permissions)), code := Some(Code(Consent(asked, s.permissions))))
    case Redeem => s.(rows := [s.code.value.scopes])
    // The refresh hands the rotation no scopes of its own.
    case Rotate => s.(rows := s.rows + [InheritedScopes(None, s.rows[|s.rows| - 1])])
  }

  predicate Legal(s: State, run: seq<Event>)
    decreases |run|
  {
    run != [] ==> Enabled(s, run[0]) && Legal(Step(s, run[0]), run[1..])
  }

  function Run(s: State, run: seq<Event>): State
    requires Legal(s, run)
    decreases |run|
  {
    if run == [] then s else Run(Step(s, run[0]), run[1..])
  }

  /** Everything stored, in the code and in every session since, is the consent given at the approval. */
  predicate StoresConsent(s: State) {
    && (s.code.Some? || s.rows != [] ==> s.grant.Some?)
    && (s.grant.Some? ==>
          var consent := Consent(s.grant.value.asked, s.grant.value.held);
          && s.code == Some(Code(consent))
          && forall i :: 0 <= i < |s.rows| ==> s.rows[i] == consent)
  }

  predicate Inv(s: State) {
    (forall p :: p in s.permissions ==> IsPermissionName(p)) && StoresConsent(s)
  }

  lemma StepKeepsInv(s: State, e: Event)
    requires Inv(s) && Enabled(s, e)
    ensures Inv(Step(s, e))
    ensures s.grant.Some? ==> Step(s, e).grant == s.grant
    ensures e.Redeem? || s.rows <= Step(s, e).rows
  {
    hide Consent, RequestedScopes;
  }

  /** No change of user or registration, and no number of rotations, alters what an approval granted. */
  lemma {:induction false} GrantIsFrozen(s: State, run: seq<Event>)
    requires Inv(s) && Legal(s, run)
    ensures Inv(Run(s, run))
    ensures s.grant.Some? ==> Run(s, run).grant == s.grant
    decreases |run|
  {
    if run != [] {
      hide Inv, Step, Enabled;
      StepKeepsInv(s, run[0]);
      GrantIsFrozen(Step(s, run[0]), run[1..]);
    }
  }

  /**
    However the user's roles and the client's registration change between
    approval and refresh, and however often the session is rotated, a token
    carries a permission exactly when the user holds it now, the client's scopes
    of now admit it, and the approval asked for it while the user held it.
   */
  lemma TokenAfterAnyChanges(start: State, run: seq<Event>, p: string)
    requires Inv(start) && Legal(start, run) && Run(start, run).rows != []
    ensures var s := Run(start, run);
            && s.grant.Some?
            && var claims := TokenClaims(s.roles, s.permissions, s.rows[|s.rows| - 1], s.client);
            var grant := s.grant.value;
            && (p in claims.permissions <==>
                  && p in s.permissions
                  && Covers(Restriction(s.client), p)
                  && (grant.asked.Some? ==> p in grant.asked.value && p in grant.held))
            && (grant.asked.Some? ==> claims.roles == [])
  {
    GrantIsFrozen(start, run);
    var s := Run(start, run);
    hide Run, Legal;
    ClaimsAreTheIntersection(s.roles, s.permissions, s.rows[|s.rows| - 1], s.client);
    if p in s.permissions {
      OidcScopeIsNoPermission(p);
    }
  }

  /**
    What every stored row holds after any run: nothing at all restricted if the
    request named nothing; otherwise exactly the scopes asked for that are identity
    scopes or were held at the approval, in the order asked.
   */
  lemma StoredScopesIff(start: State, run: seq<Event>, i: nat, scope: string)
    requires Inv(start) && Legal(start, run) && i < |Run(start, run).rows|
    ensures var s := Run(start, run);
            && s.grant.Some?
            && (s.rows[i].None? <==> s.grant.value.asked.None?)
            && (s.rows[i].Some? ==>
                  && (scope in s.rows[i].value <==>
                        scope in s.grant.value.asked.value && (IsOidcScope(scope) || scope in s.grant.value.held))
                  && Subsequence(s.rows[i].value, s.grant.value.asked.value))
  {
    GrantIsFrozen(start, run);
    var s := Run(start, run);
    hide Run, Legal, IsOidcScope;
    if s.grant.value.asked.Some? {
      var held := s.grant.value.held;
      FilterIsSubsequence(s.grant.value.asked.value, scope => IsOidcScope(scope) || scope in held);
    }
  }

  /** `xs` is `ys` with some elements left out. */
  predicate Subsequence(xs: seq<string>, ys: seq<string>) {
    xs == [] || (ys != [] && (if xs[0] == ys[0] then Subsequence(xs[1..], ys[1..]) else Subsequence(xs, ys[1..])))
  }

  lemma FilterIsSubsequence(xs: seq<string>, keep: string -> bool)
    ensures Subsequence(Filter(xs, keep), xs)
  {
    if xs != [] {
      FilterIsSubsequence(xs[1..], keep);
      var rest := Filter(xs[1..], keep);
      if keep(xs[0]) {
        assert ([xs[0]] + rest)[1..] == rest;
      } else {
        assert Filter(xs, keep) == rest;
        assert rest != [] ==> rest[0] in rest;
      }
    }
  }

  /** Narrowing to the client's present scopes keeps the identity scopes and drops exactly what is no longer registered. */
  lemma NarrowingIff(consented: seq<string>, registered: seq<string>, scope: string)
    ensures var narrowed := WithinClientScopes(Some(consented), Some(registered));
            && narrowed.Some?
            && (scope in narrowed.value <==>
                  scope in consented && (registered == [] || IsOidcScope(scope) || scope in registered))
    ensures WithinClientScopes(None, Some(registered)) == (if registered == [] then None else Some(registered))
  {
    hide IsOidcScope;
  }
}
