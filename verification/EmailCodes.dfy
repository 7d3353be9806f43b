/**
  One-time codes sent by email: the `email_2fa_codes` table as a state machine.
  Each call is one transaction.
 */
module EmailCodes {
  import opened Basics

  datatype Row = Row(user: nat, codeHash: string, createdAt: int, expiresAt: int, usedAt: Option<int>)

  type Table = map<nat, Row>

  function Unused(rows: Table, user: nat): set<nat> {
    set id | id in rows && rows[id].user == user && rows[id].usedAt.None?
  }

  /** `ORDER BY created_at DESC LIMIT 1` over the user's unused codes: any of the latest, if there is one. */
  predicate Latest(rows: Table, user: nat, kept: Option<nat>) {
    match kept
    case None => Unused(rows, user) == {}
    case Some(id) => id in Unused(rows, user) &&
                     forall other :: other in Unused(rows, user) ==> rows[other].createdAt <= rows[id].createdAt
  }

  /** A new code: of the user's unused ones only `kept` survives it. */
  function Created(rows: Table, kept: Option<nat>, id: nat, row: Row): Table {
    var keep := if kept.Some? then {kept.value} else {};
    (rows - (Unused(rows, row.user) - keep))[id := row]
  }

  predicate Consumable(rows: Table, id: nat, now: int) {
    id in rows && rows[id].usedAt.None? && rows[id].expiresAt > now
  }

  /** The code that worked, and every other unused one of its user, marked used. */
  function Consumed(rows: Table, id: nat, now: int): Table
    requires Consumable(rows, id, now)
  {
    map other | other in rows ::
      if other in Unused(rows, rows[id].user) then rows[other].(usedAt := Some(now)) else rows[other]
  }

  /** The table, updated in place by the repository's transactions. */
  class Repository {
    var rows: Table

    constructor ()
      ensures rows == map[]
    {
      rows := map[];
    }

    /** `replace_active_in_tx`: delete the user's older unused codes, then insert. */
    method Create(user: nat, codeHash: string, expiresAt: int, id: nat, now: int) returns (ghost kept: Option<nat>)
      requires id !in rows
      modifies this
      ensures Latest(old(rows), user, kept)
      ensures rows == Created(old(rows), kept, id, Row(user, codeHash, now, expiresAt, None))
    {
      var unused := Unused(rows, user);
      kept := None;
      if unused != {} {
        var latest := LatestOf(rows, unused);
        kept := Some(latest);
        rows := rows - (unused - {latest});
      }
      rows := rows[id := Row(user, codeHash, now, expiresAt, None)];
    }

    /** Mark the code used, and the other live code of its account with it. */
    method Consume(id: nat, now: int) returns (used: bool)
      modifies this
      ensures used <==> id in old(rows) && old(rows)[id].usedAt.None? && now < old(rows)[id].expiresAt
      ensures rows == if used then Consumed(old(rows), id, now) else old(rows)
    {
      used := id in rows && rows[id].usedAt.None? && rows[id].expiresAt > now;
      if used {
        var user := rows[id].user;
        rows := rows[id := rows[id].(usedAt := Some(now))];
        var others := Unused(rows, user);
        rows := map other | other in rows ::
          if other in others then rows[other].(usedAt := Some(now)) else rows[other];
      }
    }
  }

  /** A code created last among `ids`. */
  method LatestOf(rows: Table, ids: set<nat>) returns (latest: nat)
    requires ids != {} && ids <= rows.Keys
    ensures latest in ids && forall other :: other in ids ==> rows[other].createdAt <= rows[latest].createdAt
  {
    latest :| latest in ids;
    var left := ids;
    while left != {}
      invariant left <= ids && latest in ids
      invariant forall other :: other in ids - left ==> rows[other].createdAt <= rows[latest].createdAt
      decreases left
    {
      var id :| id in left;
      if rows[id].createdAt > rows[latest].createdAt {
        latest := id;
      }
      left := left - {id};
    }
  }

  // Runs

  datatype Event =
    | Create(id: nat, row: Row, kept: Option<nat>)
    | Consume(id: nat, now: int)
    | Cleanup(ids: set<nat>)

  predicate Enabled(rows: Table, e: Event) {
    e.Create? ==> e.id !in rows && e.row.usedAt.None? && Latest(rows, e.row.user, e.kept)
  }

  function Step(rows: Table, e: Event): Table {
    match e
    case Create(id, row, kept) => Created(rows, kept, id, row)
    case Consume(id, now) => if Consumable(rows, id, now) then Consumed(rows, id, now) else rows
    case Cleanup(ids) => rows - ids
  }

  function After(run: seq<Event>): Table {
    if run == [] then map[] else Step(After(run[..|run| - 1]), run[|run| - 1])
  }

  predicate Legal(run: seq<Event>) {
    run != [] ==> Legal(run[..|run| - 1]) && Enabled(After(run[..|run| - 1]), run[|run| - 1])
  }

  predicate Succeeds(rows: Table, e: Event, user: nat) {
    e.Consume? && Consumable(rows, e.id, e.now) && rows[e.id].user == user
  }

  predicate Creates(e: Event, user: nat) {
    e.Create? && e.row.user == user
  }

  ghost function CreateCount(run: seq<Event>, user: nat): nat {
    if run == [] then 0
    else CreateCount(run[..|run| - 1], user) + if Creates(run[|run| - 1], user) then 1 else 0
  }

  ghost function ConsumeCount(run: seq<Event>, user: nat): nat {
    if run == [] then 0
    else ConsumeCount(run[..|run| - 1], user) +
         if Succeeds(After(run[..|run| - 1]), run[|run| - 1], user) then 1 else 0
  }

  /** Creating leaves the latest unused code and the new one, and no other. */
  lemma CreateKeepsLatest(rows: Table, e: Event)
    requires e.Create? && Enabled(rows, e)
    ensures Unused(Step(rows, e), e.row.user) == {e.id} + if e.kept.Some? then {e.kept.value} else {}
    ensures e.kept.Some? ==> Step(rows, e)[e.kept.value] == rows[e.kept.value]
    ensures forall user :: user != e.row.user ==> Unused(Step(rows, e), user) == Unused(rows, user)
  {
  }

  /** Beyond that a resend changes nothing: the new row as given, used codes and other users' codes as they were. */
  lemma CreateFrame(rows: Table, e: Event, id: nat)
    requires e.Create? && Enabled(rows, e)
    ensures var next := Step(rows, e);
            && e.id in next && next[e.id] == e.row
            && (id != e.id && id in next ==> id in rows && next[id] == rows[id])
            && (id in rows && id !in Unused(rows, e.row.user) ==> id in next)
  {
  }

  /** A code that worked marks the unused codes of its user with the time, and changes nothing else. */
  lemma ConsumeFrame(rows: Table, id: nat, now: int, other: nat)
    requires Consumable(rows, id, now)
    ensures var next := Consumed(rows, id, now);
            && next.Keys == rows.Keys
            && (other in rows ==>
                  next[other] == if rows[other].user == rows[id].user && rows[other].usedAt.None?
                                 then rows[other].(usedAt := Some(now)) else rows[other])
  {
  }

  /** A code just sent, and the one kept, work exactly until they expire; after one worked, neither does at any time. */
  lemma OpenCodesWorkIff(rows: Table, e: Event, id: nat, now: int, later: int)
    requires e.Create? && Enabled(rows, e)
    ensures var next := Step(rows, e);
            && (Consumable(next, e.id, now) <==> now < e.row.expiresAt)
            && (e.kept.Some? ==> (Consumable(next, e.kept.value, now) <==> now < rows[e.kept.value].expiresAt))
            && (id in next && next[id].user == e.row.user && Consumable(next, id, now) ==>
                  id == e.id || e.kept == Some(id))
            && (Consumable(next, e.id, now) ==>
                  var spent := Consumed(next, e.id, now);
                  id in spent && spent[id].user == e.row.user ==> !Consumable(spent, id, later))
  {
    CreateKeepsLatest(rows, e);
    var next := Step(rows, e);
    assert id in next && next[id].user == e.row.user && Consumable(next, id, now) ==> id in Unused(next, e.row.user);
  }

  /** Every stored code was sent: to its user, with its expiry, by an event of the run. */
  lemma {:induction false} StoredCodeWasSent(run: seq<Event>, id: nat) returns (i: nat)
    requires Legal(run) && id in After(run)
    ensures i < |run| && run[i].Create? && run[i].id == id
    ensures After(run)[id].(usedAt := None) == run[i].row
    decreases |run|
  {
    var front, last := run[..|run| - 1], run[|run| - 1];
    if last.Create? && last.id == id {
      i := |run| - 1;
    } else {
      i := StoredCodeWasSent(front, id);
    }
  }

  /** In every run a code spent was sent earlier to its user, and is spent before the expiry it was sent with. */
  lemma SpentWithinLifetime(run: seq<Event>, j: nat, user: nat) returns (i: nat)
    requires Legal(run) && j < |run| && Succeeds(After(run[..j]), run[j], user)
    ensures i < j && Creates(run[i], user) && run[i].id == run[j].id && run[j].now < run[i].row.expiresAt
  {
    LegalPrefix(run, j);
    i := StoredCodeWasSent(run[..j], run[j].id);
  }

  /** A code that worked takes every other one of its user with it, and nobody else's. */
  lemma ConsumeEndsAll(rows: Table, id: nat, now: int, user: nat)
    requires Consumable(rows, id, now)
    ensures Unused(Consumed(rows, id, now), user) == if user == rows[id].user then {} else Unused(rows, user)
  {
  }

  /** What one event does to a user's unused codes. */
  lemma StepUnused(rows: Table, e: Event, user: nat)
    requires Enabled(rows, e)
    ensures var before, after := Unused(rows, user), Unused(Step(rows, e), user);
            && (Creates(e, user) ==> |after| <= 2 && |after| <= |before| + 1)
            && (!Creates(e, user) ==> after <= before && |after| <= |before|)
            && (Succeeds(rows, e, user) ==> after == {} && before != {} && |before| >= 1)
  {
    var before, after := Unused(rows, user), Unused(Step(rows, e), user);
    match e
    case Create(id, row, kept) =>
      CreateKeepsLatest(rows, e);
      if row.user == user && kept.Some? {
        assert {kept.value} <= before;
        SubsetIsSmaller({kept.value}, before);
      }
    case Consume(id, now) =>
      if Consumable(rows, id, now) {
        ConsumeEndsAll(rows, id, now, user);
        if rows[id].user == user {
          assert {id} <= before;
          SubsetIsSmaller({id}, before);
        }
      }
    case Cleanup(ids) =>
      assert after <= before;
      SubsetIsSmaller(after, before);
  }

  /**
    In every reachable state a user has at most two unused codes, and codes used
    up, together with those still open, never exceed the codes sent.
   */
  lemma {:induction false} CodesAreBounded(run: seq<Event>, user: nat)
    requires Legal(run)
    ensures |Unused(After(run), user)| <= 2
    ensures ConsumeCount(run, user) + |Unused(After(run), user)| <= CreateCount(run, user)
  {
    if run == [] {
      assert Unused(map[], user) == {};
    } else {
      hide Unused, Step, Enabled;
      CodesAreBounded(run[..|run| - 1], user);
      StepUnused(After(run[..|run| - 1]), run[|run| - 1], user);
    }
  }

  lemma {:induction false} NothingOpensWithoutCreate(run: seq<Event>, from: nat, user: nat)
    requires Legal(run) && from <= |run|
    requires forall k :: from <= k < |run| ==> !Creates(run[k], user)
    ensures Unused(After(run), user) <= Unused(After(run[..from]), user)
  {
    if from == |run| {
      assert run[..from] == run;
    } else {
      var front := run[..|run| - 1];
      NothingOpensWithoutCreate(front, from, user);
      assert front[..from] == run[..from];
      StepUnused(After(front), run[|run| - 1], user);
    }
  }

  lemma {:induction false} LegalPrefix(run: seq<Event>, n: nat)
    requires Legal(run) && n <= |run|
    ensures Legal(run[..n])
    ensures n < |run| ==> Enabled(After(run[..n]), run[n])
    decreases |run|
  {
    if n == |run| {
      assert run[..n] == run;
    } else {
      LegalPrefix(run[..|run| - 1], n);
      assert run[..|run| - 1][..n] == run[..n];
    }
  }

  /** Between two codes a user spends lies a code sent to that user: every sign-in needs a fresh one. */
  lemma FreshCodeBetweenUses(run: seq<Event>, i: nat, j: nat, user: nat) returns (k: nat)
    requires Legal(run) && i < j < |run|
    requires Succeeds(After(run[..i]), run[i], user) && Succeeds(After(run[..j]), run[j], user)
    ensures i < k < j && Creates(run[k], user)
  {
    if m :| i < m < j && Creates(run[m], user) {
      return m;
    }
    hide Unused, Step, Enabled, Succeeds;
    LegalPrefix(run, j);
    NothingLeftAfterUse(run, i, user);
    SpentWasOpen(After(run[..j]), run[j], user);
    assert run[..j][..i + 1] == run[..i + 1];
    NothingOpensWithoutCreate(run[..j], i + 1, user);
    assert false;
  }

  lemma SpentWasOpen(rows: Table, e: Event, user: nat)
    requires Succeeds(rows, e, user)
    ensures e.Consume? && e.id in Unused(rows, user)
  {
  }

  lemma NothingLeftAfterUse(run: seq<Event>, i: nat, user: nat)
    requires Legal(run) && i < |run| && Succeeds(After(run[..i]), run[i], user)
    ensures Unused(After(run[..i + 1]), user) == {}
  {
    hide Unused, Step, Enabled, Succeeds;
    LegalPrefix(run, i);
    assert run[..i + 1][..i] == run[..i];
    StepUnused(After(run[..i]), run[i], user);
  }
}
