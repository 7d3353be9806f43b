/**
  The audit log and its pages: an append-only table, the keyset query over it,
  and what following `next_cursor` lists while the table grows.
 */
module AuditLog {
  import opened Basics
  import opened Time
  import opened AuditCursor

  /** A row: its primary key `(createdAt, id)`, its owner, and the rest of the entry. */
  datatype Row = Row(createdAt: Instant, id: Uuid, user: Option<nat>, entry: string)

  type Position = (Instant, Uuid)

  function PositionOf(r: Row): Position { (r.createdAt, r.id) }

  /** The row order of SQL: `(created_at, id) < (created_at, id)`. */
  predicate Older(a: Position, b: Position) {
    a.0 < b.0 || (a.0 == b.0 && a.1 < b.1)
  }

  /** The primary key. */
  predicate UniqueKeys(rows: seq<Row>) {
    forall i, j :: 0 <= i < j < |rows| ==> PositionOf(rows[i]) != PositionOf(rows[j])
  }

  predicate NewestFirst(rows: seq<Row>) {
    forall i, j :: 0 <= i < j < |rows| ==> Older(PositionOf(rows[j]), PositionOf(rows[i]))
  }

  /** The table after an insert, which the primary key may refuse. */
  function Inserted(rows: seq<Row>, row: Row): seq<Row> {
    if forall i :: 0 <= i < |rows| ==> PositionOf(rows[i]) != PositionOf(row) then rows + [row] else rows
  }

  /** Newest first: by time, and by id among rows of one time. */
  lemma NewestFirstIff(rows: seq<Row>)
    ensures NewestFirst(rows) <==>
            forall i, j :: 0 <= i < j < |rows| ==>
              rows[i].createdAt > rows[j].createdAt || (rows[i].createdAt == rows[j].createdAt && rows[i].id > rows[j].id)
  {
    if NewestFirst(rows) {
      assert forall i, j :: 0 <= i < j < |rows| ==> Older(PositionOf(rows[j]), PositionOf(rows[i]));
    }
  }

  class Table {
    var rows: seq<Row>

    constructor ()
      ensures rows == []
    {
      rows := [];
    }

    /** `INSERT`: dated by the database's clock, under the id it drew, and refused when that key exists. */
    method Append(user: Option<nat>, entry: string, now: Instant, id: Uuid) returns (ok: bool)
      requires UniqueKeys(rows)
      modifies this
      ensures UniqueKeys(rows)
      ensures rows == Inserted(old(rows), Row(now, id, user, entry))
      ensures ok <==> forall i :: 0 <= i < |old(rows)| ==> PositionOf(old(rows)[i]) != (now, id)
      ensures rows == if ok then old(rows) + [Row(now, id, user, entry)] else old(rows)
    {
      ok := forall i :: 0 <= i < |rows| ==> PositionOf(rows[i]) != (now, id);
      if ok {
        rows := rows + [Row(now, id, user, entry)];
      }
    }
  }

  // The query

  predicate Selected(r: Row, user: nat, before: Option<Position>, now: Instant) {
    && r.user == Some(user)
    && r.createdAt <= now
    && (before.Some? ==> Older(PositionOf(r), before.value))
  }

  function Select(rows: seq<Row>, user: nat, before: Option<Position>, now: Instant): (found: seq<Row>)
    ensures forall r :: r in found <==> r in rows && Selected(r, user, before, now)
    ensures UniqueKeys(rows) ==> UniqueKeys(found)
  {
    if rows == [] then []
    else
      var rest := Select(rows[1..], user, before, now);
      assert forall j :: 0 <= j < |rest| ==> rest[j] in rest;
      if Selected(rows[0], user, before, now) then [rows[0]] + rest else rest
  }

  function Insert(r: Row, rows: seq<Row>): (sorted: seq<Row>)
    ensures |sorted| == |rows| + 1 && forall x :: x in sorted <==> x == r || x in rows
  {
    if rows == [] || Older(PositionOf(rows[0]), PositionOf(r)) then [r] + rows
    else [rows[0]] + Insert(r, rows[1..])
  }

  /** `ORDER BY created_at DESC, id DESC`. */
  function OrderNewestFirst(rows: seq<Row>): (sorted: seq<Row>)
    ensures |sorted| == |rows| && forall x :: x in sorted <==> x in rows
  {
    if rows == [] then [] else Insert(rows[0], OrderNewestFirst(rows[1..]))
  }

  predicate NewerThanAll(r: Row, rows: seq<Row>) {
    forall i :: 0 <= i < |rows| ==> Older(PositionOf(rows[i]), PositionOf(r))
  }

  lemma PrependNewest(r: Row, rows: seq<Row>)
    requires NewestFirst(rows) && NewerThanAll(r, rows)
    ensures NewestFirst([r] + rows)
  {
  }

  lemma {:induction false} InsertKeepsOrder(r: Row, rows: seq<Row>)
    requires NewestFirst(rows) && forall x :: x in rows ==> PositionOf(x) != PositionOf(r)
    ensures NewestFirst(Insert(r, rows))
  {
    if rows == [] || Older(PositionOf(rows[0]), PositionOf(r)) {
      assert NewerThanAll(r, rows);
      PrependNewest(r, rows);
    } else {
      var rest := Insert(r, rows[1..]);
      InsertKeepsOrder(r, rows[1..]);
      assert rows[0] in rows;
      forall i | 0 <= i < |rest|
        ensures Older(PositionOf(rest[i]), PositionOf(rows[0]))
      {
        assert rest[i] in rest;
      }
      PrependNewest(rows[0], rest);
    }
  }

  lemma {:induction false} OrderIsNewestFirst(rows: seq<Row>)
    requires UniqueKeys(rows)
    ensures NewestFirst(OrderNewestFirst(rows))
  {
    if rows != [] {
      OrderIsNewestFirst(rows[1..]);
      InsertKeepsOrder(rows[0], OrderNewestFirst(rows[1..]));
    }
  }

  function FindPage(rows: seq<Row>, user: nat, before: Option<Position>, limit: nat, now: Instant): seq<Row> {
    var found := OrderNewestFirst(Select(rows, user, before, now));
    if |found| <= limit then found else found[..limit]
  }

  // The handler

  const DEFAULT_LIMIT: int := 50
  const MAX_LIMIT: int := 200

  function PageLimit(requested: Option<int>): (limit: int)
    ensures 1 <= limit <= MAX_LIMIT
    ensures requested.None? ==> limit == DEFAULT_LIMIT
    ensures requested.Some? ==>
      && (requested.value <= 1 ==> limit == 1)
      && (1 <= requested.value <= MAX_LIMIT ==> limit == requested.value)
      && (requested.value >= MAX_LIMIT ==> limit == MAX_LIMIT)
  {
    var asked := if requested.Some? then requested.value else DEFAULT_LIMIT;
    if asked < 1 then 1 else if asked > MAX_LIMIT then MAX_LIMIT else asked
  }

  function SplitPage(rows: seq<Row>, limit: int): (page: (seq<Row>, bool))
    ensures page.1 <==> page.0 != rows
  {
    var kept := if limit > 0 then limit else 0;
    if |rows| > kept then (rows[..kept], true) else (rows, false)
  }

  datatype Page = Page(entries: seq<Row>, next: Option<string>)

  /** One page from a position, with one row fetched beyond it to tell whether another follows. */
  function PageAt(rows: seq<Row>, user: nat, now: Instant, limit: Option<int>, before: Option<Position>): Page {
    var size := PageLimit(limit);
    var (entries, more) := SplitPage(FindPage(rows, user, before, size + 1, now), size);
    if more && entries != [] then
      var last := entries[|entries| - 1];
      Page(entries, Some(EncodeCursor(last.createdAt, last.id)))
    else Page(entries, None)
  }

  /** The handler: a malformed cursor is a validation error. */
  function List(rows: seq<Row>, user: nat, now: Instant, limit: Option<int>, cursor: Option<string>): Result<Page, string> {
    match cursor
    case None => Ok(PageAt(rows, user, now, limit, None))
    case Some(text) =>
      match DecodeCursor(text)
      case Err(e) => Err(e)
      case Ok(position) => Ok(PageAt(rows, user, now, limit, Some(position)))
  }

  // Following the cursors

  /** A request: the table and the clock as it finds them, and the page size it asks for. */
  datatype Request = Request(rows: seq<Row>, now: Instant, limit: Option<int>)

  /** Between requests the table only grows, and the clock does not step back. */
  predicate Growing(requests: seq<Request>) {
    && (forall i :: 0 <= i < |requests| ==> UniqueKeys(requests[i].rows))
    && (forall i, j :: 0 <= i <= j < |requests| ==>
          requests[i].rows <= requests[j].rows && requests[i].now <= requests[j].now)
  }

  /** The entries a client lists by passing each page's `next_cursor` to the next request. */
  function Follow(user: nat, requests: seq<Request>, cursor: Option<string>): seq<Row>
    decreases |requests|
  {
    if requests == [] then []
    else
      match List(requests[0].rows, user, requests[0].now, requests[0].limit, cursor)
      case Err(_) => []
      case Ok(page) => page.entries + if page.next.None? then [] else Follow(user, requests[1..], page.next)
  }

  /** Whether those requests reach a page without `next_cursor`. */
  predicate Completes(user: nat, requests: seq<Request>, cursor: Option<string>)
    decreases |requests|
  {
    && requests != []
    && var page := List(requests[0].rows, user, requests[0].now, requests[0].limit, cursor);
    && page.Ok? && (page.value.next.None? || Completes(user, requests[1..], page.value.next))
  }

  // What a page holds

  function CursorOf(before: Option<Position>): Option<string> {
    match before
    case None => None
    case Some(p) => Some(EncodeCursor(p.0, p.1))
  }

  ghost predicate PageFrom(page: Page, rows: seq<Row>, user: nat, now: Instant, before: Option<Position>) {
    && NewestFirst(page.entries)
    && (forall r :: r in page.entries ==> r in rows && Selected(r, user, before, now))
    && (page.next.None? ==> forall r :: r in rows && Selected(r, user, before, now) ==> r in page.entries)
    && (page.next.Some? ==>
          && page.entries != []
          && var last := PositionOf(page.entries[|page.entries| - 1]);
          && page.next == CursorOf(Some(last))
          && forall r :: r in rows && Selected(r, user, before, now) ==> r in page.entries || Older(PositionOf(r), last))
  }

  /** The rows of an ordered result beyond its first `n` are all older than the `n`-th. */
  lemma BeyondIsOlder(found: seq<Row>, n: nat, r: Row)
    requires NewestFirst(found) && 0 < n <= |found| && r in found
    ensures r in found[..n] || Older(PositionOf(r), PositionOf(found[n - 1]))
  {
    var i :| 0 <= i < |found| && found[i] == r;
    if i < n {
      assert found[..n][i] == r;
    }
  }

  lemma FirstRowsMakeAPage(found: seq<Row>, size: nat, rows: seq<Row>, user: nat, now: Instant, before: Option<Position>)
    requires 0 < size < |found| && NewestFirst(found)
    requires forall r :: r in found <==> r in rows && Selected(r, user, before, now)
    ensures PageFrom(Page(found[..size], CursorOf(Some(PositionOf(found[size - 1])))), rows, user, now, before)
  {
    hide Older, Selected, EncodeCursor;
    forall r | r in found
      ensures r in found[..size] || Older(PositionOf(r), PositionOf(found[size - 1]))
    {
      BeyondIsOlder(found, size, r);
    }
  }

  lemma PageIsAPrefix(rows: seq<Row>, user: nat, now: Instant, limit: Option<int>, before: Option<Position>)
    ensures var size, found := PageLimit(limit), OrderNewestFirst(Select(rows, user, before, now));
            PageAt(rows, user, now, limit, before) ==
            if |found| > size then Page(found[..size], CursorOf(Some(PositionOf(found[size - 1])))) else Page(found, None)
  {
    hide EncodeCursor, Select, OrderNewestFirst;
    var size, found := PageLimit(limit), OrderNewestFirst(Select(rows, user, before, now));
    if |found| > size {
      assert found[..size + 1][..size] == found[..size];
    }
  }

  /** A page is the newest of the selected rows, as many as asked for; without `next_cursor` it is all of them. */
  lemma PageIsNewestSelected(rows: seq<Row>, user: nat, now: Instant, limit: Option<int>, before: Option<Position>)
    requires UniqueKeys(rows)
    ensures PageFrom(PageAt(rows, user, now, limit, before), rows, user, now, before)
    ensures var page := PageAt(rows, user, now, limit, before);
            |page.entries| <= PageLimit(limit) && (page.next.Some? ==> |page.entries| == PageLimit(limit))
  {
    hide PageAt, Older, Selected, UniqueKeys, Select, OrderNewestFirst, NewestFirst, EncodeCursor;
    var size, selected := PageLimit(limit), Select(rows, user, before, now);
    var found := OrderNewestFirst(selected);
    OrderIsNewestFirst(selected);
    PageIsAPrefix(rows, user, now, limit, before);
    if |found| > size {
      FirstRowsMakeAPage(found, size, rows, user, now, before);
    }
  }

  /** A cursor the handler gave out is read back as the position it stands for. */
  lemma ListFromPosition(rows: seq<Row>, user: nat, now: Instant, limit: Option<int>, before: Option<Position>)
    requires UniqueKeys(rows)
    ensures List(rows, user, now, limit, CursorOf(before)).Ok?
    ensures PageFrom(List(rows, user, now, limit, CursorOf(before)).value, rows, user, now, before)
  {
    hide PageFrom, PageAt, EncodeCursor, DecodeCursor;
    PageIsNewestSelected(rows, user, now, limit, before);
    if before.Some? {
      CursorRoundTrip(before.value.0, before.value.1);
    }
  }

  /** A cursor is refused exactly when it spells no position; a request without one never is. */
  lemma RefusedIff(rows: seq<Row>, user: nat, now: Instant, limit: Option<int>, cursor: Option<string>)
    ensures List(rows, user, now, limit, cursor).Err? <==>
            cursor.Some? && forall p: Position :: !SpellsCursor(cursor.value, p.0, p.1)
  {
    hide PageAt, DecodeCursor, SpellsCursor;
    if cursor.Some? {
      forall p: Position
        ensures DecodeCursor(cursor.value) == Ok(p) <==> SpellsCursor(cursor.value, p.0, p.1)
      {
        DecodedIff(cursor.value, p.0, p.1);
      }
      if DecodeCursor(cursor.value).Ok? {
        var p := DecodeCursor(cursor.value).value;
        assert SpellsCursor(cursor.value, p.0, p.1);
      }
    }
  }

  // What following the cursors lists

  ghost predicate Listed(list: seq<Row>, requests: seq<Request>, user: nat, before: Option<Position>)
    requires requests != []
  {
    && NewestFirst(list)
    && forall r :: r in list ==>
         && r in requests[|requests| - 1].rows && r.user == Some(user)
         && r.createdAt <= requests[0].now
         && (before.Some? ==> Older(PositionOf(r), before.value))
  }

  lemma GrowingFirst(requests: seq<Request>)
    requires Growing(requests) && requests != []
    ensures UniqueKeys(requests[0].rows) && requests[0].rows <= requests[|requests| - 1].rows
    ensures requests[0].now <= requests[|requests| - 1].now
    ensures Growing(requests[1..])
  {
  }

  lemma GrowingNext(requests: seq<Request>)
    requires Growing(requests) && |requests| > 1
    ensures requests[0].rows <= requests[1].rows && requests[0].now <= requests[1].now
  {
  }

  lemma AppendOlder(entries: seq<Row>, rest: seq<Row>)
    requires entries != [] && NewestFirst(entries) && NewestFirst(rest)
    requires forall r :: r in rest ==> Older(PositionOf(r), PositionOf(entries[|entries| - 1]))
    ensures NewestFirst(entries + rest)
  {
    var n, all := |entries|, entries + rest;
    forall i, j | 0 <= i < j < |all|
      ensures Older(PositionOf(all[j]), PositionOf(all[i]))
    {
      if i < n <= j {
        assert rest[j - n] in rest;
        assert i == n - 1 || Older(PositionOf(entries[n - 1]), PositionOf(entries[i]));
      }
    }
  }

  /** The first page of a listing, and what is listed after it. */
  lemma FirstPage(user: nat, requests: seq<Request>, before: Option<Position>) returns (page: Page)
    requires Growing(requests) && requests != []
    ensures PageFrom(page, requests[0].rows, user, requests[0].now, before)
    ensures Follow(user, requests, CursorOf(before)) ==
            page.entries + if page.next.None? then [] else Follow(user, requests[1..], page.next)
  {
    hide List, CursorOf, PageFrom, Growing, UniqueKeys;
    GrowingFirst(requests);
    ListFromPosition(requests[0].rows, user, requests[0].now, requests[0].limit, before);
    page := List(requests[0].rows, user, requests[0].now, requests[0].limit, CursorOf(before)).value;
  }

  /** However the table grows meanwhile, the listing is strictly newest first: no row appears twice. */
  lemma {:induction false} FollowIsOrdered(user: nat, requests: seq<Request>, before: Option<Position>)
    requires Growing(requests) && requests != []
    ensures Listed(Follow(user, requests, CursorOf(before)), requests, user, before)
    decreases |requests|
  {
    hide Follow, CursorOf, Listed, NewestFirst, Selected, Growing;
    GrowingFirst(requests);
    var page := FirstPage(user, requests, before);
    if page.next.Some? && |requests| > 1 {
      var last := PositionOf(page.entries[|page.entries| - 1]);
      FollowIsOrdered(user, requests[1..], Some(last));
      ContinueListing(page, requests, user, before, Follow(user, requests[1..], page.next));
    } else {
      NothingToFollow(user, page.next);
      assert page.next.None? || requests[1..] == [];
      assert page.entries + [] == page.entries;
      PageIsListed(page, requests, user, before);
    }
  }

  lemma NothingToFollow(user: nat, cursor: Option<string>)
    ensures Follow(user, [], cursor) == []
  {
  }

  lemma PageIsListed(page: Page, requests: seq<Request>, user: nat, before: Option<Position>)
    requires requests != [] && requests[0].rows <= requests[|requests| - 1].rows
    requires PageFrom(page, requests[0].rows, user, requests[0].now, before)
    ensures Listed(page.entries, requests, user, before)
  {
  }

  lemma ContinueListing(page: Page, requests: seq<Request>, user: nat, before: Option<Position>, rest: seq<Row>)
    requires |requests| > 1 && requests[0].rows <= requests[|requests| - 1].rows
    requires requests[0].now <= requests[|requests| - 1].now
    requires PageFrom(page, requests[0].rows, user, requests[0].now, before) && page.next.Some?
    requires Listed(rest, requests[1..], user, Some(PositionOf(page.entries[|page.entries| - 1])))
    ensures Listed(page.entries + rest, requests, user, before)
  {
    AppendOlder(page.entries, rest);
    var n := |page.entries|;
    assert page.entries[n - 1] in page.entries;
  }

  /** Once the last page is reached, every row the first request could see has been listed. */
  lemma {:induction false} FollowIsComplete(user: nat, requests: seq<Request>, before: Option<Position>, r: Row)
    requires Growing(requests) && Completes(user, requests, CursorOf(before))
    requires r in requests[0].rows && Selected(r, user, before, requests[0].now)
    ensures r in Follow(user, requests, CursorOf(before))
    decreases |requests|
  {
    hide List, CursorOf, Older, UniqueKeys, Growing;
    var first := requests[0];
    GrowingFirst(requests);
    ListFromPosition(first.rows, user, first.now, first.limit, before);
    var page := List(first.rows, user, first.now, first.limit, CursorOf(before)).value;
    if page.next.Some? && r !in page.entries {
      GrowingNext(requests);
      FollowIsComplete(user, requests[1..], Some(PositionOf(page.entries[|page.entries| - 1])), r);
    }
  }

  /** A page that is not the last lists at least one row, and the rest follows from the last of them. */
  lemma FollowStep(user: nat, requests: seq<Request>, before: Option<Position>) returns (entries: seq<Row>, last: Position)
    requires Growing(requests) && requests != [] && !Completes(user, requests, CursorOf(before))
    ensures entries != [] && !Completes(user, requests[1..], CursorOf(Some(last)))
    ensures Follow(user, requests, CursorOf(before)) == entries + Follow(user, requests[1..], CursorOf(Some(last)))
  {
    hide List, CursorOf, Older, Selected, NewestFirst, UniqueKeys, Growing;
    var first := requests[0];
    GrowingFirst(requests);
    ListFromPosition(first.rows, user, first.now, first.limit, before);
    var page := List(first.rows, user, first.now, first.limit, CursorOf(before)).value;
    entries := page.entries;
    last := PositionOf(page.entries[|page.entries| - 1]);
  }

  /** Requests that have not reached the last page have listed a row each. */
  lemma {:induction false} FollowMakesProgress(user: nat, requests: seq<Request>, before: Option<Position>)
    requires Growing(requests) && !Completes(user, requests, CursorOf(before))
    ensures |Follow(user, requests, CursorOf(before))| >= |requests|
    decreases |requests|
  {
    hide Follow, Completes, CursorOf, Growing;
    if requests != [] {
      var entries, last := FollowStep(user, requests, before);
      GrowingFirst(requests);
      FollowMakesProgress(user, requests[1..], Some(last));
    }
  }

  ghost function Elements(rows: seq<Row>): set<Row> {
    set r | r in rows
  }

  lemma {:induction false} OrderedRowsAreDistinct(rows: seq<Row>)
    requires NewestFirst(rows)
    ensures |Elements(rows)| == |rows|
  {
    if rows != [] {
      OrderedRowsAreDistinct(rows[1..]);
      assert Elements(rows) == {rows[0]} + Elements(rows[1..]);
    }
  }

  /** The user's rows dated by `now`. */
  ghost function Owned(rows: seq<Row>, user: nat, now: Instant): set<Row> {
    set r | r in rows && r.user == Some(user) && r.createdAt <= now
  }

  /**
    What paging from the first page lists, and when it ends: strictly newest
    first, so nothing repeats; only rows of the user dated by the first request;
    once complete, every such row present at the first request; and complete once
    the requests outnumber such rows, however many others are appended meanwhile.
   */
  ghost predicate ListsEverythingOnce(user: nat, requests: seq<Request>)
    requires requests != []
  {
    var list, since, final := Follow(user, requests, None), requests[0].now, requests[|requests| - 1].rows;
    && NewestFirst(list)
    && (forall r :: r in list ==> r in Owned(final, user, since))
    && (Completes(user, requests, None) ==> forall r :: r in Owned(requests[0].rows, user, since) ==> r in list)
    && (|requests| > |Owned(final, user, since)| ==> Completes(user, requests, None))
  }

  lemma PagingListsEverythingOnce(user: nat, requests: seq<Request>)
    requires Growing(requests) && requests != []
    ensures ListsEverythingOnce(user, requests)
  {
    var list, since, final := Follow(user, requests, None), requests[0].now, requests[|requests| - 1].rows;
    FollowIsOrdered(user, requests, None);
    if Completes(user, requests, None) {
      forall r | r in Owned(requests[0].rows, user, since)
        ensures r in list
      {
        FollowIsComplete(user, requests, None, r);
      }
    } else {
      FollowMakesProgress(user, requests, None);
      OrderedRowsAreDistinct(list);
      SubsetIsSmaller(Elements(list), Owned(final, user, since));
    }
  }

  // The table the requests read

  /** What the database sees: inserts by anyone, and the client's requests. */
  datatype Action = Write(row: Row) | Read(now: Instant, limit: Option<int>)

  /** The requests of a history, each with the table it finds. */
  function Requests(rows: seq<Row>, history: seq<Action>): seq<Request>
    decreases |history|
  {
    if history == [] then []
    else
      match history[0]
      case Write(row) => Requests(Inserted(rows, row), history[1..])
      case Read(now, limit) => [Request(rows, now, limit)] + Requests(rows, history[1..])
  }

  /** The table a history leaves. */
  function TableAfter(rows: seq<Row>, history: seq<Action>): seq<Row>
    decreases |history|
  {
    if history == [] then rows
    else
      match history[0]
      case Write(row) => TableAfter(Inserted(rows, row), history[1..])
      case Read(_, _) => TableAfter(rows, history[1..])
  }

  predicate OnlyWrites(history: seq<Action>) {
    forall i :: 0 <= i < |history| ==> history[i].Write?
  }

  lemma {:induction false} TableGrows(rows: seq<Row>, history: seq<Action>)
    ensures rows <= TableAfter(rows, history)
    decreases |history|
  {
    if history != [] {
      TableGrows(match history[0] case Write(row) => Inserted(rows, row) case Read(_, _) => rows, history[1..]);
    }
  }

  lemma {:induction false} TableAfterBoth(rows: seq<Row>, a: seq<Action>, b: seq<Action>)
    ensures TableAfter(rows, a + b) == TableAfter(TableAfter(rows, a), b)
    decreases |a|
  {
    hide Inserted;
    if a == [] {
      assert a + b == b;
    } else {
      assert (a + b)[1..] == a[1..] + b;
      TableAfterBoth(match a[0] case Write(row) => Inserted(rows, row) case Read(_, _) => rows, a[1..], b);
    }
  }

  /** The first request reads the table all writes before it leave. */
  lemma {:induction false} FirstRequest(rows: seq<Row>, writes: seq<Action>, now: Instant, limit: Option<int>, rest: seq<Action>)
    requires OnlyWrites(writes)
    ensures var requests := Requests(rows, writes + ([Read(now, limit)] + rest));
            requests != [] && requests[0] == Request(TableAfter(rows, writes), now, limit)
    decreases |writes|
  {
    hide Inserted;
    var tail := [Read(now, limit)] + rest;
    if writes == [] {
      assert writes + tail == tail;
    } else {
      assert (writes + tail)[1..] == writes[1..] + tail;
      FirstRequest(Inserted(rows, writes[0].row), writes[1..], now, limit, rest);
    }
  }

  lemma WrittenRowIsStored(rows: seq<Row>, before: seq<Action>, row: Row, after: seq<Action>)
    requires forall i :: 0 <= i < |TableAfter(rows, before)| ==> PositionOf(TableAfter(rows, before)[i]) != PositionOf(row)
    ensures row in TableAfter(rows, before + [Write(row)] + after)
  {
    var table := TableAfter(rows, before);
    TableAfterBoth(rows, before + [Write(row)], after);
    TableAfterBoth(rows, before, [Write(row)]);
    assert [Write(row)][1..] == [];
    assert TableAfter(table, [Write(row)]) == table + [row];
    TableGrows(table + [row], after);
    assert (table + [row])[|table|] == row;
  }

  /** A row of the user written before the first request under a free key, and dated by it, is listed. */
  lemma WrittenRowIsListed(user: nat, rows: seq<Row>, before: seq<Action>, row: Row, after: seq<Action>,
                           now: Instant, limit: Option<int>, rest: seq<Action>)
    requires UniqueKeys(rows) && OnlyWrites(before) && OnlyWrites(after)
    requires forall i :: 0 <= i < |TableAfter(rows, before)| ==> PositionOf(TableAfter(rows, before)[i]) != PositionOf(row)
    requires row.user == Some(user) && row.createdAt <= now
    requires var history := before + [Write(row)] + after + ([Read(now, limit)] + rest);
             ReadsAdvance(history) && Completes(user, Requests(rows, history), None)
    ensures row in Follow(user, Requests(rows, before + [Write(row)] + after + ([Read(now, limit)] + rest)), None)
  {
    var writes := before + [Write(row)] + after;
    var history := writes + ([Read(now, limit)] + rest);
    FirstRequest(rows, writes, now, limit, rest);
    WrittenRowIsStored(rows, before, row, after);
    PagingWhileOthersWrite(user, rows, history);
    hide Follow, Completes, TableAfter, Requests, UniqueKeys, ReadsAdvance, NewestFirst;
    assert row in Owned(Requests(rows, history)[0].rows, user, now);
  }

  predicate ReadsAdvance(history: seq<Action>) {
    forall i, j :: 0 <= i <= j < |history| && history[i].Read? && history[j].Read? ==> history[i].now <= history[j].now
  }

  predicate ReadsFrom(history: seq<Action>, from: Instant) {
    forall i :: 0 <= i < |history| && history[i].Read? ==> from <= history[i].now
  }

  predicate RequestsFrom(requests: seq<Request>, rows: seq<Row>, from: Instant) {
    forall i :: 0 <= i < |requests| ==> rows <= requests[i].rows && from <= requests[i].now
  }

  /** Whatever is inserted between them, with whatever dates, the requests read a growing table. */
  lemma {:induction false} HistoriesGrow(rows: seq<Row>, history: seq<Action>, from: Instant)
    requires UniqueKeys(rows) && ReadsAdvance(history) && ReadsFrom(history, from)
    ensures Growing(Requests(rows, history)) && RequestsFrom(Requests(rows, history), rows, from)
    decreases |history|
  {
    if history != [] {
      assert forall i :: 0 <= i < |history[1..]| ==> history[1..][i] == history[i + 1];
      match history[0]
      case Write(row) =>
        HistoriesGrow(Inserted(rows, row), history[1..], from);
      case Read(now, limit) =>
        HistoriesGrow(rows, history[1..], now);
        GrowingPrepend(Request(rows, now, limit), Requests(rows, history[1..]));
    }
  }

  lemma GrowingPrepend(first: Request, rest: seq<Request>)
    requires UniqueKeys(first.rows) && Growing(rest) && RequestsFrom(rest, first.rows, first.now)
    ensures Growing([first] + rest)
  {
    hide UniqueKeys;
  }

  /** Paging against the live table: no assumption on what is written meanwhile. */
  lemma PagingWhileOthersWrite(user: nat, rows: seq<Row>, history: seq<Action>)
    requires UniqueKeys(rows) && ReadsAdvance(history) && Requests(rows, history) != []
    ensures ListsEverythingOnce(user, Requests(rows, history))
  {
    HistoriesGrow(rows, history, MIN_TIME);
    PagingListsEverythingOnce(user, Requests(rows, history));
  }

  /** An ordered list is determined by its rows. */
  lemma {:induction false} OrderIsCanonical(a: seq<Row>, b: seq<Row>)
    requires NewestFirst(a) && NewestFirst(b) && forall r :: r in a <==> r in b
    ensures a == b
  {
    SameEmptiness(a, b);
    if a != [] {
      HeadIsNewest(a, b);
      forall r
        ensures r in a[1..] <==> r in b[1..]
      {
        TailRows(a, r);
        TailRows(b, r);
      }
      OrderIsCanonical(a[1..], b[1..]);
    }
  }

  lemma HeadIsNewest(a: seq<Row>, b: seq<Row>)
    requires NewestFirst(a) && NewestFirst(b) && a != [] && b != [] && forall r :: r in a <==> r in b
    ensures a[0] == b[0]
  {
    assert a[0] in b && b[0] in a;
  }

  lemma TailRows(a: seq<Row>, r: Row)
    requires NewestFirst(a) && a != []
    ensures r in a[1..] <==> r in a && r != a[0]
  {
  }

  /** Over a table and clock at rest, the pages in sequence are the one unlimited query. */
  lemma PagingRefinesOneQuery(user: nat, requests: seq<Request>, rows: seq<Row>, now: Instant)
    requires UniqueKeys(rows) && forall i :: 0 <= i < |requests| ==> requests[i].rows == rows && requests[i].now == now
    requires Completes(user, requests, None)
    ensures Follow(user, requests, None) == OrderNewestFirst(Select(rows, user, None, now))
  {
    var list, query := Follow(user, requests, None), Select(rows, user, None, now);
    FollowIsOrdered(user, requests, None);
    PagingListsEverythingOnce(user, requests);
    OrderIsNewestFirst(query);
    OrderIsCanonical(list, OrderNewestFirst(query));
  }
}
