/** The request table of app.py, the store the relay server runs on: rows keyed on a random
    five-character `id` alone, with unconditional completion, a lock release keyed on
    `created_at`, timeout and retention sweeps, and a per-request delete scheduled for 120
    seconds after the insert. */
module App {
  import opened Wrappers
  import opened Statuses
  import opened Clock
  import opened RequestIds
  import Tables

  /** One row of `requests`. */
  datatype Row = Row(
    id: string,
    genre: string,
    callbackUrl: string,
    status: Status,
    lockedBy: Option<string>,
    createdAt: Instant,
    completedAt: Option<Instant>,
    data: Option<string>)

  /** One entry of `get_pending_requests`. */
  datatype PendingItem = PendingItem(
    requestId: string,
    genre: string,
    callbackUrl: string,
    url: string,
    createdAt: Instant,
    data: Option<string>)

  /** The insert raised: `id` is the PRIMARY KEY and the random id is already taken. */
  datatype AppError = DuplicateId(id: string)

  /** What `create_request_endpoint` answers: 201, 400, or 500 when a step raised. */
  datatype Response = Created(genre: string, requestId: string) | BadRequest | ServerError

  const LoginCheckRequest: string := "logincheckrequest"

  /** A login-check request with a truthy payload reads `email` and `password` from the
      payload with `.get`, which raises when the payload is not a JSON object; the row is
      already stored by then. */
  predicate NotificationRaises(genre: string, data: Option<string>, payloadIsObject: bool) {
    genre == LoginCheckRequest && data.Some? && !payloadIsObject
  }

  /** The PRIMARY KEY. */
  function Id(r: Row): string {
    r.id
  }

  function CreatedAt(r: Row): int {
    r.createdAt
  }

  function ItemCreatedAt(e: PendingItem): int {
    e.createdAt
  }

  predicate IsPending(r: Row) {
    r.status == Pending
  }

  /** The detail URL a worker dereferences: `f"{base_url}/api/request/{genre}/{id}"`. */
  function RequestUrl(baseUrl: string, genre: string, requestId: string): string {
    baseUrl + "/api/request/" + genre + "/" + requestId
  }

  function ItemOf(r: Row, baseUrl: string): PendingItem {
    PendingItem(r.id, r.genre, r.callbackUrl, RequestUrl(baseUrl, r.genre, r.id), r.createdAt, r.data)
  }

  function ItemAt(baseUrl: string): Row -> PendingItem {
    r => ItemOf(r, baseUrl)
  }

  // ---- WHERE clauses -------------------------------------------------------------------

  /** `genre = ? AND id = ?`. */
  predicate HasKey(r: Row, genre: string, requestId: string) {
    r.genre == genre && r.id == requestId
  }

  /** `status = 'locked' AND created_at < ?` (release_stale_locks). */
  predicate LockExpired(r: Row, cutoff: Instant) {
    r.status == Locked && r.createdAt < cutoff
  }

  /** `status = 'pending' AND created_at < ?` (timeout_old_requests). */
  predicate Overdue(r: Row, cutoff: Instant) {
    r.status == Pending && r.createdAt < cutoff
  }

  /** `status IN ('success', 'failed', 'timeout') AND completed_at < ?` (cleanup_old_requests). */
  predicate Expired(r: Row, cutoff: Instant) {
    IsTerminal(r.status) && Earlier(r.completedAt, cutoff)
  }

  function WhereKey(genre: string, requestId: string): Row -> bool {
    r => HasKey(r, genre, requestId)
  }

  function WhereLockExpired(cutoff: Instant): Row -> bool {
    r => LockExpired(r, cutoff)
  }

  function WhereOverdue(cutoff: Instant): Row -> bool {
    r => Overdue(r, cutoff)
  }

  function WhereExpired(cutoff: Instant): Row -> bool {
    r => Expired(r, cutoff)
  }

  // ---- SET clauses ---------------------------------------------------------------------

  /** `completed_at` of a report: now for `success` or `failed`, NULL for any other status. */
  function ReportedCompletion(status: Status, now: Instant): Option<Instant> {
    if status == Success || status == Failed then Some(now) else None
  }

  /** `SET status = ?, locked_by = ?, completed_at = ?`. */
  function SetReported(status: Status, lockedBy: Option<string>, now: Instant): Row -> Row {
    (r: Row) => r.(status := status, lockedBy := lockedBy, completedAt := ReportedCompletion(status, now))
  }

  /** `SET status = 'pending', locked_by = NULL`. */
  function SetRequeued(): Row -> Row {
    (r: Row) => r.(status := Pending, lockedBy := None)
  }

  /** `SET status = 'timeout', completed_at = ?`. */
  function SetTimedOut(now: Instant): Row -> Row {
    (r: Row) => r.(status := Timeout, completedAt := Some(now))
  }

  // ---- Statements ----------------------------------------------------------------------

  function Report(rows: seq<Row>, genre: string, requestId: string, status: Status, lockedBy: Option<string>, now: Instant): seq<Row> {
    Tables.Update(rows, WhereKey(genre, requestId), SetReported(status, lockedBy, now))
  }

  function Requeue(rows: seq<Row>, cutoff: Instant): seq<Row> {
    Tables.Update(rows, WhereLockExpired(cutoff), SetRequeued())
  }

  function TimeOut(rows: seq<Row>, cutoff: Instant, now: Instant): seq<Row> {
    Tables.Update(rows, WhereOverdue(cutoff), SetTimedOut(now))
  }

  function Purge(rows: seq<Row>, cutoff: Instant): seq<Row> {
    Tables.Delete(rows, WhereExpired(cutoff))
  }

  function DeleteRequest(rows: seq<Row>, genre: string, requestId: string): seq<Row> {
    Tables.Delete(rows, WhereKey(genre, requestId))
  }

  // ---- Reads and validation ------------------------------------------------------------

  /** The listing of `get_pending_requests`: one item per pending row, oldest first, each
      carrying the URL a worker fetches the request's detail from. */
  function PendingListing(rows: seq<Row>, baseUrl: string): (r: seq<PendingItem>)
    ensures Tables.SortedBy(r, ItemCreatedAt)
    ensures multiset(r) == multiset(Tables.Map(ItemAt(baseUrl), Tables.Select(rows, IsPending)))
    ensures forall e :: e in r <==> exists x :: x in rows && IsPending(x) && e == ItemOf(x, baseUrl)
    ensures forall k :: 0 <= k < |r| ==> r[k].url == RequestUrl(baseUrl, r[k].genre, r[k].requestId)
  {
    var pending := Tables.Select(rows, IsPending);
    var sorted := Tables.SortBy(pending, CreatedAt);
    Tables.MapPermutation(ItemAt(baseUrl), sorted, pending);
    ListingSorted(sorted, baseUrl);
    ListingMembers(rows, sorted, baseUrl);
    Tables.Map(ItemAt(baseUrl), sorted)
  }

  /** The items built one per sorted pending row are the listing. */
  lemma ListingBuilt(rows: seq<Row>, baseUrl: string, sorted: seq<Row>, items: seq<PendingItem>)
    requires sorted == Tables.SortBy(Tables.Select(rows, IsPending), CreatedAt)
    requires |items| == |sorted|
    requires forall k :: 0 <= k < |sorted| ==> items[k] == ItemOf(sorted[k], baseUrl)
    ensures items == PendingListing(rows, baseUrl)
    ensures |items| == Tables.RowCount(rows, IsPending)
  {
    assert items == Tables.Map(ItemAt(baseUrl), sorted);
    assert |multiset(sorted)| == |multiset(Tables.Select(rows, IsPending))|;
  }

  lemma ListingSorted(sorted: seq<Row>, baseUrl: string)
    requires Tables.SortedBy(sorted, CreatedAt)
    ensures Tables.SortedBy(Tables.Map(ItemAt(baseUrl), sorted), ItemCreatedAt)
    ensures forall k :: 0 <= k < |sorted| ==>
      Tables.Map(ItemAt(baseUrl), sorted)[k].url == RequestUrl(baseUrl, sorted[k].genre, sorted[k].id)
  {
    var r := Tables.Map(ItemAt(baseUrl), sorted);
    forall i, j | 0 <= i < j < |r| ensures ItemCreatedAt(r[i]) <= ItemCreatedAt(r[j]) {
      assert r[i] == ItemOf(sorted[i], baseUrl) && r[j] == ItemOf(sorted[j], baseUrl);
    }
  }

  lemma ListingMembers(rows: seq<Row>, sorted: seq<Row>, baseUrl: string)
    requires multiset(sorted) == multiset(Tables.Select(rows, IsPending))
    ensures forall e :: e in Tables.Map(ItemAt(baseUrl), sorted) <==> exists x :: x in rows && IsPending(x) && e == ItemOf(x, baseUrl)
  {
    Tables.MapMembers(ItemAt(baseUrl), sorted);
    forall x ensures x in sorted <==> x in rows && IsPending(x) {
      assert x in sorted <==> x in multiset(sorted);
      assert x in Tables.Select(rows, IsPending) <==> x in multiset(Tables.Select(rows, IsPending));
    }
  }

  /** `get_request_detail`: the row with that id, provided its genre matches too. */
  function RequestDetail(rows: seq<Row>, genre: string, requestId: string): (r: Option<Row>)
    ensures r.None? <==> forall x :: x in rows ==> !HasKey(x, genre, requestId)
    ensures r.Some? ==> r.value in rows && HasKey(r.value, genre, requestId)
    decreases |rows|
  {
    if rows == [] then None
    else if HasKey(rows[0], genre, requestId) then Some(rows[0])
    else
      assert forall x :: x in rows <==> x == rows[0] || x in rows[1..];
      RequestDetail(rows[1..], genre, requestId)
  }

  /** Under the PRIMARY KEY, a detail lookup finds exactly the row with that id and genre. */
  lemma DetailIsTheRow(rows: seq<Row>, x: Row)
    requires Tables.DistinctBy(rows, Id)
    requires x in rows
    ensures RequestDetail(rows, x.genre, x.id) == Some(x)
  {
    var y := RequestDetail(rows, x.genre, x.id).value;
    var i :| 0 <= i < |rows| && rows[i] == x;
    var j :| 0 <= j < |rows| && rows[j] == y;
  }

  /** `if not genre or not callback_url`: a field that is missing, null or empty is rejected. */
  function ValidateCreate(genre: Option<string>, callbackUrl: Option<string>): (r: Option<(string, string)>)
    ensures r.Some? <==> genre.Some? && genre.value != "" && callbackUrl.Some? && callbackUrl.value != ""
    ensures r.Some? ==> r.value == (genre.value, callbackUrl.value)
  {
    match (genre, callbackUrl)
    case (Some(g), Some(c)) => if g != "" && c != "" then Some((g, c)) else None
    case _ => None
  }

  class RequestTable {
    var rows: seq<Row>

    /** The PRIMARY KEY constraint on `id`, and every status is held in its one
        representation. */
    ghost predicate Valid()
      reads this
    {
      && Tables.DistinctBy(rows, Id)
      && (forall i :: 0 <= i < |rows| ==> Canonical(rows[i].status))
    }

    /** `init_db` on a new database file. */
    constructor ()
      ensures Valid() && rows == []
    {
      rows := [];
    }

    /** `create_request`: inserts one pending row under the id cut from the uuid text. A
        taken id makes the insert raise and nothing is inserted. */
    method CreateRequest(genre: string, callbackUrl: string, data: Option<string>, uuidText: string, now: Instant)
      returns (r: Result<string, AppError>)
      requires Valid()
      modifies this
      ensures Valid()
      ensures var id := UuidRequestId(uuidText);
        if exists x :: x in old(rows) && x.id == id then
          r == Err(DuplicateId(id)) && rows == old(rows)
        else
          && r == Ok(id)
          && rows == old(rows) + [Row(id, genre, callbackUrl, Pending, None, now, None, data)]
          && RequestDetail(rows, genre, id) == Some(rows[|rows| - 1])
    {
      var id := UuidRequestId(uuidText);
      if exists x :: x in rows && x.id == id {
        r := Err(DuplicateId(id));
        return;
      }
      var row := Row(id, genre, callbackUrl, Pending, None, now, None, data);
      ghost var before := rows;
      rows := rows + [row];
      forall i, j | 0 <= i < j < |rows| ensures Id(rows[i]) != Id(rows[j]) {
        if j == |before| {
          assert rows[i] in before;
        } else {
          assert rows[i] == before[i] && rows[j] == before[j];
        }
      }
      DetailIsTheRow(rows, row);
      r := Ok(id);
    }

    /** `delete_request_after_timeout`, the body of the timer `create_request` starts:
        deletes the row with that id and genre, whatever its status. */
    method DeleteRequestAfterTimeout(genre: string, requestId: string)
      requires Valid()
      modifies this
      ensures Valid()
      ensures rows == DeleteRequest(old(rows), genre, requestId)
    {
      ghost var before := rows;
      rows := DeleteRequest(rows, genre, requestId);
      Tables.SelectKeepsDistinct(before, Tables.Not(WhereKey(genre, requestId)), Id);
      forall i | 0 <= i < |rows| ensures Canonical(rows[i].status) {
        assert rows[i] in before;
      }
    }

    /** `update_request_status`: overwrites status and `locked_by` of the row with that key,
        whatever its status, and returns whether such a row exists. */
    method UpdateRequestStatus(genre: string, requestId: string, status: string, lockedBy: Option<string>, now: Instant)
      returns (updated: bool)
      requires Valid()
      modifies this
      ensures Valid()
      ensures rows == Report(old(rows), genre, requestId, Parse(status), lockedBy, now)
      ensures updated <==> RequestDetail(old(rows), genre, requestId).Some?
    {
      updated := Tables.RowCount(rows, WhereKey(genre, requestId)) > 0;
      ghost var before := rows;
      rows := Report(rows, genre, requestId, Parse(status), lockedBy, now);
      Tables.UpdateKeepsDistinct(before, WhereKey(genre, requestId), SetReported(Parse(status), lockedBy, now), Id);
    }

    /** `get_pending_requests(base_url)`: builds the listing row by row from the pending
        rows in `created_at` order. */
    method GetPendingRequests(baseUrl: string) returns (items: seq<PendingItem>)
      ensures items == PendingListing(rows, baseUrl)
      ensures |items| == Tables.RowCount(rows, IsPending)
    {
      var sorted := Tables.SortBy(Tables.Select(rows, IsPending), CreatedAt);
      items := [];
      var i := 0;
      while i < |sorted|
        invariant 0 <= i <= |sorted|
        invariant |items| == i
        invariant forall k :: 0 <= k < i ==> items[k] == ItemOf(sorted[k], baseUrl)
      {
        items := items + [ItemOf(sorted[i], baseUrl)];
        i := i + 1;
      }
      ListingBuilt(rows, baseUrl, sorted, items);
    }

    /** `release_stale_locks(minutes)`: puts `locked` rows created before `minutes` ago back
        to `pending` without an owner, and returns how many. */
    method ReleaseStaleLocks(now: Instant, minutes: int) returns (released: nat)
      requires Valid()
      modifies this
      ensures Valid()
      ensures rows == Requeue(old(rows), MinutesBefore(now, minutes))
      ensures released == Tables.RowCount(old(rows), WhereLockExpired(MinutesBefore(now, minutes)))
    {
      var cutoff := MinutesBefore(now, minutes);
      released := Tables.RowCount(rows, WhereLockExpired(cutoff));
      ghost var before := rows;
      rows := Requeue(rows, cutoff);
      Tables.UpdateKeepsDistinct(before, WhereLockExpired(cutoff), SetRequeued(), Id);
    }

    /** `timeout_old_requests(minutes)`: times out the pending rows created before `minutes`
        ago, and returns how many. */
    method TimeoutOldRequests(now: Instant, minutes: int) returns (timedOut: nat)
      requires Valid()
      modifies this
      ensures Valid()
      ensures rows == TimeOut(old(rows), MinutesBefore(now, minutes), now)
      ensures timedOut == Tables.RowCount(old(rows), WhereOverdue(MinutesBefore(now, minutes)))
    {
      var cutoff := MinutesBefore(now, minutes);
      timedOut := Tables.RowCount(rows, WhereOverdue(cutoff));
      ghost var before := rows;
      rows := TimeOut(rows, cutoff, now);
      Tables.UpdateKeepsDistinct(before, WhereOverdue(cutoff), SetTimedOut(now), Id);
    }

    /** `cleanup_old_requests(days)`: deletes terminal rows completed before `days` ago, and
        returns how many. */
    method CleanupOldRequests(now: Instant, days: int) returns (deleted: nat)
      requires Valid()
      modifies this
      ensures Valid()
      ensures rows == Purge(old(rows), DaysBefore(now, days))
      ensures deleted == Tables.RowCount(old(rows), WhereExpired(DaysBefore(now, days)))
      ensures |rows| + deleted == |old(rows)|
    {
      var cutoff := DaysBefore(now, days);
      deleted := Tables.RowCount(rows, WhereExpired(cutoff));
      ghost var before := rows;
      rows := Purge(rows, cutoff);
      Tables.SelectKeepsDistinct(before, Tables.Not(WhereExpired(cutoff)), Id);
      forall i | 0 <= i < |rows| ensures Canonical(rows[i].status) {
        assert rows[i] in before;
      }
    }

    /** `scheduled_tasks`, the scheduler's 60-second job: release locks older than 5 minutes,
        then time out requests older than 10 minutes. */
    method ScheduledTasks(now: Instant)
      requires Valid()
      modifies this
      ensures Valid()
      ensures rows == TimeOut(Requeue(old(rows), MinutesBefore(now, 5)), MinutesBefore(now, 10), now)
    {
      var released := ReleaseStaleLocks(now, 5);
      var timedOut := TimeoutOldRequests(now, 10);
    }

    /** `cleanup_task`, the scheduler's daily job: purge terminal rows older than 30 days. */
    method CleanupTask(now: Instant)
      requires Valid()
      modifies this
      ensures Valid()
      ensures rows == Purge(old(rows), DaysBefore(now, 30))
    {
      var deleted := CleanupOldRequests(now, 30);
    }

    /** `create_request_endpoint`: a missing or empty genre or callback_url is answered with
        400 before anything is inserted. Otherwise the request is created (201), or the insert
        raised (500) and nothing changed, or the row was stored and the notification step
        raised afterwards (500 with the row kept). `data` is the serialised payload, present
        exactly when the posted payload is truthy; `payloadIsObject` says whether that payload
        is a JSON object. */
    method CreateRequestEndpoint(
      genre: Option<string>, callbackUrl: Option<string>, data: Option<string>, payloadIsObject: bool,
      uuidText: string, now: Instant)
      returns (response: Response)
      requires Valid()
      modifies this
      ensures Valid()
      ensures ValidateCreate(genre, callbackUrl).None? ==> response == BadRequest && rows == old(rows)
      ensures ValidateCreate(genre, callbackUrl).Some? ==>
        var id := UuidRequestId(uuidText);
        if exists x :: x in old(rows) && x.id == id then
          response == ServerError && rows == old(rows)
        else
          && rows == old(rows) + [Row(id, genre.value, callbackUrl.value, Pending, None, now, None, data)]
          && response == if NotificationRaises(genre.value, data, payloadIsObject) then ServerError else Created(genre.value, id)
    {
      var fields := ValidateCreate(genre, callbackUrl);
      if fields.None? {
        return BadRequest;
      }
      var created := CreateRequest(fields.value.0, fields.value.1, data, uuidText, now);
      match created
      case Ok(id) =>
        if NotificationRaises(fields.value.0, data, payloadIsObject) {
          response := ServerError;
        } else {
          response := Created(fields.value.0, id);
        }
      case Err(_) => response := ServerError;
    }
  }
}
