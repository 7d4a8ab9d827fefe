/** The SQLite request store of database.py: a `requests` table keyed by (genre, request_id)
    and a `counters` table holding one id counter per genre. Each operation is one SQL
    statement, written here as a WHERE clause and a SET clause over the table snapshot. */
module Database {
  import opened Wrappers
  import opened Statuses
  import opened Clock
  import opened RequestIds
  import Tables

  const LoginCheckRequest: string := "logincheckrequest"
  const ConnectionCheck: string := "connectioncheck"

  /** One row of `requests`; `rowId` is the AUTOINCREMENT `id` column. */
  datatype Row = Row(
    rowId: nat,
    genre: string,
    requestId: string,
    callbackUrl: string,
    status: Status,
    lockedBy: Option<string>,
    lockedAt: Option<Instant>,
    createdAt: Instant,
    completedAt: Option<Instant>)

  /** One entry of `get_pending_requests`: the columns genre, request_id, callback_url, created_at. */
  datatype PendingEntry = PendingEntry(genre: string, requestId: string, callbackUrl: string, createdAt: Instant)

  /** One entry of `timeout_old_requests`: the columns genre, request_id, callback_url. */
  datatype TimedOutEntry = TimedOutEntry(genre: string, requestId: string, callbackUrl: string)

  /** `Exception(f"Genre not found: {genre}")` from the id allocator. */
  datatype DbError = GenreNotFound(genre: string)

  /** The AUTOINCREMENT primary key column `id`. */
  function RowId(r: Row): nat {
    r.rowId
  }

  /** The UNIQUE(genre, request_id) key. */
  function Key(r: Row): (string, string) {
    (r.genre, r.requestId)
  }

  function CreatedAt(r: Row): int {
    r.createdAt
  }

  function EntryCreatedAt(e: PendingEntry): int {
    e.createdAt
  }

  function Entry(r: Row): PendingEntry {
    PendingEntry(r.genre, r.requestId, r.callbackUrl, r.createdAt)
  }

  function TimedOutEntryOf(r: Row): TimedOutEntry {
    TimedOutEntry(r.genre, r.requestId, r.callbackUrl)
  }

  predicate IsPending(r: Row) {
    r.status == Pending
  }

  // ---- WHERE clauses -------------------------------------------------------------------

  /** `genre = ? AND request_id = ? AND status = 'pending'` (update_request_status). */
  predicate Completable(r: Row, genre: string, requestId: string) {
    r.genre == genre && r.requestId == requestId && r.status == Pending
  }

  /** … `AND locked_by IS NULL` as well (lock_request). */
  predicate Lockable(r: Row, genre: string, requestId: string) {
    Completable(r, genre, requestId) && r.lockedBy.None?
  }

  /** `locked_by IS NOT NULL AND locked_at < ? AND status = 'pending'` (release_stale_locks). */
  predicate HoldsStaleLock(r: Row, cutoff: Instant) {
    r.lockedBy.Some? && Earlier(r.lockedAt, cutoff) && r.status == Pending
  }

  /** `status = 'pending' AND created_at < ?` (timeout_old_requests). */
  predicate Overdue(r: Row, cutoff: Instant) {
    r.status == Pending && r.createdAt < cutoff
  }

  /** `status IN ('success', 'failed', 'timeout') AND completed_at < ?` (cleanup_old_requests). */
  predicate Expired(r: Row, cutoff: Instant) {
    IsTerminal(r.status) && Earlier(r.completedAt, cutoff)
  }

  function WhereCompletable(genre: string, requestId: string): Row -> bool {
    r => Completable(r, genre, requestId)
  }

  function WhereLockable(genre: string, requestId: string): Row -> bool {
    r => Lockable(r, genre, requestId)
  }

  function WhereStaleLock(cutoff: Instant): Row -> bool {
    r => HoldsStaleLock(r, cutoff)
  }

  function WhereOverdue(cutoff: Instant): Row -> bool {
    r => Overdue(r, cutoff)
  }

  function WhereExpired(cutoff: Instant): Row -> bool {
    r => Expired(r, cutoff)
  }

  // ---- SET clauses ---------------------------------------------------------------------

  /** `SET status = ?, completed_at = ?, locked_by = ?`. */
  function SetCompleted(status: Status, pcId: Option<string>, now: Instant): Row -> Row {
    (r: Row) => r.(status := status, completedAt := Some(now), lockedBy := pcId)
  }

  /** `SET locked_by = ?, locked_at = ?`; a `None` pc id writes NULL. */
  function SetLocked(pcId: Option<string>, now: Instant): Row -> Row {
    (r: Row) => r.(lockedBy := pcId, lockedAt := Some(now))
  }

  /** `SET locked_by = NULL, locked_at = NULL`. */
  function SetUnlocked(): Row -> Row {
    (r: Row) => r.(lockedBy := None, lockedAt := None)
  }

  /** `SET status = 'timeout', completed_at = ?`. */
  function SetTimedOut(now: Instant): Row -> Row {
    (r: Row) => r.(status := Timeout, completedAt := Some(now))
  }

  // ---- Statements ----------------------------------------------------------------------

  function Complete(rows: seq<Row>, genre: string, requestId: string, status: Status, pcId: Option<string>, now: Instant): seq<Row> {
    Tables.Update(rows, WhereCompletable(genre, requestId), SetCompleted(status, pcId, now))
  }

  function Lock(rows: seq<Row>, genre: string, requestId: string, pcId: Option<string>, now: Instant): seq<Row> {
    Tables.Update(rows, WhereLockable(genre, requestId), SetLocked(pcId, now))
  }

  function Release(rows: seq<Row>, cutoff: Instant): seq<Row> {
    Tables.Update(rows, WhereStaleLock(cutoff), SetUnlocked())
  }

  function TimeOut(rows: seq<Row>, cutoff: Instant, now: Instant): seq<Row> {
    Tables.Update(rows, WhereOverdue(cutoff), SetTimedOut(now))
  }

  function Purge(rows: seq<Row>, cutoff: Instant): seq<Row> {
    Tables.Delete(rows, WhereExpired(cutoff))
  }

  // ---- Reads ---------------------------------------------------------------------------

  /** `get_pending_requests`: every pending row, oldest `created_at` first. */
  function PendingRequests(rows: seq<Row>): (r: seq<PendingEntry>)
    ensures Tables.SortedBy(r, EntryCreatedAt)
    ensures multiset(r) == multiset(Tables.Map(Entry, Tables.Select(rows, IsPending)))
    ensures forall e :: e in r <==> exists x :: x in rows && IsPending(x) && e == Entry(x)
  {
    var pending := Tables.Select(rows, IsPending);
    var sorted := Tables.SortBy(pending, CreatedAt);
    Tables.MapPermutation(Entry, sorted, pending);
    Tables.MapMembers(Entry, sorted);
    Tables.MapMembers(Entry, pending);
    var r := Tables.Map(Entry, sorted);
    forall e ensures e in r <==> e in Tables.Map(Entry, pending) {
      assert e in r <==> e in multiset(r);
    }
    r
  }

  /** `get_request_detail`: the first row with the given key, or None. */
  function RequestDetail(rows: seq<Row>, genre: string, requestId: string): (r: Option<Row>)
    ensures r.None? <==> forall x :: x in rows ==> Key(x) != (genre, requestId)
    ensures r.Some? ==> r.value in rows && Key(r.value) == (genre, requestId)
    decreases |rows|
  {
    if rows == [] then None
    else if Key(rows[0]) == (genre, requestId) then Some(rows[0])
    else
      assert forall x :: x in rows <==> x == rows[0] || x in rows[1..];
      RequestDetail(rows[1..], genre, requestId)
  }

  /** Under the UNIQUE key, the row a detail lookup finds is the only row with that key. */
  lemma DetailIsTheRow(rows: seq<Row>, x: Row)
    requires Tables.DistinctBy(rows, Key)
    requires x in rows
    ensures RequestDetail(rows, x.genre, x.requestId) == Some(x)
  {
    var y := RequestDetail(rows, x.genre, x.requestId).value;
    var i :| 0 <= i < |rows| && rows[i] == x;
    var j :| 0 <= j < |rows| && rows[j] == y;
    if i < j {
      assert Key(rows[i]) != Key(rows[j]);
    } else if j < i {
      assert Key(rows[j]) != Key(rows[i]);
    }
  }

  /** A row's request_id was minted by the allocator for its genre: a digit text whose value
      is between 1 and the genre's current counter. */
  ghost predicate Minted(r: Row, counters: map<string, nat>) {
    r.genre in counters && IsDigits(r.requestId) && 1 <= ValueOf(r.requestId) <= counters[r.genre]
  }

  /** The `id` column is a primary key, and every value in it was issued by the AUTOINCREMENT
      sequence, whose last value is `lastRowId`. */
  ghost predicate RowIdsIssued(rows: seq<Row>, lastRowId: nat) {
    && Tables.DistinctBy(rows, RowId)
    && (forall i :: 0 <= i < |rows| ==> 1 <= rows[i].rowId <= lastRowId)
  }

  /** An UPDATE that leaves the `id` column alone keeps the sequence's invariant. */
  lemma UpdateKeepsRowIds(rows: seq<Row>, p: Row -> bool, f: Row -> Row, lastRowId: nat)
    requires RowIdsIssued(rows, lastRowId)
    requires forall i :: 0 <= i < |rows| ==> f(rows[i]).rowId == rows[i].rowId
    ensures RowIdsIssued(Tables.Update(rows, p, f), lastRowId)
  {
    Tables.UpdateKeepsDistinct(rows, p, f, RowId);
  }

  /** A DELETE keeps the sequence's invariant. */
  lemma DeleteKeepsRowIds(rows: seq<Row>, p: Row -> bool, lastRowId: nat)
    requires RowIdsIssued(rows, lastRowId)
    ensures RowIdsIssued(Tables.Select(rows, p), lastRowId)
  {
    Tables.SelectKeepsDistinct(rows, p, RowId);
    var after := Tables.Select(rows, p);
    forall i | 0 <= i < |after| ensures 1 <= after[i].rowId <= lastRowId {
      assert after[i] in rows;
    }
  }

  /** An INSERT with the next value of the sequence keeps its invariant. */
  lemma InsertKeepsRowIds(rows: seq<Row>, row: Row, lastRowId: nat)
    requires RowIdsIssued(rows, lastRowId)
    requires row.rowId == lastRowId + 1
    ensures RowIdsIssued(rows + [row], lastRowId + 1)
  {
  }

  /** An INSERT whose key no row has yet keeps the UNIQUE(genre, request_id) constraint. */
  lemma InsertKeepsKeys(rows: seq<Row>, row: Row)
    requires Tables.DistinctBy(rows, Key)
    requires forall x :: x in rows ==> Key(x) != Key(row)
    ensures Tables.DistinctBy(rows + [row], Key)
  {
    var after := rows + [row];
    forall i, j | 0 <= i < j < |after| ensures Key(after[i]) != Key(after[j]) {
      assert after[i] == rows[i];
      if j < |rows| {
        assert after[j] == rows[j];
      } else {
        assert rows[i] in rows;
      }
    }
  }

  /** A row carrying the genre's freshly incremented counter value is minted, and every row
      minted before stays minted once the counter has gone up. */
  lemma InsertKeepsMinted(rows: seq<Row>, counters: map<string, nat>, row: Row)
    requires forall i :: 0 <= i < |rows| ==> Minted(rows[i], counters)
    requires row.genre in counters && row.requestId == FormatCounter(counters[row.genre] + 1)
    ensures var next := counters[row.genre := counters[row.genre] + 1];
      forall i :: 0 <= i < |rows + [row]| ==> Minted((rows + [row])[i], next)
  {
    FormatCounterRoundTrip(counters[row.genre] + 1);
    var next := counters[row.genre := counters[row.genre] + 1];
    var after := rows + [row];
    forall i | 0 <= i < |after| ensures Minted(after[i], next) {
      if i < |rows| {
        assert after[i] == rows[i];
        assert Minted(rows[i], counters);
      }
    }
  }

  class RequestStore {
    var rows: seq<Row>
    var counters: map<string, nat>
    /** The AUTOINCREMENT sequence: the largest `id` ever given to a row. */
    var lastRowId: nat

    /** The UNIQUE(genre, request_id) constraint holds, every id came from the counter of its
        genre, so the next id the counter mints is new, and every status is held in its one
        representation. The AUTOINCREMENT `id` column is a primary key whose values were all
        issued by the sequence, so the next one is new. */
    ghost predicate Valid()
      reads this
    {
      && Tables.DistinctBy(rows, Key)
      && RowIdsIssued(rows, lastRowId)
      && (forall i :: 0 <= i < |rows| ==> Minted(rows[i], counters))
      && (forall i :: 0 <= i < |rows| ==> Canonical(rows[i].status))
    }

    /** `init_db` on a new database file: empty tables, two genres whose counters are 0. */
    constructor ()
      ensures Valid()
      ensures rows == [] && lastRowId == 0
      ensures counters == map[LoginCheckRequest := 0, ConnectionCheck := 0]
    {
      rows := [];
      counters := map[LoginCheckRequest := 0, ConnectionCheck := 0];
      lastRowId := 0;
    }

    /** `get_next_request_id`: increments the genre's counter by one and returns the new value
        as `{:05d}`; an unknown genre raises and the rollback leaves every counter as it was. */
    method NextRequestId(genre: string) returns (r: Result<string, DbError>)
      requires Valid()
      modifies this
      ensures Valid()
      ensures rows == old(rows) && lastRowId == old(lastRowId)
      ensures genre in old(counters) ==>
        && counters == old(counters)[genre := old(counters)[genre] + 1]
        && r == Ok(FormatCounter(counters[genre]))
      ensures genre !in old(counters) ==> counters == old(counters) && r == Err(GenreNotFound(genre))
    {
      if genre in counters {
        counters := counters[genre := counters[genre] + 1];
        r := Ok(FormatCounter(counters[genre]));
      } else {
        r := Err(GenreNotFound(genre));
      }
    }

    /** `create_request`: mints an id, then inserts one `pending` row with it. The UNIQUE
        constraint cannot reject that row: the id's value exceeds every id of the genre. */
    method CreateRequest(genre: string, callbackUrl: string, now: Instant) returns (r: Result<string, DbError>)
      requires Valid()
      modifies this
      ensures Valid()
      ensures genre !in old(counters) ==>
        && r == Err(GenreNotFound(genre))
        && rows == old(rows) && counters == old(counters) && lastRowId == old(lastRowId)
      ensures genre in old(counters) ==>
        && counters == old(counters)[genre := old(counters)[genre] + 1]
        && r == Ok(FormatCounter(counters[genre]))
        && lastRowId == old(lastRowId) + 1
        && rows == old(rows) + [Row(lastRowId, genre, r.value, callbackUrl, Pending, None, None, now, None)]
        && (forall x :: x in old(rows) ==> Key(x) != (genre, r.value))
        && RequestDetail(rows, genre, r.value) == Some(rows[|rows| - 1])
    {
      r := NextRequestId(genre);
      if r.Err? {
        return;
      }
      var id := r.value;
      FormatCounterRoundTrip(counters[genre]);
      forall x | x in rows ensures Key(x) != (genre, id) {
        var i :| 0 <= i < |rows| && rows[i] == x;
        assert Minted(rows[i], old(counters));
      }
      lastRowId := lastRowId + 1;
      var row := Row(lastRowId, genre, id, callbackUrl, Pending, None, None, now, None);
      ghost var before := rows;
      rows := rows + [row];
      assert forall i :: 0 <= i < |before| ==> rows[i] == before[i];
      InsertKeepsKeys(before, row);
      InsertKeepsMinted(before, old(counters), row);
      InsertKeepsRowIds(before, row, old(lastRowId));
      DetailIsTheRow(rows, row);
    }

    /** `update_request_status`: completes the row only while it is `pending`, and returns
        whether a row changed. */
    method UpdateRequestStatus(genre: string, requestId: string, status: string, pcId: Option<string>, now: Instant)
      returns (updated: bool)
      requires Valid()
      modifies this
      ensures Valid()
      ensures rows == Complete(old(rows), genre, requestId, Parse(status), pcId, now)
      ensures updated <==> exists x :: x in old(rows) && Completable(x, genre, requestId)
      ensures counters == old(counters) && lastRowId == old(lastRowId)
    {
      updated := Tables.RowCount(rows, WhereCompletable(genre, requestId)) > 0;
      ghost var before := rows;
      rows := Complete(rows, genre, requestId, Parse(status), pcId, now);
      Tables.UpdateKeepsDistinct(before, WhereCompletable(genre, requestId), SetCompleted(Parse(status), pcId, now), Key);
      UpdateKeepsRowIds(before, WhereCompletable(genre, requestId), SetCompleted(Parse(status), pcId, now), lastRowId);
    }

    /** `lock_request`: claims a `pending` row that nobody holds, and returns whether it did. */
    method LockRequest(genre: string, requestId: string, pcId: Option<string>, now: Instant) returns (locked: bool)
      requires Valid()
      modifies this
      ensures Valid()
      ensures rows == Lock(old(rows), genre, requestId, pcId, now)
      ensures locked <==> exists x :: x in old(rows) && Lockable(x, genre, requestId)
      ensures counters == old(counters) && lastRowId == old(lastRowId)
    {
      locked := Tables.RowCount(rows, WhereLockable(genre, requestId)) > 0;
      ghost var before := rows;
      rows := Lock(rows, genre, requestId, pcId, now);
      Tables.UpdateKeepsDistinct(before, WhereLockable(genre, requestId), SetLocked(pcId, now), Key);
      UpdateKeepsRowIds(before, WhereLockable(genre, requestId), SetLocked(pcId, now), lastRowId);
    }

    /** `release_stale_locks(minutes)`: frees the locks taken before `minutes` ago on rows
        still pending, and returns how many it freed. */
    method ReleaseStaleLocks(now: Instant, minutes: int) returns (released: nat)
      requires Valid()
      modifies this
      ensures Valid()
      ensures rows == Release(old(rows), MinutesBefore(now, minutes))
      ensures released == Tables.RowCount(old(rows), WhereStaleLock(MinutesBefore(now, minutes)))
      ensures counters == old(counters) && lastRowId == old(lastRowId)
    {
      var cutoff := MinutesBefore(now, minutes);
      released := Tables.RowCount(rows, WhereStaleLock(cutoff));
      ghost var before := rows;
      rows := Release(rows, cutoff);
      Tables.UpdateKeepsDistinct(before, WhereStaleLock(cutoff), SetUnlocked(), Key);
      UpdateKeepsRowIds(before, WhereStaleLock(cutoff), SetUnlocked(), lastRowId);
    }

    /** `timeout_old_requests(minutes)`: selects the pending rows created before `minutes`
        ago, turns exactly those into `timeout`, and returns what it selected. */
    method TimeoutOldRequests(now: Instant, minutes: int) returns (timedOut: seq<TimedOutEntry>)
      requires Valid()
      modifies this
      ensures Valid()
      ensures timedOut == Tables.Map(TimedOutEntryOf, Tables.Select(old(rows), WhereOverdue(MinutesBefore(now, minutes))))
      ensures rows == TimeOut(old(rows), MinutesBefore(now, minutes), now)
      ensures counters == old(counters) && lastRowId == old(lastRowId)
    {
      var cutoff := MinutesBefore(now, minutes);
      timedOut := Tables.Map(TimedOutEntryOf, Tables.Select(rows, WhereOverdue(cutoff)));
      ghost var before := rows;
      rows := TimeOut(rows, cutoff, now);
      Tables.UpdateKeepsDistinct(before, WhereOverdue(cutoff), SetTimedOut(now), Key);
      UpdateKeepsRowIds(before, WhereOverdue(cutoff), SetTimedOut(now), lastRowId);
    }

    /** `cleanup_old_requests(days)`: deletes the terminal rows completed before `days` ago,
        and returns how many it deleted. */
    method CleanupOldRequests(now: Instant, days: int) returns (deleted: nat)
      requires Valid()
      modifies this
      ensures Valid()
      ensures rows == Purge(old(rows), DaysBefore(now, days))
      ensures deleted == Tables.RowCount(old(rows), WhereExpired(DaysBefore(now, days)))
      ensures |rows| + deleted == |old(rows)|
      ensures counters == old(counters) && lastRowId == old(lastRowId)
    {
      var cutoff := DaysBefore(now, days);
      deleted := Tables.RowCount(rows, WhereExpired(cutoff));
      ghost var before := rows;
      rows := Purge(rows, cutoff);
      Tables.SelectKeepsDistinct(before, Tables.Not(WhereExpired(cutoff)), Key);
      DeleteKeepsRowIds(before, Tables.Not(WhereExpired(cutoff)), lastRowId);
      forall i | 0 <= i < |rows| ensures Minted(rows[i], counters) && Canonical(rows[i].status) {
        assert rows[i] in before;
      }
    }
  }
}
