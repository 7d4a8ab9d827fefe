/** What the statements of app.py guarantee about a request's lifecycle, and a client of the
    table that shows the last report winning. */
module AppLifecycle {
  import opened Wrappers
  import opened Statuses
  import opened Clock
  import opened RequestIds
  import Tables
  import opened App

  /** Completion is last-wins: a second report for the same key replaces everything the first
      one wrote, and it succeeds exactly when the first one did. */
  lemma LaterReportOverwrites(
    rows: seq<Row>, genre: string, requestId: string,
    first: Status, firstBy: Option<string>, firstAt: Instant,
    second: Status, secondBy: Option<string>, secondAt: Instant)
    ensures var once := Report(rows, genre, requestId, first, firstBy, firstAt);
      && Report(once, genre, requestId, second, secondBy, secondAt) == Report(rows, genre, requestId, second, secondBy, secondAt)
      && (Tables.RowCount(once, WhereKey(genre, requestId)) > 0 <==> Tables.RowCount(rows, WhereKey(genre, requestId)) > 0)
  {
    var once := Report(rows, genre, requestId, first, firstBy, firstAt);
    var twice := Report(once, genre, requestId, second, secondBy, secondAt);
    var direct := Report(rows, genre, requestId, second, secondBy, secondAt);
    forall i | 0 <= i < |rows| ensures twice[i] == direct[i] {
      assert HasKey(once[i], genre, requestId) == HasKey(rows[i], genre, requestId);
    }
    forall x | x in rows && HasKey(x, genre, requestId) ensures exists y :: y in once && HasKey(y, genre, requestId) {
      var i :| 0 <= i < |rows| && rows[i] == x;
      assert once[i] in once;
    }
    forall y | y in once && HasKey(y, genre, requestId) ensures exists x :: x in rows && HasKey(x, genre, requestId) {
      var i :| 0 <= i < |once| && once[i] == y;
      assert rows[i] in rows;
    }
  }

  /** A report rewrites status, `locked_by` and `completed_at` of the row with that key and
      nothing else; `completed_at` is set exactly for `success` and `failed` and cleared for
      every other status. Rows with another key are untouched. */
  lemma ReportSetsCompletionOnlyForSuccessOrFailed(
    rows: seq<Row>, genre: string, requestId: string, status: Status, lockedBy: Option<string>, now: Instant)
    ensures var after := Report(rows, genre, requestId, status, lockedBy, now);
      forall i :: 0 <= i < |rows| ==>
        if HasKey(rows[i], genre, requestId) then
          && after[i].status == status && after[i].lockedBy == lockedBy
          && (after[i].completedAt.Some? <==> status == Success || status == Failed)
          && (after[i].completedAt.Some? ==> after[i].completedAt == Some(now))
          && after[i] == rows[i].(status := after[i].status, lockedBy := after[i].lockedBy, completedAt := after[i].completedAt)
        else
          after[i] == rows[i]
  {
  }

  /** A worker that reports `timeout` leaves the row with no `completed_at`, and the retention
      purge never deletes such a row, whatever its cutoff. */
  lemma ReportedTimeoutIsNeverPurged(rows: seq<Row>, i: nat, lockedBy: Option<string>, now: Instant, cutoff: Instant)
    requires i < |rows|
    ensures var after := Report(rows, rows[i].genre, rows[i].id, Timeout, lockedBy, now);
      && after[i].status == Timeout && after[i].completedAt == None
      && after[i] in Purge(after, cutoff)
  {
    var after := Report(rows, rows[i].genre, rows[i].id, Timeout, lockedBy, now);
    assert after[i] in after;
  }

  /** The stale-lock release turns exactly the `locked` rows created before the cutoff back
      into `pending` with no owner; every other row, terminal ones included, is unchanged,
      and a second release with the same cutoff finds nothing. */
  lemma ReleaseRequeuesOnlyStaleLocks(rows: seq<Row>, cutoff: Instant)
    ensures var after := Requeue(rows, cutoff);
      && (forall i :: 0 <= i < |rows| ==>
            after[i] == if LockExpired(rows[i], cutoff) then rows[i].(status := Pending, lockedBy := None) else rows[i])
      && (forall i :: 0 <= i < |rows| && IsTerminal(rows[i].status) ==> after[i] == rows[i])
      && Tables.RowCount(after, WhereLockExpired(cutoff)) == 0
  {
    Tables.UpdateSelfDisabling(rows, WhereLockExpired(cutoff), SetRequeued());
  }

  /** The timeout sweep turns exactly the `pending` rows created before the cutoff into
      `timeout` completed now; every other row is unchanged, and a second sweep with the same
      cutoff finds nothing. */
  lemma TimeoutSweepsExactlyOverdue(rows: seq<Row>, cutoff: Instant, now: Instant)
    ensures var after := TimeOut(rows, cutoff, now);
      && (forall i :: 0 <= i < |rows| ==>
            after[i] == if Overdue(rows[i], cutoff) then rows[i].(status := Timeout, completedAt := Some(now)) else rows[i])
      && (forall i :: 0 <= i < |rows| && IsTerminal(rows[i].status) ==> after[i] == rows[i])
      && Tables.RowCount(after, WhereOverdue(cutoff)) == 0
  {
    Tables.UpdateSelfDisabling(rows, WhereOverdue(cutoff), SetTimedOut(now));
  }

  /** The retention purge deletes exactly the terminal rows completed before the cutoff: any
      other row survives at any age, and a purged request can no longer be looked up. */
  lemma PurgeDeletesOnlyExpired(rows: seq<Row>, cutoff: Instant)
    requires Tables.DistinctBy(rows, Id)
    ensures forall x :: x in rows && !IsTerminal(x.status) ==> x in Purge(rows, cutoff)
    ensures forall x :: x in rows && !Expired(x, cutoff) ==> x in Purge(rows, cutoff)
    ensures forall x :: x in rows && Expired(x, cutoff) ==> RequestDetail(Purge(rows, cutoff), x.genre, x.id) == None
  {
    var after := Purge(rows, cutoff);
    forall x | x in rows && Expired(x, cutoff)
      ensures RequestDetail(after, x.genre, x.id) == None
    {
      forall y | y in after ensures !HasKey(y, x.genre, x.id) {
        var i :| 0 <= i < |rows| && rows[i] == x;
        var j :| 0 <= j < |rows| && rows[j] == y;
        if i < j {
          assert Id(rows[i]) != Id(rows[j]);
        } else if j < i {
          assert Id(rows[j]) != Id(rows[i]);
        }
      }
    }
  }

  /** Under the PRIMARY KEY at most one row has a given id, so at most one has a given key. */
  lemma AtMostOneWithKey(rows: seq<Row>, genre: string, requestId: string)
    requires Tables.DistinctBy(rows, Id)
    ensures Tables.RowCount(rows, WhereKey(genre, requestId)) <= 1
  {
    var matched := Tables.Select(rows, WhereKey(genre, requestId));
    Tables.SelectKeepsDistinct(rows, WhereKey(genre, requestId), Id);
    if |matched| >= 2 {
      FirstTwoShareId(matched, genre, requestId);
      assert false;
    }
  }

  lemma FirstTwoShareId(s: seq<Row>, genre: string, requestId: string)
    requires |s| >= 2 && forall x :: x in s ==> HasKey(x, genre, requestId)
    ensures Id(s[0]) == Id(s[1])
  {
    assert s[0] in s && s[1] in s;
  }

  /** The delayed delete removes at most the one row with that id and genre, whatever its
      status, keeps every other row, and changes nothing when that row is absent. */
  lemma DeleteAfterTimeoutRemovesOnlyThatRow(rows: seq<Row>, genre: string, requestId: string)
    requires Tables.DistinctBy(rows, Id)
    ensures var after := DeleteRequest(rows, genre, requestId);
      && |after| >= |rows| - 1
      && (forall x :: x in rows && !HasKey(x, genre, requestId) ==> x in after)
      && RequestDetail(after, genre, requestId) == None
      && (RequestDetail(rows, genre, requestId) == None ==> after == rows)
  {
    AtMostOneWithKey(rows, genre, requestId);
    if RequestDetail(rows, genre, requestId) == None {
      Tables.SelectEverything(rows, Tables.Not(WhereKey(genre, requestId)));
    }
  }

  /** An insert followed by its own delayed delete, with nothing in between, restores the table. */
  lemma CreateThenDeleteRestores(rows: seq<Row>, row: Row)
    requires forall x :: x in rows ==> !HasKey(x, row.genre, row.id)
    ensures DeleteRequest(rows + [row], row.genre, row.id) == rows
  {
    var keep := Tables.Not(WhereKey(row.genre, row.id));
    Tables.SelectAppend(rows, [row], keep);
    Tables.SelectEverything(rows, keep);
    assert Tables.Select([row], keep) == [];
  }

  /** One run of the 60-second job: afterwards no row is `locked` with a creation older than 5
      minutes and none is `pending` with a creation older than 10 minutes; a lock older than
      10 minutes is released and timed out in the same run; terminal rows are untouched. */
  lemma ScheduledTasksOutcome(rows: seq<Row>, now: Instant)
    ensures var after := TimeOut(Requeue(rows, MinutesBefore(now, 5)), MinutesBefore(now, 10), now);
      && |after| == |rows|
      && (forall i :: 0 <= i < |after| && after[i].status == Locked ==> after[i].createdAt >= MinutesBefore(now, 5))
      && (forall i :: 0 <= i < |after| && after[i].status == Pending ==> after[i].createdAt >= MinutesBefore(now, 10))
      && (forall i :: 0 <= i < |rows| && LockExpired(rows[i], MinutesBefore(now, 10)) ==> after[i].status == Timeout)
      && (forall i :: 0 <= i < |rows| && IsTerminal(rows[i].status) ==> after[i] == rows[i])
  {
    var released := Requeue(rows, MinutesBefore(now, 5));
    var after := TimeOut(released, MinutesBefore(now, 10), now);
    forall i | 0 <= i < |rows| ensures after[i].createdAt == rows[i].createdAt {
      assert released[i].createdAt == rows[i].createdAt;
    }
  }

  /** On an empty table: a request created from a uuid text gets the uuid's first five
      characters as id; a `success` report from pc-1 and a later `failed` report from pc-2 are
      both accepted, and the stored row ends `failed`, owned by pc-2, completed at the second
      report's time. An empty genre is refused and inserts nothing. */
  method LastReportWinsScenario() returns (
    id: string, rejected: Response, sizeAfterRejection: nat, first: bool, second: bool, stored: Option<Row>)
    ensures id == "3f2a9"
    ensures rejected == BadRequest && sizeAfterRejection == 1
    ensures first && second
    ensures stored.Some? && stored.value.status == Failed && stored.value.lockedBy == Some("pc-2")
    ensures stored.value.completedAt == Some(20)
  {
    var table := new RequestTable();
    var created := table.CreateRequest("logincheckrequest", "http://sub/cb", None, "3f2a9c1e-0000-4000-8000-000000000000", 0);
    assert "3f2a9c1e-0000-4000-8000-000000000000"[..5] == "3f2a9";
    id := created.value;
    rejected := table.CreateRequestEndpoint(Some(""), Some("http://sub/cb"), None, false, "77777777-0000-4000-8000-000000000000", 5);
    sizeAfterRejection := |table.rows|;
    first := table.UpdateRequestStatus("logincheckrequest", id, "success", Some("pc-1"), 10);
    second := table.UpdateRequestStatus("logincheckrequest", id, "failed", Some("pc-2"), 20);
    assert table.rows[0].status == Failed;
    stored := RequestDetail(table.rows, "logincheckrequest", id);
  }

  /** A login-check request whose payload is not a JSON object is stored, and then the
      notification step raises: the endpoint answers 500 while the row stays in the table,
      pending, until its delayed delete. */
  method NonObjectPayloadScenario() returns (response: Response, stored: Option<Row>)
    ensures response == ServerError
    ensures stored.Some? && stored.value.status == Pending && stored.value.data == Some("\"abc\"")
  {
    var table := new RequestTable();
    response := table.CreateRequestEndpoint(
      Some("logincheckrequest"), Some("http://sub/cb"), Some("\"abc\""), false,
      "9b1c0d2e-0000-4000-8000-000000000000", 0);
    assert "9b1c0d2e-0000-4000-8000-000000000000"[..5] == "9b1c0";
    stored := RequestDetail(table.rows, "logincheckrequest", "9b1c0");
  }
}
