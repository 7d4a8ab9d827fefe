/** What the statements of database.py guarantee about a request's lifecycle, and two
    clients of the store that run the allocator and the completion rule end to end. */
module DatabaseLifecycle {
  import opened Wrappers
  import opened Statuses
  import opened Clock
  import opened RequestIds
  import Tables
  import opened Database

  /** Completion is first-wins: once a report with a non-`pending` status has been applied,
      the completion statement matches no row of that key, so a second report (with any
      status, from any pc, at any time) reports failure and changes nothing. */
  lemma FirstReportWins(
    rows: seq<Row>, genre: string, requestId: string,
    first: Status, firstPc: Option<string>, firstAt: Instant,
    second: Status, secondPc: Option<string>, secondAt: Instant)
    requires first != Pending
    ensures var once := Complete(rows, genre, requestId, first, firstPc, firstAt);
      && Tables.RowCount(once, WhereCompletable(genre, requestId)) == 0
      && Complete(once, genre, requestId, second, secondPc, secondAt) == once
  {
    var once := Complete(rows, genre, requestId, first, firstPc, firstAt);
    Tables.UpdateSelfDisabling(rows, WhereCompletable(genre, requestId), SetCompleted(first, firstPc, firstAt));
    Tables.UpdateUnmatched(once, WhereCompletable(genre, requestId), SetCompleted(second, secondPc, secondAt));
  }

  /** The gate is the status alone: a report whose own status is `pending` completes nothing
      for good, and a later report on that row still matches. */
  lemma PendingReportKeepsRowOpen(rows: seq<Row>, i: nat, pcId: Option<string>, now: Instant)
    requires i < |rows| && rows[i].status == Pending
    ensures var once := Complete(rows, rows[i].genre, rows[i].requestId, Pending, pcId, now);
      Tables.RowCount(once, WhereCompletable(rows[i].genre, rows[i].requestId)) > 0
  {
    var once := Complete(rows, rows[i].genre, rows[i].requestId, Pending, pcId, now);
    assert once[i] in once;
  }

  /** A report for a key with no pending row (unknown, or already completed) matches nothing
      and leaves the table unchanged. */
  lemma ReportWithoutPendingRowIsNoop(
    rows: seq<Row>, genre: string, requestId: string, status: Status, pcId: Option<string>, now: Instant)
    requires forall x :: x in rows ==> !Completable(x, genre, requestId)
    ensures Tables.RowCount(rows, WhereCompletable(genre, requestId)) == 0
    ensures Complete(rows, genre, requestId, status, pcId, now) == rows
  {
    Tables.UpdateUnmatched(rows, WhereCompletable(genre, requestId), SetCompleted(status, pcId, now));
  }

  /** Completion does not look at the lock: a pending row locked by one pc is completed by a
      report from another, which overwrites `locked_by` and keeps `locked_at`. */
  lemma CompletionIgnoresLockHolder(rows: seq<Row>, i: nat, holder: string, reporter: string, status: Status, now: Instant)
    requires i < |rows| && rows[i].status == Pending && rows[i].lockedBy == Some(holder)
    ensures var after := Complete(rows, rows[i].genre, rows[i].requestId, status, Some(reporter), now);
      && Tables.RowCount(rows, WhereCompletable(rows[i].genre, rows[i].requestId)) > 0
      && after[i] == rows[i].(status := status, completedAt := Some(now), lockedBy := Some(reporter))
      && after[i].lockedAt == rows[i].lockedAt
  {
    assert rows[i] in rows;
  }

  /** A lock is taken at most once: a lock sets holder and time on the matching row and
      keeps it `pending`; after a lock by a real pc, a second attempt matches nothing and
      changes nothing. A lock with a NULL pc id writes NULL, so the row stays claimable. */
  lemma LockIsExclusive(
    rows: seq<Row>, genre: string, requestId: string,
    pcId: Option<string>, now: Instant, otherPc: Option<string>, later: Instant)
    ensures var once := Lock(rows, genre, requestId, pcId, now);
      && (forall i :: 0 <= i < |rows| ==> once[i].status == rows[i].status)
      && (forall i :: 0 <= i < |rows| && Lockable(rows[i], genre, requestId) ==>
            once[i].lockedBy == pcId && once[i].lockedAt == Some(now))
      && (pcId.Some? ==>
            && Tables.RowCount(once, WhereLockable(genre, requestId)) == 0
            && Lock(once, genre, requestId, otherPc, later) == once)
      && (pcId.None? ==>
            forall i :: 0 <= i < |rows| && Lockable(rows[i], genre, requestId) ==> Lockable(once[i], genre, requestId))
  {
    var once := Lock(rows, genre, requestId, pcId, now);
    if pcId.Some? {
      Tables.UpdateSelfDisabling(rows, WhereLockable(genre, requestId), SetLocked(pcId, now));
      Tables.UpdateUnmatched(once, WhereLockable(genre, requestId), SetLocked(otherPc, later));
    }
  }

  /** Stale-lock release only clears the lock columns of pending rows: no status changes,
      terminal rows are untouched, and a released row can be locked again. */
  lemma ReleaseOnlyFreesLocks(rows: seq<Row>, cutoff: Instant)
    ensures var after := Release(rows, cutoff);
      forall i :: 0 <= i < |rows| ==>
        && after[i].status == rows[i].status
        && after[i] == rows[i].(lockedBy := after[i].lockedBy, lockedAt := after[i].lockedAt)
        && (IsTerminal(rows[i].status) ==> after[i] == rows[i])
        && (HoldsStaleLock(rows[i], cutoff) ==> Lockable(after[i], rows[i].genre, rows[i].requestId))
        && (!HoldsStaleLock(rows[i], cutoff) ==> after[i] == rows[i])
  {
  }

  /** The timeout sweep turns exactly the overdue rows into `timeout` with `completed_at`
      set, leaves every other row (terminal ones included) as it was, and an immediate
      second sweep with the same cutoff finds nothing. */
  lemma TimeoutSweepsExactlyOverdue(rows: seq<Row>, cutoff: Instant, now: Instant)
    ensures var after := TimeOut(rows, cutoff, now);
      && (forall i :: 0 <= i < |rows| ==>
            after[i] == if Overdue(rows[i], cutoff) then rows[i].(status := Timeout, completedAt := Some(now)) else rows[i])
      && (forall i :: 0 <= i < |rows| && IsTerminal(rows[i].status) ==> after[i] == rows[i])
      && Tables.Select(after, WhereOverdue(cutoff)) == []
  {
    var after := TimeOut(rows, cutoff, now);
    Tables.UpdateSelfDisabling(rows, WhereOverdue(cutoff), SetTimedOut(now));
  }

  /** No request is returned by two timeout sweeps, whatever cutoff the later one uses: a row
      the first sweep returned is no longer pending. */
  lemma TimeoutNeverReturnsTwice(rows: seq<Row>, cutoff: Instant, now: Instant, laterCutoff: Instant)
    requires Tables.DistinctBy(rows, Key)
    ensures var first := Tables.Select(rows, WhereOverdue(cutoff));
      var second := Tables.Select(TimeOut(rows, cutoff, now), WhereOverdue(laterCutoff));
      forall x, y :: x in first && y in second ==> Key(x) != Key(y)
  {
    var after := TimeOut(rows, cutoff, now);
    var first := Tables.Select(rows, WhereOverdue(cutoff));
    var second := Tables.Select(after, WhereOverdue(laterCutoff));
    forall x, y | x in first && y in second ensures Key(x) != Key(y) {
      var i :| 0 <= i < |rows| && rows[i] == x;
      var j :| 0 <= j < |after| && after[j] == y;
      assert !Overdue(rows[j], cutoff) && after[j] == rows[j];
      if i < j {
        assert Key(rows[i]) != Key(rows[j]);
      } else if j < i {
        assert Key(rows[j]) != Key(rows[i]);
      }
    }
  }

  /** The retention purge deletes only terminal rows completed before the cutoff: a
      non-terminal row survives at any age, and a purged row can no longer be looked up. */
  lemma PurgeDeletesOnlyExpired(rows: seq<Row>, cutoff: Instant)
    requires Tables.DistinctBy(rows, Key)
    ensures forall x :: x in rows && !IsTerminal(x.status) ==> x in Purge(rows, cutoff)
    ensures forall x :: x in rows && !Expired(x, cutoff) ==> x in Purge(rows, cutoff)
    ensures forall x :: x in rows && Expired(x, cutoff) ==> RequestDetail(Purge(rows, cutoff), x.genre, x.requestId) == None
  {
    var after := Purge(rows, cutoff);
    forall x | x in rows && Expired(x, cutoff)
      ensures RequestDetail(after, x.genre, x.requestId) == None
    {
      forall y | y in after ensures Key(y) != (x.genre, x.requestId) {
        var i :| 0 <= i < |rows| && rows[i] == x;
        var j :| 0 <= j < |rows| && rows[j] == y;
        if i < j {
          assert Key(rows[i]) != Key(rows[j]);
        } else if j < i {
          assert Key(rows[j]) != Key(rows[i]);
        }
      }
    }
  }

  /** A request just created is in the pending listing. */
  lemma CreatedRequestIsListed(rows: seq<Row>, row: Row)
    requires row.status == Pending
    ensures Entry(row) in PendingRequests(rows + [row])
  {
    assert row in rows + [row];
  }

  /** Two successive allocations for one genre return consecutive counter values: strictly
      increasing, hence distinct ids, and without a gap. */
  method AllocateTwice(store: RequestStore, genre: string) returns (first: string, second: string)
    requires store.Valid() && genre in store.counters
    modifies store
    ensures store.Valid()
    ensures IsDigits(first) && IsDigits(second)
    ensures ValueOf(first) == old(store.counters[genre]) + 1
    ensures ValueOf(second) == ValueOf(first) + 1
    ensures first != second
    ensures store.counters == old(store.counters)[genre := old(store.counters[genre]) + 2]
  {
    var a := store.NextRequestId(genre);
    var b := store.NextRequestId(genre);
    first, second := a.value, b.value;
    FormatCounterRoundTrip(old(store.counters[genre]) + 1);
    FormatCounterRoundTrip(old(store.counters[genre]) + 2);
  }

  /** On a new database: a request of genre logincheckrequest gets id 00001 and is pending; a
      `success` report from pc-1 is accepted, a later `failed` report is refused, and the
      stored status stays `success` with pc-1 as `locked_by`. */
  method FirstReportWinsScenario() returns (id: string, pendingBefore: bool, first: bool, second: bool, stored: Option<Row>)
    ensures id == "00001" && pendingBefore
    ensures first && !second
    ensures stored.Some? && stored.value.status == Success && stored.value.lockedBy == Some("pc-1")
    ensures stored.value.completedAt == Some(10)
  {
    var store := new RequestStore();
    var created := store.CreateRequest(LoginCheckRequest, "http://sub/cb", 0);
    assert Decimal(1) == "1" && Zeros(4) == "0000";
    assert FormatCounter(1) == "00001";
    id := created.value;
    var row := store.rows[0];
    pendingBefore := RequestDetail(store.rows, LoginCheckRequest, id) == Some(row) && row.status == Pending;
    first := store.UpdateRequestStatus(LoginCheckRequest, id, "success", Some("pc-1"), 10);
    assert store.rows[0] == row.(status := Success, completedAt := Some(10), lockedBy := Some("pc-1"));
    second := store.UpdateRequestStatus(LoginCheckRequest, id, "failed", Some("pc-2"), 20);
    stored := RequestDetail(store.rows, LoginCheckRequest, id);
  }
}
