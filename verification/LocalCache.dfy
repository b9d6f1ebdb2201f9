/** How many cycles empty a backlog when each takes a full batch. */
module Drain {
  import opened Text

  /** What is left of `n` after `i` cycles of `batch`. */
  function Remaining(n: nat, batch: nat, i: nat): nat {
    if i == 0 then n else Max(0, Remaining(n, batch, i - 1) - batch)
  }

  lemma {:induction false} RemainingClosed(n: nat, batch: nat, i: nat)
    ensures Remaining(n, batch, i) == Max(0, n - i * batch)
  {
    if i > 0 {
      RemainingClosed(n, batch, i - 1);
      assert i * batch == (i - 1) * batch + batch;
    }
  }

  /** The backlog is empty after exactly the rounded-up quotient of cycles, and not before. */
  lemma EmptyAfter(n: nat, batch: nat, i: nat)
    requires batch >= 1
    ensures Remaining(n, batch, i) == 0 <==> (n + batch - 1) / batch <= i
  {
    RemainingClosed(n, batch, i);
    var q := (n + batch - 1) / batch;
    DivMod(n + batch - 1, batch);
    if i < q { BlocksApart(i, q, batch); }
    if q < i { BlocksApart(q, i, batch); }
  }
}

/** The local SQLite cache and its sync engine: rows are pending, failed or synced, and one
    cycle uploads the oldest unsynced rows and marks them by the reply. */
module LocalCache {
  import opened Text
  import opened Timestamps
  import opened Ordering
  import Drain

  datatype Status = Pending | Synced | Failed

  datatype Row = Row(measuredAt: Instant, status: Status, retryCount: int, lastError: Option<string>, updatedAt: Instant)

  type Rows = map<string, Row>

  // ---------------------------------------------------- the table operations

  function Unsent(rows: Rows): set<string> { set k | k in rows && rows[k].status != Synced }

  function Older(rows: Rows): (string, string) -> bool {
    (j, k) => j in rows && k in rows && Less(ChronoString(rows[j].measuredAt), ChronoString(rows[k].measuredAt))
  }

  /** `ids` is what SELECT ... WHERE status IN ('pending','failed') ORDER BY measured_at LIMIT
      may answer. */
  ghost predicate FetchAnswer(rows: Rows, limit: nat, ids: seq<string>) {
    IsFirst(Unsent(rows), Older(rows), limit, ids)
  }

  /** Ordering by the stored text is ordering by time: the batch holds the earliest unsynced
      rows, in time order. */
  lemma OldestFirst(rows: Rows, limit: nat, ids: seq<string>)
    requires FetchAnswer(rows, limit, ids)
    ensures |ids| == Min(limit, |Unsent(rows)|) && Distinct(ids)
    ensures forall i :: 0 <= i < |ids| ==> ids[i] in Unsent(rows)
    ensures forall i, j :: 0 <= i < j < |ids| ==> rows[ids[i]].measuredAt <= rows[ids[j]].measuredAt
    ensures forall k, i :: k in Unsent(rows) && k !in ids && 0 <= i < |ids| ==>
              rows[ids[i]].measuredAt <= rows[k].measuredAt
  {
    forall i | 0 <= i < |ids| ensures ids[i] in Unsent(rows) { assert ids[i] in Elements(ids); }
    forall j, k | j in rows && k in rows && !Older(rows)(k, j) ensures rows[j].measuredAt <= rows[k].measuredAt {
      ChronoOrder(rows[k].measuredAt, rows[j].measuredAt);
    }
  }

  /** Which rows may be in a batch: those pending or failed, none that is synced; and as many of
      them as the limit allows are. */
  lemma BatchIs(rows: Rows, limit: nat, ids: seq<string>)
    requires FetchAnswer(rows, limit, ids)
    ensures |ids| == Min(limit, |set k | k in rows && (rows[k].status == Pending || rows[k].status == Failed)|)
    ensures Distinct(ids) && forall i :: 0 <= i < |ids| ==>
              ids[i] in rows && (rows[ids[i]].status == Pending || rows[ids[i]].status == Failed)
  {
    assert Unsent(rows) == set k | k in rows && (rows[k].status == Pending || rows[k].status == Failed);
    forall i | 0 <= i < |ids| ensures ids[i] in Unsent(rows) { assert ids[i] in Elements(ids); }
  }

  lemma BatchExists(rows: Rows, limit: nat) returns (ids: seq<string>)
    ensures FetchAnswer(rows, limit, ids)
  {
    forall i, j, k ensures !Older(rows)(i, i) && (Older(rows)(i, j) && Older(rows)(j, k) ==> Older(rows)(i, k)) {
      if i in rows { LessIrreflexive(ChronoString(rows[i].measuredAt)); }
      if Older(rows)(i, j) && Older(rows)(j, k) {
        LessTransitive(ChronoString(rows[i].measuredAt), ChronoString(rows[j].measuredAt), ChronoString(rows[k].measuredAt));
      }
    }
    ids := FirstExists(Unsent(rows), Older(rows), limit);
  }

  function Touch(r: Row, status: Status, error: Option<string>, now: Instant): Row {
    r.(status := status, lastError := error, updatedAt := now,
       retryCount := if status == Failed then r.retryCount + 1 else r.retryCount)
  }

  function Update(rows: Rows, ids: seq<string>, status: Status, error: Option<string>, now: Instant): Rows {
    map k | k in rows :: if k in ids then Touch(rows[k], status, error, now) else rows[k]
  }

  // ------------------------------------------------------------- one cycle

  datatype UploadReply = Answer(accepted: seq<string>, failed: seq<string>) | Refused(error: string)

  /** The status update after which the database refuses to go on. */
  datatype Fault = NoFault | AtFirst | AtSecond

  datatype Cycle = Cycle(batch: seq<string>, reply: UploadReply, fault: Fault, now: Instant)

  const REJECTED := "remote endpoint rejected record"

  /** An answer that names nobody accepts everybody. */
  function AcceptedIds(c: Cycle): seq<string>
    requires c.reply.Answer?
  {
    if c.reply.accepted == [] && c.reply.failed == [] then c.batch else c.reply.accepted
  }

  predicate MarksSynced(c: Cycle, k: string) {
    c.batch != [] && c.reply.Answer? && c.fault != AtFirst && k in AcceptedIds(c)
  }

  /** The cycle marks this id failed; readable off the reply. */
  predicate MarksFailed(c: Cycle, k: string) {
    c.batch != [] &&
    match c.reply
    case Refused(_) => c.fault != AtFirst && k in c.batch
    case Answer(_, failed) => c.fault != AtSecond && !(c.fault == AtFirst && AcceptedIds(c) != []) && k in failed
  }

  function RowAfter(c: Cycle, k: string, r: Row): Row {
    var synced := if MarksSynced(c, k) then Touch(r, Synced, None, c.now) else r;
    if MarksFailed(c, k) then Touch(synced, Failed, Some(if c.reply.Refused? then c.reply.error else REJECTED), c.now)
    else synced
  }

  /** What one cycle does to the table, row by row. */
  function After(rows: Rows, c: Cycle): Rows { map k | k in rows :: RowAfter(c, k, rows[k]) }

  class Cache {
    var rows: Rows

    constructor (initial: Rows)
      ensures rows == initial
    {
      rows := initial;
    }

    /** The named rows become synced without an error and keep the rest; no other row changes
        and none comes or goes. */
    method MarkSynced(ids: seq<string>, now: Instant)
      modifies this
      ensures rows.Keys == old(rows).Keys
      ensures forall k :: k in rows && k !in ids ==> rows[k] == old(rows)[k]
      ensures forall k :: k in rows && k in ids ==>
                rows[k].status == Synced && rows[k].lastError == None && rows[k].updatedAt == now &&
                rows[k].retryCount == old(rows)[k].retryCount && rows[k].measuredAt == old(rows)[k].measuredAt
      ensures rows == Update(old(rows), ids, Synced, None, now)
    {
      if ids == [] {
        assert rows == Update(rows, ids, Synced, None, now);
        return;
      }
      rows := Update(rows, ids, Synced, None, now);
    }

    /** The named rows become failed with the error and one retry more; no other row changes
        and none comes or goes. */
    method MarkFailed(ids: seq<string>, error: string, now: Instant)
      modifies this
      ensures rows.Keys == old(rows).Keys
      ensures forall k :: k in rows && k !in ids ==> rows[k] == old(rows)[k]
      ensures forall k :: k in rows && k in ids ==>
                rows[k].status == Failed && rows[k].lastError == Some(error) && rows[k].updatedAt == now &&
                rows[k].retryCount == old(rows)[k].retryCount + 1 && rows[k].measuredAt == old(rows)[k].measuredAt
      ensures rows == Update(old(rows), ids, Failed, Some(error), now)
    {
      if ids == [] {
        assert rows == Update(rows, ids, Failed, Some(error), now);
        return;
      }
      rows := Update(rows, ids, Failed, Some(error), now);
    }

    /** `sync_once` after the upload has been answered or given up. */
    method SyncOnce(c: Cycle) returns (ok: bool)
      modifies this
      ensures rows == After(old(rows), c)
      ensures ok ==> c.batch == [] || c.reply.Answer?
    {
      UpdatesAreCycle(rows, c);
      if c.batch == [] { return true; }
      match c.reply {
        case Refused(error) =>
          if c.fault != AtFirst { MarkFailed(c.batch, error, c.now); }
          return false;
        case Answer(accepted, failed) =>
          var acceptedIds := AcceptedIds(c);
          if acceptedIds != [] {
            if c.fault == AtFirst { return false; }
            MarkSynced(acceptedIds, c.now);
          }
          if failed != [] {
            if c.fault == AtSecond { return false; }
            MarkFailed(failed, REJECTED, c.now);
          }
          return true;
      }
    }
  }

  /** The bulk updates a cycle makes, as a whole, are its row-wise effect. */
  function Updated(rows: Rows, c: Cycle): Rows {
    if c.batch == [] then rows
    else match c.reply
      case Refused(error) => if c.fault != AtFirst then Update(rows, c.batch, Failed, Some(error), c.now) else rows
      case Answer(_, failed) =>
        if AcceptedIds(c) != [] && c.fault == AtFirst then rows
        else
          var synced := if AcceptedIds(c) != [] then Update(rows, AcceptedIds(c), Synced, None, c.now) else rows;
          if failed != [] && c.fault != AtSecond then Update(synced, failed, Failed, Some(REJECTED), c.now) else synced
  }

  lemma UpdatesAreCycle(rows: Rows, c: Cycle)
    ensures Updated(rows, c) == After(rows, c)
  {
    forall k | k in rows ensures k in Updated(rows, c) && Updated(rows, c)[k] == RowAfter(c, k, rows[k]) { }
  }

  // ------------------------------------------------------------ whole runs

  /** A cycle of the engine, or a row written by whoever weighs; an id already there is refused. */
  datatype Event = Sync(cycle: Cycle) | Insert(id: string, row: Row)

  function Apply(rows: Rows, e: Event): Rows {
    match e
    case Sync(c) => After(rows, c)
    case Insert(id, row) => if id in rows then rows else rows[id := row]
  }

  function Run(rows: Rows, events: seq<Event>): Rows {
    if events == [] then rows else Apply(Run(rows, events[..|events| - 1]), events[|events| - 1])
  }

  /** The reply speaks about the batch only and does not contradict itself. */
  predicate WellAnswered(c: Cycle) {
    c.reply.Answer? ==>
      && (forall k :: k in c.reply.accepted ==> k in c.batch && k !in c.reply.failed)
      && (forall k :: k in c.reply.failed ==> k in c.batch)
  }

  /** An upload given up fails every row of its batch, with its error, and no other. */
  lemma RefusedFailsBatch(rows: Rows, batch: seq<string>, error: string, now: Instant, k: string)
    requires k in rows
    ensures var after := After(rows, Cycle(batch, Refused(error), NoFault, now));
      && k in after
      && after[k] == if k in batch then
                       rows[k].(status := Failed, lastError := Some(error), updatedAt := now, retryCount := rows[k].retryCount + 1)
                     else rows[k]
  {
  }

  /** What an answer does to a row: rejected ones fail, also when accepted; accepted ones sync, and
      all of the batch count as accepted only when nobody is named; others stay. */
  lemma AnswerMarks(rows: Rows, batch: seq<string>, accepted: seq<string>, failed: seq<string>, now: Instant, k: string)
    requires k in rows && batch != []
    ensures var after, r := After(rows, Cycle(batch, Answer(accepted, failed), NoFault, now)), rows[k];
      && k in after
      && after[k] == if k in failed then
                       r.(status := Failed, lastError := Some("remote endpoint rejected record"), updatedAt := now,
                          retryCount := r.retryCount + 1)
                     else if k in accepted || (accepted == [] && failed == [] && k in batch) then
                       r.(status := Synced, lastError := None, updatedAt := now)
                     else r
  {
  }

  /** A failing first update leaves all rows, a failing second one what was accepted. */
  lemma FaultsLeave(rows: Rows, batch: seq<string>, accepted: seq<string>, failed: seq<string>, now: Instant, k: string)
    requires k in rows && accepted != []
    ensures After(rows, Cycle(batch, Answer(accepted, failed), AtFirst, now)) == rows
    ensures var after := After(rows, Cycle(batch, Answer(accepted, failed), AtSecond, now));
      k in after && (batch != [] ==>
        after[k] == if k in accepted then rows[k].(status := Synced, lastError := None, updatedAt := now) else rows[k])
  {
  }

  /** A reply that splits the batch, or part of it, is well answered. */
  lemma SplitIsWell(batch: seq<string>, i: nat, j: nat, fault: Fault, now: Instant)
    requires i <= j <= |batch| && Distinct(batch)
    ensures WellAnswered(Cycle(batch, Answer(batch[..i], batch[i..j]), fault, now))
    ensures forall error :: WellAnswered(Cycle(batch, Refused(error), fault, now))
  {
  }

  /** The code does not check the reply's ids. Synced rows stay synced in a cycle exactly when
      the reply fails none of them. */
  lemma SyncedKeptIff(rows: Rows, c: Cycle)
    ensures (forall k :: k in rows && rows[k].status == Synced ==> After(rows, c)[k].status == Synced) <==>
            (forall k :: k in rows && rows[k].status == Synced ==> !MarksFailed(c, k))
  {
    forall k | k in rows && rows[k].status == Synced
      ensures After(rows, c)[k].status == Synced <==> !MarksFailed(c, k)
    {
    }
  }

  /** A reply to a fetched batch that names an id outside it takes a synced row back. */
  lemma StrayFailureUnsyncs(rows: Rows, k: string, other: string, now: Instant)
    requires k in rows && rows[k].status == Synced && FetchAnswer(rows, 1, [other])
    ensures After(rows, Cycle([other], Answer([other], [k]), NoFault, now))[k].status == Failed
  {
  }

  /** Nor does it check the accepted ids. A cycle syncs rows of its batch only, exactly when the
      reply accepts no other unsynced row, or fails it as well. */
  lemma SyncsOnlyBatchIff(rows: Rows, c: Cycle)
    ensures (forall k :: k in Unsent(rows) && k !in c.batch ==> After(rows, c)[k].status != Synced) <==>
            (forall k :: k in Unsent(rows) && k !in c.batch && MarksSynced(c, k) ==> MarksFailed(c, k))
  {
    forall k | k in Unsent(rows) ensures After(rows, c)[k].status == Synced <==> MarksSynced(c, k) && !MarksFailed(c, k) { }
  }

  /** A reply to a fetched batch that accepts an id outside it syncs a row that was never sent. */
  lemma StrayAcceptanceSyncs(rows: Rows, k: string, other: string, now: Instant)
    requires k in Unsent(rows) && k != other && FetchAnswer(rows, 1, [other])
    ensures var after := After(rows, Cycle([other], Answer([k], []), NoFault, now));
      after[k].status == Synced && other in after && after[other] == rows[other]
  {
    assert other in Elements([other]);
  }

  lemma BatchUnsent(rows: Rows, limit: nat, c: Cycle, k: string)
    requires FetchAnswer(rows, limit, c.batch) && k in c.batch
    ensures k in rows && rows[k].status != Synced
  {
    assert k in Elements(c.batch);
  }

  /** Only the batch's rows change. */
  lemma OutsideBatchUnchanged(rows: Rows, c: Cycle, k: string)
    requires WellAnswered(c) && k in rows && k !in c.batch
    ensures After(rows, c)[k] == rows[k]
  {
  }

  lemma SyncedUntouched(rows: Rows, limit: nat, c: Cycle, k: string)
    requires FetchAnswer(rows, limit, c.batch) && WellAnswered(c)
    requires k in rows && rows[k].status == Synced
    ensures After(rows, c)[k] == rows[k]
  {
    if k in c.batch {
      BatchUnsent(rows, limit, c, k);
    } else {
      OutsideBatchUnchanged(rows, c, k);
    }
  }

  /** A run: every batch is what the fetch answered just before its cycle. */
  ghost predicate IsRun(rows: Rows, events: seq<Event>, limit: nat) {
    events == [] ||
    var n := |events| - 1;
    IsRun(rows, events[..n], limit) && (events[n].Sync? ==> FetchAnswer(Run(rows, events[..n]), limit, events[n].cycle.batch))
  }

  predicate AllWellAnswered(events: seq<Event>) {
    forall i :: 0 <= i < |events| && events[i].Sync? ==> WellAnswered(events[i].cycle)
  }

  /** Synced is absorbing over every run: from any moment on, a synced row does not change. */
  lemma {:induction false} SyncedIsAbsorbing(rows: Rows, events: seq<Event>, limit: nat, m: nat, k: string)
    requires IsRun(rows, events, limit) && AllWellAnswered(events) && m <= |events|
    requires k in Run(rows, events[..m]) && Run(rows, events[..m])[k].status == Synced
    ensures k in Run(rows, events) && Run(rows, events)[k] == Run(rows, events[..m])[k]
    decreases |events|
  {
    var n := |events| - 1;
    if m == |events| {
      assert events[..m] == events;
    } else {
      assert events[..n][..m] == events[..m];
      SyncedIsAbsorbing(rows, events[..n], limit, m, k);
      if events[n].Sync? { SyncedUntouched(Run(rows, events[..n]), limit, events[n].cycle, k); }
    }
  }

  /** A row that is synced, and was neither there as such nor written so, was in an uploaded
      batch. */
  lemma {:induction false} SyncedWasUploaded(rows: Rows, events: seq<Event>, limit: nat, k: string) returns (i: nat)
    requires IsRun(rows, events, limit) && AllWellAnswered(events)
    requires k in rows ==> rows[k].status != Synced
    requires forall i :: 0 <= i < |events| && events[i].Insert? ==> events[i].row.status != Synced
    requires k in Run(rows, events) && Run(rows, events)[k].status == Synced
    ensures i < |events| && events[i].Sync? && k in events[i].cycle.batch && events[i].cycle.reply.Answer?
    decreases |events|
  {
    var n := |events| - 1;
    var before := Run(rows, events[..n]);
    if k in before && before[k].status == Synced {
      i := SyncedWasUploaded(rows, events[..n], limit, k);
    } else {
      i := n;
    }
  }

  /** How many cycles after the first `m` events marked the row failed. */
  function FailedMarks(events: seq<Event>, m: nat, k: string): nat
    decreases |events|
  {
    if |events| <= m then 0
    else
      var last := events[|events| - 1];
      FailedMarks(events[..|events| - 1], m, k) + if last.Sync? && MarksFailed(last.cycle, k) then 1 else 0
  }

  lemma EventCounts(rows: Rows, e: Event, k: string)
    requires k in rows
    ensures k in Apply(rows, e)
    ensures Apply(rows, e)[k].retryCount == rows[k].retryCount + if e.Sync? && MarksFailed(e.cycle, k) then 1 else 0
  {
  }

  /** retry_count counts the cycles that marked the row failed: from any moment at which the row
      is there, on every run whatsoever. */
  lemma {:induction false} RetryCountExact(rows: Rows, events: seq<Event>, m: nat, k: string)
    requires m <= |events| && k in Run(rows, events[..m])
    ensures k in Run(rows, events)
    ensures Run(rows, events)[k].retryCount == Run(rows, events[..m])[k].retryCount + FailedMarks(events, m, k)
    decreases |events|
  {
    var n := |events| - 1;
    if m == |events| {
      assert events[..m] == events;
    } else {
      assert events[..n][..m] == events[..m];
      RetryCountExact(rows, events[..n], m, k);
      EventCounts(Run(rows, events[..n]), events[n], k);
    }
  }

  // ----------------------------------------------------------------- drain

  predicate AcceptsAll(c: Cycle) {
    c.fault == NoFault && c.reply.Answer? && c.reply.failed == [] && (c.reply.accepted == [] || c.reply.accepted == c.batch)
  }

  /** The two kinds of answer by which a peer accepts a whole batch. */
  lemma WholeAccepted(batch: seq<string>, now: Instant)
    ensures AcceptsAll(Cycle(batch, Answer([], []), NoFault, now)) && AcceptsAll(Cycle(batch, Answer(batch, []), NoFault, now))
  {
  }

  /** Runs go on: after any run a fetch has an answer, and its cycle extends the run. */
  lemma RunGoesOn(rows: Rows, events: seq<Event>, limit: nat, e: Event)
    requires IsRun(rows, events, limit) && (e.Sync? ==> FetchAnswer(Run(rows, events), limit, e.cycle.batch))
    ensures IsRun(rows, events + [e], limit) && Run(rows, events + [e]) == Apply(Run(rows, events), e)
  {
    assert (events + [e])[..|events|] == events;
  }

  lemma AcceptedAreSent(rows: Rows, c: Cycle, sent: set<string>)
    requires AcceptsAll(c) && forall k :: k in c.batch <==> k in sent
    ensures Unsent(After(rows, c)) == Unsent(rows) - sent
  {
    forall k | k in rows ensures After(rows, c)[k].status != Synced <==> rows[k].status != Synced && k !in sent {
      assert MarksSynced(c, k) <==> k in sent;
    }
  }

  lemma CycleDrains(rows: Rows, c: Cycle, limit: nat)
    requires FetchAnswer(rows, limit, c.batch) && AcceptsAll(c)
    ensures |Unsent(After(rows, c))| == Max(0, |Unsent(rows)| - limit)
  {
    var sent := Elements(c.batch);
    AcceptedAreSent(rows, c, sent);
    DistinctSize(c.batch);
    assert |Unsent(rows)| == |Unsent(rows) - sent| + |sent|;
  }

  /** With a peer that accepts whole batches, the unsynced rows are gone after exactly the
      rounded-up quotient of cycles. */
  lemma {:induction false} CacheDrains(rows: Rows, events: seq<Event>, limit: nat)
    requires IsRun(rows, events, limit) && forall i :: 0 <= i < |events| ==> events[i].Sync? && AcceptsAll(events[i].cycle)
    ensures |Unsent(Run(rows, events))| == Drain.Remaining(|Unsent(rows)|, limit, |events|)
    ensures limit >= 1 ==> (Unsent(Run(rows, events)) == {} <==> (|Unsent(rows)| + limit - 1) / limit <= |events|)
  {
    if events != [] {
      var n := |events| - 1;
      CacheDrains(rows, events[..n], limit);
      CycleDrains(Run(rows, events[..n]), events[n].cycle, limit);
    }
    if limit >= 1 { Drain.EmptyAfter(|Unsent(rows)|, limit, |events|); }
  }
}
