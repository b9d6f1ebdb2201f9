/** B, the replicator: the transactional store of one fetched record (raw row, typed row,
    delete job), the fetch loop and the delete queue. */
module Replicator {
  import opened Text
  import opened Timestamps
  import opened Ordering
  import opened Records
  import opened Receiver

  /** A record as C's query answers it, with its key as B's tables compare it; without a document
      when C has none or answers one that is no object, which B refuses either way. */
  datatype CRecord = CRecord(id: int, key: string, content: Content)

  datatype ReplicaRow = ReplicaRow(cId: int, content: Content)
  datatype TypedRow = TypedRow(cId: int, raw: Record)
  datatype Status = Pending | Failed | Done
  datatype Job = Job(jobId: nat, cId: int, status: Status, retries: nat, nextAttempt: nat)

  /** The four tables, each with a unique record key. */
  datatype Tables = Tables(
    replicated: map<string, ReplicaRow>,
    info: map<string, TypedRow>,
    photo: map<string, TypedRow>,
    queue: map<string, Job>,
    nextJob: nat)

  // ------------------------------------------------------------ store record

  function EntityOf(r: CRecord): string { if r.content.entityType == "" then INFO else r.content.entityType }

  function ReplicaOf(r: CRecord): ReplicaRow { ReplicaRow(r.id, r.content.(entityType := EntityOf(r))) }

  function PutReplica(b: Tables, r: CRecord): Tables {
    b.(replicated := b.replicated[r.key := ReplicaOf(r)])
  }

  function PutTyped(b: Tables, r: CRecord): Tables
    requires r.content.raw.Some?
  {
    var row := TypedRow(r.id, r.content.raw.value);
    if EntityOf(r) == PHOTO then b.(photo := b.photo[r.key := row]) else b.(info := b.info[r.key := row])
  }

  /** A queued key keeps its job id and becomes pending again, for the new C id. */
  function PutJob(b: Tables, r: CRecord, now: nat): Tables {
    var jobId := if r.key in b.queue then b.queue[r.key].jobId else b.nextJob;
    b.(queue := b.queue[r.key := Job(jobId, r.id, Pending, 0, now)],
       nextJob := if r.key in b.queue then b.nextJob else b.nextJob + 1)
  }

  predicate Storable(r: CRecord) { r.id > 0 && Trim(r.key) != "" && r.content.raw.Some? }

  predicate AllStorable(records: seq<CRecord>) { forall i :: 0 <= i < |records| ==> Storable(records[i]) }

  /** What a committed `storeRecord` does; a record without a document is never stored. */
  function Store(cleanup: bool, b: Tables, r: CRecord, now: nat): Tables {
    if r.content.raw.None? then b
    else
      var stored := PutTyped(PutReplica(b, r), r);
      if cleanup then PutJob(stored, r, now) else stored
  }

  /** Stores records one after the other; `clock` is the database time of each. */
  function StoreAll(cleanup: bool, b: Tables, records: seq<CRecord>, clock: nat -> nat): Tables {
    if records == [] then b
    else
      var n := |records| - 1;
      Store(cleanup, StoreAll(cleanup, b, records[..n], clock), records[n], clock(n))
  }

  lemma StoreAllSnoc(cleanup: bool, b: Tables, records: seq<CRecord>, n: nat, clock: nat -> nat)
    requires n < |records|
    ensures StoreAll(cleanup, b, records[..n + 1], clock) ==
            Store(cleanup, StoreAll(cleanup, b, records[..n], clock), records[n], clock(n))
  {
    assert records[..n + 1][..n] == records[..n];
  }

  /** B stores a record with a positive id, a key that is not blank, and a document. */
  lemma StorableIs(r: CRecord)
    ensures Storable(r) <==> r.id > 0 && r.content.raw.Some? && exists i :: 0 <= i < |r.key| && !IsSpace(r.key[i])
  {
    var i, j := TrimIs(r.key);
  }

  /** What B keeps of it: all C answered, an information record if C named no entity. */
  lemma ReplicaOfIs(r: CRecord)
    ensures var row := ReplicaOf(r);
      && row.cId == r.id && row.content.raw == r.content.raw
      && row.content.entityType == (if r.content.entityType == "" then "weight_info" else r.content.entityType)
      && row.content.(entityType := r.content.entityType) == r.content
  {
  }

  /** The queue entry a stored record leaves: pending, due at once, without failures, for its C id;
      an entry that was there keeps its job id, a new one takes the next. */
  lemma QueuedIs(b: Tables, r: CRecord, now: nat)
    requires r.content.raw.Some?
    ensures var after := Store(true, b, r, now);
      && r.key in after.queue
      && after.queue[r.key] == Job(if r.key in b.queue then b.queue[r.key].jobId else b.nextJob, r.id, Pending, 0, now)
      && after.nextJob == (if r.key in b.queue then b.nextJob else b.nextJob + 1)
  {
  }

  /** A stored record replaces the row of its own key and leaves the others alone. */
  lemma StoreChangesOneKey(cleanup: bool, b: Tables, r: CRecord, now: nat)
    requires r.content.raw.Some?
    ensures var c := Store(cleanup, b, r, now);
      && c.replicated == b.replicated[r.key := ReplicaOf(r)]
      && (forall k :: k in c.queue && k != r.key ==> k in b.queue && c.queue[k] == b.queue[k])
      && (r.key in c.queue && (cleanup || r.key !in b.queue) ==> c.queue[r.key].cId == r.id)
      && (!cleanup ==> c.queue == b.queue)
  {
  }

  // ------------------------------------------------------------ delete queue

  function Pow2(n: nat): nat { if n == 0 then 1 else 2 * Pow2(n - 1) }

  /** Seconds to wait after the given number of failures. */
  function RetryDelay(retries: nat): nat
    requires retries >= 1
  {
    Pow2(if retries > 8 then 7 else retries - 1)
  }

  /** The pause starts at one second and doubles with every failure, up to 128 s. */
  lemma RetryDelayDoubles(retries: nat)
    requires retries >= 1
    ensures RetryDelay(1) == 1 && 1 <= RetryDelay(retries) <= 128
    ensures RetryDelay(retries + 1) == Min(2 * RetryDelay(retries), 128)
  {
    assert Pow2(2) == 4 && Pow2(3) == 8;
    assert Pow2(5) == 32 by { assert Pow2(4) == 16; }
    assert Pow2(7) == 128 by { assert Pow2(6) == 64; }
  }

  function MarkDone(b: Tables, jobId: nat): Tables {
    b.(queue := map k | k in b.queue ::
         if b.queue[k].jobId == jobId then b.queue[k].(status := Done) else b.queue[k])
  }

  function MarkFailure(b: Tables, job: Job, now: nat): Tables {
    var retries := job.retries + 1;
    b.(queue := map k | k in b.queue ::
         if b.queue[k].jobId == job.jobId
         then b.queue[k].(status := Failed, retries := retries, nextAttempt := now + RetryDelay(retries) * SECOND)
         else b.queue[k])
  }

  function Mark(b: Tables, job: Job, deleted: bool, now: nat): Tables {
    if deleted then MarkDone(b, job.jobId) else MarkFailure(b, job, now)
  }

  /** Marks jobs one after the other, each by C's answer and at its own time. */
  function MarkAll(b: Tables, jobs: seq<Job>, deleted: nat -> bool, clock: nat -> nat): Tables {
    if jobs == [] then b
    else
      var n := |jobs| - 1;
      Mark(MarkAll(b, jobs[..n], deleted, clock), jobs[n], deleted(n), clock(n))
  }

  /** A failed delete: one failure more, and a pause that doubles from one second to 128. */
  predicate FailedMark(before: Job, job: Job, now: nat, after: Job) {
    after == before.(status := Failed, retries := job.retries + 1,
                     nextAttempt := now + [1, 2, 4, 8, 16, 32, 64, 128][if job.retries < 7 then job.retries else 7] * 1_000_000_000)
  }

  /** An answered delete changes the status only. */
  predicate DoneMark(before: Job, after: Job) { after == before.(status := Done) }

  lemma RetryDelayIs(retries: nat)
    requires retries >= 1
    ensures RetryDelay(retries) == [1, 2, 4, 8, 16, 32, 64, 128][if retries <= 7 then retries - 1 else 7]
  {
    assert Pow2(0) == 1 && Pow2(1) == 2 && Pow2(2) == 4;
    assert Pow2(3) == 8 && Pow2(4) == 16;
    assert Pow2(5) == 32 && Pow2(6) == 64;
    assert Pow2(7) == 128;
  }

  /** What one mark does to each entry of the queue. */
  lemma MarkIs(b: Tables, job: Job, ok: bool, now: nat, k: string)
    requires k in b.queue
    ensures var after := Mark(b, job, ok, now).queue;
      && k in after
      && (b.queue[k].jobId != job.jobId ==> after[k] == b.queue[k])
      && (b.queue[k].jobId == job.jobId ==>
            if ok then DoneMark(b.queue[k], after[k]) else FailedMark(b.queue[k], job, now, after[k]))
  {
    RetryDelayIs(job.retries + 1);
  }

  /** What the marks of the first `n` jobs do to an entry, when the jobs are different ones. */
  ghost predicate RowMarked(before: Job, jobs: seq<Job>, n: nat, deleted: nat -> bool, clock: nat -> nat, after: Job)
    requires n <= |jobs|
  {
    && ((forall i :: 0 <= i < n ==> jobs[i].jobId != before.jobId) ==> after == before)
    && (forall i :: 0 <= i < n && jobs[i].jobId == before.jobId ==>
          if deleted(i) then DoneMark(before, after) else FailedMark(before, jobs[i], clock(i), after))
  }

  lemma {:induction false} MarkAllIs(b: Tables, jobs: seq<Job>, n: nat, deleted: nat -> bool, clock: nat -> nat, k: string)
    requires n <= |jobs| && k in b.queue && forall i, j :: 0 <= i < j < |jobs| ==> jobs[i].jobId != jobs[j].jobId
    ensures var after := MarkAll(b, jobs[..n], deleted, clock).queue;
      k in after && RowMarked(b.queue[k], jobs, n, deleted, clock, after[k])
  {
    if n > 0 {
      var before := MarkAll(b, jobs[..n - 1], deleted, clock);
      MarkAllIs(b, jobs, n - 1, deleted, clock, k);
      assert jobs[..n][..n - 1] == jobs[..n - 1];
      assert MarkAll(b, jobs[..n], deleted, clock) == Mark(before, jobs[n - 1], deleted(n - 1), clock(n - 1));
      MarkIs(before, jobs[n - 1], deleted(n - 1), clock(n - 1), k);
    }
  }

  /** So after a failure the entry is due from the end of its pause on and not before. */
  lemma DueAfterFailure(b: Tables, job: Job, now: nat, k: string, t: nat)
    requires k in b.queue && b.queue[k].jobId == job.jobId
    ensures k in DueKeys(Mark(b, job, false, now), t) <==>
            t >= now + [1, 2, 4, 8, 16, 32, 64, 128][if job.retries < 7 then job.retries else 7] * 1_000_000_000
  {
    MarkIs(b, job, false, now, k);
  }

  /** An answered job is not due again unless its key is queued anew. */
  lemma NeverDueAfterDone(b: Tables, job: Job, now: nat, k: string, t: nat)
    requires k in b.queue && b.queue[k].jobId == job.jobId
    ensures k !in DueKeys(Mark(b, job, true, now), t)
  {
    MarkIs(b, job, true, now, k);
  }

  function DueKeys(b: Tables, now: nat): set<string> {
    set k | k in b.queue && b.queue[k].status != Done && b.queue[k].nextAttempt <= now
  }

  function Earlier(b: Tables): (string, string) -> bool {
    (j, k) => j in b.queue && k in b.queue && b.queue[j].jobId < b.queue[k].jobId
  }

  /** `keys` are the due jobs the delete worker loads: ORDER BY id LIMIT. */
  ghost predicate DueAnswer(b: Tables, now: nat, limit: nat, keys: seq<string>) {
    IsFirst(DueKeys(b, now), Earlier(b), limit, keys)
  }

  /** The delete of this key is outstanding and its time has come. */
  predicate IsDue(b: Tables, now: nat, k: string) {
    k in b.queue && (b.queue[k].status == Pending || b.queue[k].status == Failed) && b.queue[k].nextAttempt <= now
  }

  /** What the worker loads: entries that are due, as many as the limit allows, oldest jobs first,
      and every due entry left out has a later job. */
  lemma DueAnswerIs(b: Tables, now: nat, limit: nat, keys: seq<string>)
    requires DueAnswer(b, now, limit, keys) && JobIdsSound(b)
    ensures |keys| == Min(limit, |set k | k in b.queue && IsDue(b, now, k)|)
    ensures forall i :: 0 <= i < |keys| ==> IsDue(b, now, keys[i])
    ensures forall i, j :: 0 <= i < j < |keys| ==>
              IsDue(b, now, keys[i]) && IsDue(b, now, keys[j]) && b.queue[keys[i]].jobId < b.queue[keys[j]].jobId
    ensures forall i, k :: 0 <= i < |keys| && IsDue(b, now, k) && k !in keys ==>
              IsDue(b, now, keys[i]) && b.queue[keys[i]].jobId < b.queue[k].jobId
  {
    assert DueKeys(b, now) == set k | k in b.queue && IsDue(b, now, k);
    forall i | 0 <= i < |keys| ensures IsDue(b, now, keys[i]) { assert keys[i] in Elements(keys); }
    forall i, j | 0 <= i < j < |keys| ensures b.queue[keys[i]].jobId < b.queue[keys[j]].jobId {
      assert !Earlier(b)(keys[j], keys[i]) && keys[i] != keys[j];
    }
    forall i, k | 0 <= i < |keys| && IsDue(b, now, k) && k !in keys ensures b.queue[keys[i]].jobId < b.queue[k].jobId {
      assert k in DueKeys(b, now) && !Earlier(b)(k, keys[i]) && keys[i] != k;
    }
  }

  // -------------------------------------------------------------- invariant

  /** The tables agree: a replicated key is in exactly the typed table its entity names,
      with the same C id and document, and only replicated keys are queued. */
  ghost predicate Agree(b: Tables) {
    && (forall k :: k in b.replicated <==> k in b.info || k in b.photo)
    && (forall k :: k in b.info ==> !IsPhotoKey(k) && SameDocument(b.replicated[k], b.info[k]))
    && (forall k :: k in b.photo ==> IsPhotoKey(k) && SameDocument(b.replicated[k], b.photo[k]))
    && (forall k :: k in b.queue ==> k in b.replicated)
  }

  /** Job ids are used counter values, one per queued key. */
  ghost predicate JobIdsSound(b: Tables) {
    && (forall k :: k in b.queue ==> b.queue[k].jobId < b.nextJob)
    && (forall j, k :: j in b.queue && k in b.queue && b.queue[j].jobId == b.queue[k].jobId ==> j == k)
  }

  lemma PutJobKeepsIds(b: Tables, r: CRecord, now: nat)
    requires JobIdsSound(b)
    ensures JobIdsSound(PutJob(b, r, now))
    ensures forall k :: k in b.queue ==> k in PutJob(b, r, now).queue && PutJob(b, r, now).queue[k].jobId == b.queue[k].jobId
  {
    var c := PutJob(b, r, now);
    assert forall k :: k in c.queue && k != r.key ==> k in b.queue && c.queue[k] == b.queue[k];
  }

  lemma StoreKeepsJobIds(cleanup: bool, b: Tables, r: CRecord, now: nat)
    requires JobIdsSound(b)
    ensures JobIdsSound(Store(cleanup, b, r, now))
    ensures forall k :: k in b.queue ==>
              k in Store(cleanup, b, r, now).queue && Store(cleanup, b, r, now).queue[k].jobId == b.queue[k].jobId
  {
    if r.content.raw.Some? {
      var stored := PutTyped(PutReplica(b, r), r);
      assert stored.queue == b.queue && stored.nextJob == b.nextJob;
      PutJobKeepsIds(stored, r, now);
    }
  }

  lemma MarkKeepsJobIds(b: Tables, job: Job, deleted: bool, now: nat)
    requires JobIdsSound(b)
    ensures JobIdsSound(Mark(b, job, deleted, now))
    ensures forall k :: k in b.queue ==>
              k in Mark(b, job, deleted, now).queue && Mark(b, job, deleted, now).queue[k].jobId == b.queue[k].jobId
  {
    var c := Mark(b, job, deleted, now);
    assert forall k :: k in c.queue ==> k in b.queue && c.queue[k].jobId == b.queue[k].jobId;
  }

  predicate SameDocument(r: ReplicaRow, t: TypedRow) { r.cId == t.cId && r.content.raw == Some(t.raw) }

  /** C keys a photo as a photo. */
  predicate KeyMatchesEntity(r: CRecord) { IsPhotoKey(r.key) <==> EntityOf(r) == PHOTO }

  lemma AgreeDisjoint(b: Tables)
    requires Agree(b)
    ensures b.info.Keys !! b.photo.Keys && b.replicated.Keys == b.info.Keys + b.photo.Keys
  {
    forall k | k in b.info ensures k !in b.photo { assert !IsPhotoKey(k); }
  }

  lemma PutDocumentKeepsAgreement(b: Tables, r: CRecord)
    requires Agree(b) && r.content.raw.Some? && KeyMatchesEntity(r)
    ensures Agree(PutTyped(PutReplica(b, r), r)) && r.key in PutTyped(PutReplica(b, r), r).replicated
  {
    var c := PutTyped(PutReplica(b, r), r);
    assert SameDocument(c.replicated[r.key], TypedRow(r.id, r.content.raw.value));
    assert EntityOf(r) == PHOTO ==> r.key !in b.info;
    assert EntityOf(r) != PHOTO ==> r.key !in b.photo;
  }

  lemma StoreKeepsAgreement(cleanup: bool, b: Tables, r: CRecord, now: nat)
    requires Agree(b) && KeyMatchesEntity(r)
    ensures Agree(Store(cleanup, b, r, now))
  {
    if r.content.raw.Some? {
      PutDocumentKeepsAgreement(b, r);
      PutJobKeepsAgreement(PutTyped(PutReplica(b, r), r), r, now);
    }
  }

  lemma PutJobKeepsAgreement(b: Tables, r: CRecord, now: nat)
    requires Agree(b) && r.key in b.replicated
    ensures Agree(PutJob(b, r, now))
  {
  }

  lemma MarkKeys(b: Tables, job: Job, deleted: bool, now: nat)
    ensures Mark(b, job, deleted, now).queue.Keys == b.queue.Keys
  {
  }

  lemma MarkKeepsAgreement(b: Tables, job: Job, deleted: bool, now: nat)
    requires Agree(b)
    ensures Agree(Mark(b, job, deleted, now))
    ensures Mark(b, job, deleted, now).queue.Keys == b.queue.Keys
  {
    assert Mark(b, job, deleted, now).queue.Keys == b.queue.Keys;
  }

  /** Whatever part of an answer is stored, and whichever jobs are marked, the tables agree. */
  lemma {:induction false} StoreAllKeepsAgreement(cleanup: bool, b: Tables, records: seq<CRecord>, clock: nat -> nat)
    requires Agree(b) && forall i :: 0 <= i < |records| ==> KeyMatchesEntity(records[i])
    ensures Agree(StoreAll(cleanup, b, records, clock))
  {
    if records != [] {
      var n := |records| - 1;
      StoreAllKeepsAgreement(cleanup, b, records[..n], clock);
      StoreKeepsAgreement(cleanup, StoreAll(cleanup, b, records[..n], clock), records[n], clock(n));
    }
  }

  lemma {:induction false} MarkAllKeepsAgreement(b: Tables, jobs: seq<Job>, deleted: nat -> bool, clock: nat -> nat)
    requires Agree(b)
    ensures Agree(MarkAll(b, jobs, deleted, clock))
  {
    if jobs != [] {
      var n := |jobs| - 1;
      MarkAllKeepsAgreement(b, jobs[..n], deleted, clock);
      MarkKeepsAgreement(MarkAll(b, jobs[..n], deleted, clock), jobs[n], deleted(n), clock(n));
    }
  }

  // ---------------------------------------------------------------- catch up

  predicate Has(m: map<string, ReplicaRow>, key: string, row: ReplicaRow) { key in m && m[key] == row }

  lemma {:induction false} StoreAllRow(cleanup: bool, b: Tables, records: seq<CRecord>, clock: nat -> nat, i: nat)
    requires i < |records| && forall j :: 0 <= j < |records| ==> records[j].content.raw.Some?
    requires forall j :: i < j < |records| ==> records[j].key != records[i].key
    ensures Has(StoreAll(cleanup, b, records, clock).replicated, records[i].key, ReplicaOf(records[i]))
  {
    var n := |records| - 1;
    var before := StoreAll(cleanup, b, records[..n], clock);
    assert StoreAll(cleanup, b, records, clock) == Store(cleanup, before, records[n], clock(n));
    StoreChangesOneKey(cleanup, before, records[n], clock(n));
    if i < n {
      StoreAllRow(cleanup, b, records[..n], clock, i);
      assert records[i].key != records[n].key;
    }
  }

  /** Rows of other keys stay as they are. */
  lemma {:induction false} StoreAllLeaves(cleanup: bool, b: Tables, records: seq<CRecord>, clock: nat -> nat, key: string)
    requires forall i :: 0 <= i < |records| ==> records[i].key != key
    ensures var after := StoreAll(cleanup, b, records, clock).replicated;
      (key in after <==> key in b.replicated) && (key in after ==> after[key] == b.replicated[key])
  {
    if records != [] {
      var n := |records| - 1;
      var before := StoreAll(cleanup, b, records[..n], clock);
      StoreAllLeaves(cleanup, b, records[..n], clock, key);
      assert StoreAll(cleanup, b, records, clock) == Store(cleanup, before, records[n], clock(n));
      if records[n].content.raw.Some? { StoreChangesOneKey(cleanup, before, records[n], clock(n)); }
    }
  }

  /** A row as C's query answers it, its document decoded and encoded again. */
  function RowRecord(cfg: Config, fold: string -> string, t: Table, key: string): CRecord
    requires key in t.rows
  {
    CRecord(t.rows[key].id, Folded(fold, key), t.rows[key].content.(raw := Redecoded(cfg, t.rows[key].content.raw)))
  }

  /** The answer carries the row's id and all it holds, the document as re-decoding leaves it. */
  lemma RowRecordIs(cfg: Config, fold: string -> string, t: Table, key: string)
    requires key in t.rows
    ensures var r, row := RowRecord(cfg, fold, t, key), t.rows[key];
      && r.id == row.id && r.content.(raw := row.content.raw) == row.content
      && r.content.raw == match row.content.raw case None => None case Some(d) => cfg.redecode(d)
  {
  }

  function Redecoded(cfg: Config, raw: Option<Record>): Option<Record> {
    if raw.None? then None else cfg.redecode(raw.value)
  }

  function Answered(cfg: Config, fold: string -> string, t: Table, keys: seq<string>): (records: seq<CRecord>)
    requires forall k :: k in keys ==> k in t.rows
    ensures |records| == |keys| && forall i :: 0 <= i < |keys| ==> records[i] == RowRecord(cfg, fold, t, keys[i])
  {
    seq(|keys|, i requires 0 <= i < |keys| => RowRecord(cfg, fold, t, keys[i]))
  }

  /** No two keys of the table fall together on B. */
  ghost predicate Apart(fold: string -> string, t: Table) {
    forall j, k :: j in t.rows && k in t.rows && Folded(fold, j) == Folded(fold, k) ==> j == k
  }

  /** It is the limit asked for, brought into the range from 1 to C's own. */
  lemma BoundedLimitIs(fetchBatch: int, maxLimit: nat)
    requires maxLimit >= 1
    ensures var n := BoundedLimit(fetchBatch, maxLimit);
      1 <= n <= maxLimit && (1 <= fetchBatch <= maxLimit ==> n == fetchBatch) &&
      (fetchBatch < 1 ==> n == 1) && (fetchBatch > maxLimit ==> n == maxLimit)
  {
  }

  /** The limit C applies to B's request for `fetchBatch` rows. */
  function BoundedLimit(fetchBatch: int, maxLimit: nat): nat
    requires maxLimit >= 1
  {
    if fetchBatch < 1 then 1 else if fetchBatch > maxLimit then maxLimit else fetchBatch
  }

  // ------------------------------------------------------------- the process

  /** The statements of the storing transaction, where it may break off; a document that
      does not decode breaks off at `AtTyped`. */
  datatype Break = AtBegin | AtReplica | AtTyped | AtJob | AtCommit | Never

  /** The job statement is only there when cleanup is on. */
  predicate Commits(stop: Break, cleanup: bool) { stop == Never || (stop == AtJob && !cleanup) }

  /** The first record from `i` on that is unusable or whose transaction breaks off. */
  function FirstFailure(records: seq<CRecord>, stops: nat -> Break, cleanup: bool, i: nat): (n: nat)
    requires i <= |records|
    ensures i <= n <= |records|
    decreases |records| - i
  {
    if i < |records| && Storable(records[i]) && Commits(stops(i), cleanup)
    then FirstFailure(records, stops, cleanup, i + 1)
    else i
  }

  /** An answer that can hold all of C's rows lists each key once. */
  lemma WindowAnswer(t: Table, fetchBatch: nat, maxLimit: nat, keys: seq<string>)
    requires maxLimit >= 1 && |t.rows| <= Min(fetchBatch, maxLimit)
    requires QueryAnswer(t, BoundedLimit(fetchBatch, maxLimit), keys)
    ensures Distinct(keys) && forall k :: k in keys <==> k in t.rows
  {
    WholePool(t.rows.Keys, Newer(t), BoundedLimit(fetchBatch, maxLimit), keys);
    assert forall k :: k in keys <==> k in Elements(keys);
  }

  lemma {:induction false} NoFailure(records: seq<CRecord>, stops: nat -> Break, cleanup: bool, i: nat)
    requires i <= |records| && AllStorable(records) && forall j :: 0 <= j < |records| ==> Commits(stops(j), cleanup)
    ensures FirstFailure(records, stops, cleanup, i) == |records|
    decreases |records| - i
  {
    if i < |records| { NoFailure(records, stops, cleanup, i + 1); }
  }

  lemma AnsweredRow(cfg: Config, fold: string -> string, cleanup: bool, b: Tables, t: Table, keys: seq<string>, clock: nat -> nat, key: string)
    requires Distinct(keys) && key in keys && Apart(fold, t)
    requires forall k :: k in keys ==> k in t.rows && Redecoded(cfg, t.rows[k].content.raw).Some?
    ensures Has(StoreAll(cleanup, b, Answered(cfg, fold, t, keys), clock).replicated,
                Folded(fold, key), ReplicaOf(RowRecord(cfg, fold, t, key)))
  {
    var i :| 0 <= i < |keys| && keys[i] == key;
    var records := Answered(cfg, fold, t, keys);
    forall j | i < j < |records| ensures records[j].key != records[i].key { assert keys[j] != keys[i]; }
    StoreAllRow(cleanup, b, records, clock, i);
  }

  /** Within the window B catches up: when C's rows all fit one answer, can be stored and do not
      fall together, a fetch in which every transaction commits stores the whole answer, and
      leaves every live key on B with its current C id and its content as C answers it. */
  lemma CatchesUpWithinWindow(cfg: Config, fold: string -> string, cleanup: bool, b: Tables, t: Table, fetchBatch: nat, maxLimit: nat,
                              keys: seq<string>, clock: nat -> nat, stops: nat -> Break, key: string)
    requires maxLimit >= 1 && |t.rows| <= Min(fetchBatch, maxLimit) && Apart(fold, t)
    requires QueryAnswer(t, BoundedLimit(fetchBatch, maxLimit), keys)
    requires forall k :: k in t.rows ==> Storable(RowRecord(cfg, fold, t, k))
    requires forall j :: 0 <= j < |keys| ==> Commits(stops(j), cleanup)
    requires key in t.rows
    ensures forall k :: k in keys ==> k in t.rows
    ensures FirstFailure(Answered(cfg, fold, t, keys), stops, cleanup, 0) == |keys|
    ensures Has(StoreAll(cleanup, b, Answered(cfg, fold, t, keys), clock).replicated,
                Folded(fold, key), ReplicaOf(RowRecord(cfg, fold, t, key)))
  {
    WindowAnswer(t, fetchBatch, maxLimit, keys);
    forall k | k in keys ensures Storable(RowRecord(cfg, fold, t, k)) && Redecoded(cfg, t.rows[k].content.raw).Some? { }
    NoFailure(Answered(cfg, fold, t, keys), stops, cleanup, 0);
    AnsweredRow(cfg, fold, cleanup, b, t, keys, clock, key);
  }

  /** All records before it can be stored and their transactions commit; it does not. */
  lemma {:induction false} FirstFailureIs(records: seq<CRecord>, stops: nat -> Break, cleanup: bool, i: nat, j: nat)
    requires i <= j < |records|
    ensures var n := FirstFailure(records, stops, cleanup, i);
      && (j < n ==> Storable(records[j]) && (stops(j) == Never || (stops(j) == AtJob && !cleanup)))
      && (j == n ==> !(Storable(records[j]) && (stops(j) == Never || (stops(j) == AtJob && !cleanup))))
    decreases |records| - i
  {
    if i < j && FirstFailure(records, stops, cleanup, i) > i { FirstFailureIs(records, stops, cleanup, i + 1, j); }
  }

  class Replica {
    const cleanup: bool
    var replicated: map<string, ReplicaRow>
    var info: map<string, TypedRow>
    var photo: map<string, TypedRow>
    var queue: map<string, Job>
    var nextJob: nat

    constructor (cleanupEnabled: bool)
      ensures cleanup == cleanupEnabled && State() == Tables(map[], map[], map[], map[], 1) && Agree(State())
    {
      cleanup := cleanupEnabled;
      replicated, info, photo, queue, nextJob := map[], map[], map[], map[], 1;
    }

    function State(): Tables
      reads this
    {
      Tables(replicated, info, photo, queue, nextJob)
    }

    /** One transaction; wherever it breaks off, no table changes. */
    method StoreRecord(r: CRecord, now: nat, stop: Break) returns (committed: bool)
      requires r.content.raw.Some?
      modifies this
      ensures State() == if committed then Store(cleanup, old(State()), r, now) else old(State())
      ensures committed <==> stop == Never || (stop == AtJob && !cleanup)
    {
      if stop == AtBegin { return false; }
      var staged := State();
      if stop == AtReplica { return false; }
      staged := PutReplica(staged, r);
      if stop == AtTyped { return false; }
      staged := PutTyped(staged, r);
      if cleanup {
        if stop == AtJob { return false; }
        staged := PutJob(staged, r, now);
      }
      if stop == AtCommit { return false; }
      replicated, info, photo, queue, nextJob :=
        staged.replicated, staged.info, staged.photo, staged.queue, staged.nextJob;
      committed := true;
    }

    /** The fetch loop stores the answer's records in order and stops at the first that is
        unusable or fails; `stops` says where each transaction breaks off. */
    method FetchAndStore(records: seq<CRecord>, clock: nat -> nat, stops: nat -> Break) returns (stored: nat)
      modifies this
      ensures stored == FirstFailure(records, stops, cleanup, 0)
      ensures State() == StoreAll(cleanup, old(State()), records[..stored], clock)
    {
      stored := 0;
      while stored < |records|
        invariant stored <= |records|
        invariant FirstFailure(records, stops, cleanup, stored) == FirstFailure(records, stops, cleanup, 0)
        invariant State() == StoreAll(cleanup, old(State()), records[..stored], clock)
      {
        if !Storable(records[stored]) { return; }
        var committed := StoreRecord(records[stored], clock(stored), stops(stored));
        if !committed { return; }
        StoreAllSnoc(cleanup, old(State()), records, stored, clock);
        stored := stored + 1;
      }
    }

    /** The delete worker marks each loaded job by C's answer and stops when a mark cannot be
        written, at job number `failAt`; nothing but the queue changes. */
    method DeletePending(jobs: seq<Job>, deleted: nat -> bool, clock: nat -> nat, failAt: nat) returns (marked: nat)
      modifies this`queue
      ensures marked == Min(failAt, |jobs|) && queue.Keys == old(queue).Keys
      ensures (forall i, j :: 0 <= i < j < |jobs| ==> jobs[i].jobId != jobs[j].jobId) ==>
                forall k :: k in queue ==> RowMarked(old(queue)[k], jobs, marked, deleted, clock, queue[k])
      ensures State() == MarkAll(old(State()), jobs[..marked], deleted, clock)
    {
      marked := 0;
      while marked < |jobs|
        invariant marked <= |jobs| && marked <= failAt && queue.Keys == old(queue).Keys
        invariant State() == MarkAll(old(State()), jobs[..marked], deleted, clock)
      {
        if marked == failAt { break; }
        assert jobs[..marked + 1][..marked] == jobs[..marked];
        MarkKeys(State(), jobs[marked], deleted(marked), clock(marked));
        queue := Mark(State(), jobs[marked], deleted(marked), clock(marked)).queue;
        marked := marked + 1;
      }
      if forall i, j :: 0 <= i < j < |jobs| ==> jobs[i].jobId != jobs[j].jobId {
        forall k | k in queue ensures RowMarked(old(queue)[k], jobs, marked, deleted, clock, queue[k]) {
          MarkAllIs(old(State()), jobs, marked, deleted, clock, k);
        }
      }
    }
  }
}
