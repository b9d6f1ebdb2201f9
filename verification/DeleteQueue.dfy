/** What a `done` job of B's delete queue says: whether C has answered a delete for the id the
    job names. */
module DeleteQueue {
  import opened Text
  import opened Timestamps
  import opened Receiver
  import opened Uploader
  import opened Replicator
  import opened Pipeline
  import opened Reach
  import opened Losses

  /** Every done job names an id for which C has answered a delete. */
  ghost predicate DoneAnswered(queue: map<string, Job>, net: set<Message>) {
    forall k :: k in queue && queue[k].status == Done ==> DeleteReply(queue[k].cId, true) in net
  }

  /** The mark meets a job that was queued again, under another C id, since it was loaded, and C
      has answered no delete for that id. */
  ghost predicate MarksUnsent(setup: Setup, s: State, step: Step)
    requires Inv(setup, s) && Enabled(setup, s, step)
  {
    step == Replicating(BMark(true)) &&
    assert s.jobs[0].key in s.b.queue;
    var queued := s.b.queue[s.jobs[0].key].cId;
    queued != s.jobs[0].job.cId && DeleteReply(queued, true) !in s.net
  }

  /** A mark reaches the entry of its own key and no other. */
  lemma MarkReachesOwnKey(b: Tables, key: string, job: Job, ok: bool, now: nat)
    requires JobIdsSound(b) && key in b.queue && b.queue[key].jobId == job.jobId
    ensures var after := Mark(b, job, ok, now).queue;
      && after.Keys == b.queue.Keys && (forall k :: k in after && k != key ==> after[k] == b.queue[k])
      && after[key].cId == b.queue[key].cId && after[key].status == if ok then Done else Failed
  {
    var after := Mark(b, job, ok, now).queue;
    assert after.Keys == b.queue.Keys;
    forall k | k in after && k != key ensures after[k] == b.queue[k] { assert b.queue[k].jobId != job.jobId; }
  }

  lemma MarkKeepsAnsweredIff(b: Tables, key: string, job: Job, ok: bool, now: nat, net: set<Message>)
    requires JobIdsSound(b) && key in b.queue && b.queue[key].jobId == job.jobId && DoneAnswered(b.queue, net)
    ensures DoneAnswered(Mark(b, job, ok, now).queue, net) <==> !ok || DeleteReply(b.queue[key].cId, true) in net
  {
    MarkReachesOwnKey(b, key, job, ok, now);
  }

  lemma CommitKeepsAnswered(cleanup: bool, b: Tables, r: CRecord, now: nat, net: set<Message>)
    requires r.content.raw.Some? && DoneAnswered(b.queue, net)
    ensures DoneAnswered(Store(cleanup, b, r, now).queue, net)
  {
    StoreChangesOneKey(cleanup, b, r, now);
    if cleanup { CommitQueues(b, r, now); }
  }

  lemma ReplicatorKeepsAnsweredIff(setup: Setup, s: State, step: ReplicatorStep)
    requires Inv(setup, s) && EnabledB(setup, s, step) && DoneAnswered(s.b.queue, s.net)
    ensures var s' := NextB(setup, s, step);
      DoneAnswered(s'.b.queue, s'.net) <==> !MarksUnsent(setup, s, Replicating(step))
  {
    if step.BMark? {
      assert s.jobs[0].key in s.b.queue;
      MarkKeepsAnsweredIff(s.b, s.jobs[0].key, s.jobs[0].job, step.ok, s.now, s.net);
    } else if step.BCommit? {
      CommitKeepsAnswered(setup.cleanup, s.b, s.fetched[0], s.now, s.net);
    }
  }

  /** Exactly when a step keeps that every done job's delete was answered, for every step. */
  lemma StepKeepsAnsweredIff(setup: Setup, s: State, step: Step)
    requires Inv(setup, s) && Enabled(setup, s, step) && DoneAnswered(s.b.queue, s.net)
    ensures var s' := Next(setup, s, step);
      DoneAnswered(s'.b.queue, s'.net) <==> !MarksUnsent(setup, s, step)
  {
    match step
    case Replicating(b) => ReplicatorKeepsAnsweredIff(setup, s, b);
    case Receiving(c) => assert NextC(setup, s, c).b == s.b && s.net <= NextC(setup, s, c).net;
    case Uploading(a) => assert NextA(setup, s, a).b == s.b && s.net <= NextA(setup, s, a).net;
    case Tick(_) =>
    case ForeignPost(_, _) =>
    case OperatorDelete(_, _) =>
  }

  /** A stored record's job is pending. */
  lemma CommitQueues(b: Tables, r: CRecord, now: nat)
    requires r.content.raw.Some?
    ensures var queue := Store(true, b, r, now).queue;
      r.key in queue && queue[r.key].status == Pending && queue[r.key].cId == r.id && queue.Keys == b.queue.Keys + {r.key}
  {
  }

  /** B has sent its delete and C has taken the row; before B reads the answer, A uploads the
      record again, which its log does not name, and the key is on C under a new id. */
  lemma BackAgain(setup: Setup, start: Instant, r: SourceRecord) returns (s: State)
    requires setup.receiver.storeRaw && setup.cleanup && Small(setup, r) && Readable(setup.receiver, r)
    requires CanExpire(setup.receiver, RowFor(setup.receiver, r, start))
    ensures Reached(setup, start, s) && |s.jobs| == 1 && s.jobs[0].key == BKey(setup, r.recordKey) && s.jobs[0].job.cId == 1
    ensures s.fetched == [] && s.executed == 0 && DeleteReply(1, true) in s.net && DeleteReply(2, true) !in s.net
    ensures s.c.rows.Keys == {r.recordKey} && s.c.rows[r.recordKey].id == 2
    ensures s.c.rows[r.recordKey].content == ContentFor(setup.receiver, r)
  {
    var t := DeletedUnread(setup, start, r);
    s := PostedAgain(setup, start, t, r);
  }

  lemma DeletedUnread(setup: Setup, start: Instant, r: SourceRecord) returns (s: State)
    requires setup.receiver.storeRaw && setup.cleanup && Small(setup, r) && Readable(setup.receiver, r)
    requires CanExpire(setup.receiver, RowFor(setup.receiver, r, start))
    ensures Reached(setup, start, s) && |s.jobs| == 1 && s.jobs[0].key == BKey(setup, r.recordKey) && s.jobs[0].job.cId == 1
    ensures s.fetched == [] && s.executed == 0 && DeleteReply(1, true) in s.net && DeleteReply(2, true) !in s.net
    ensures s.outstanding.Idle? && s.log == [] && 2 !in s.used && s.c == Table(map[], 2)
  {
    var t := OldOnB(setup, start, r, RowFor(setup.receiver, r, start));
    assert DeleteReply(2, true) !in t.net;
    s := DeletedByB(setup, start, t, r.recordKey, 1);
  }

  lemma PostedAgain(setup: Setup, start: Instant, s: State, r: SourceRecord) returns (s': State)
    requires Reached(setup, start, s) && Genuine(r) && s.outstanding.Idle? && s.log == [] && 2 !in s.used && s.c == Table(map[], 2)
    ensures Reached(setup, start, s')
    ensures s' == s.(posted := s'.posted, issued := s'.issued, used := s'.used, net := s'.net,
                     c := Table(map[r.recordKey := Row(2, ContentFor(setup.receiver, r), Some(s.now), s.now, s.now)], 3))
    ensures SameReplies(s.net, s'.net)
  {
    UpsertCases(setup.receiver, 2, RowFor(setup.receiver, r, s.now), ValuesFor(setup.receiver, r, s.now, s.now));
    var t := PostOnly(setup, start, s, r, 2);
    s' := Arrives(setup, start, t, r, 2);
  }

  /** B stores and queues it again. */
  lemma Requeued(setup: Setup, start: Instant, r: SourceRecord) returns (s: State)
    requires setup.receiver.storeRaw && setup.cleanup && Small(setup, r) && Readable(setup.receiver, r)
    requires CanExpire(setup.receiver, RowFor(setup.receiver, r, start))
    ensures Reached(setup, start, s) && |s.jobs| == 1 && s.jobs[0].key == BKey(setup, r.recordKey) && s.jobs[0].job.cId == 1
    ensures DeleteReply(1, true) in s.net && DeleteReply(2, true) !in s.net
    ensures BKey(setup, r.recordKey) in s.b.queue && s.b.queue[BKey(setup, r.recordKey)].cId == 2
    ensures r.recordKey in s.c.rows && s.c.rows[r.recordKey].id == 2
  {
    var t := BackAgain(setup, start, r);
    StoredDocument(setup.receiver, r);
    CommitQueues(t.b, AnswerFor(setup, r, 2), t.now);
    s := Replicate(setup, start, t, r);
  }

  /** A done job whose row is live: for every record there is a run in which the mark closes the
      job queued anew, and C has the row and was never asked to delete it. */
  lemma DoneButLive(setup: Setup, start: Instant, r: SourceRecord) returns (s: State)
    requires setup.receiver.storeRaw && setup.cleanup && Small(setup, r) && Readable(setup.receiver, r)
    requires CanExpire(setup.receiver, RowFor(setup.receiver, r, start))
    ensures Reached(setup, start, s) && !DoneAnswered(s.b.queue, s.net)
    ensures var k := BKey(setup, r.recordKey);
      && k in s.b.queue && s.b.queue[k].status == Done
      && r.recordKey in s.c.rows && s.c.rows[r.recordKey].id == s.b.queue[k].cId
  {
    var t := Requeued(setup, start, r);
    s := MarkFirst(setup, start, t);
    assert s.b.queue[BKey(setup, r.recordKey)].cId == 2 && DeleteReply(2, true) !in s.net;
  }

  lemma MarkFirst(setup: Setup, start: Instant, s: State) returns (s': State)
    requires Reached(setup, start, s) && s.jobs != [] && DeleteReply(s.jobs[0].job.cId, true) in s.net
    ensures Reached(setup, start, s') && s.jobs[0].key in s.b.queue
    ensures s' == s.(b := s'.b, jobs := s.jobs[1..]) && s.jobs[0].key in s'.b.queue
    ensures s'.b.queue[s.jobs[0].key].status == Done && s'.b.queue[s.jobs[0].key].cId == s.b.queue[s.jobs[0].key].cId
  {
    ReachableInv(setup, start, s);
    assert s.jobs[0].key in s.b.queue;
    MarkReachesOwnKey(s.b, s.jobs[0].key, s.jobs[0].job, true, s.now);
    s' := Extend(setup, true, Initial(start), s, Replicating(BMark(true)));
  }
}
