/** What the steps of the machine need and leave, in the terms of the programs: checks before a
    step, what a crash forgets, and what follows for whole runs. */
module Steps {
  import opened Timestamps
  import opened Records
  import opened Receiver
  import opened Uploader
  import opened Replicator
  import opened Pipeline

  // ------------------------------------------------------------------- A

  /** The log names this row. */
  ghost predicate Names(log: seq<Entry>, r: SourceRecord) {
    exists e :: e in log && e.entityType == r.entityType && e.primaryKey == r.pk
  }

  /** No row that the log names is ever posted, in any run, and nothing but complete rows is. */
  lemma NeverPostedAgain(setup: Setup, trace: seq<State>, steps: seq<Step>, i: nat, r: SourceRecord)
    requires IsPath(setup, trace, steps) && i < |steps|
    requires steps[i].Uploading? && steps[i].a.APost? && r in steps[i].a.batch
    ensures !Names(trace[i].log, r) && Genuine(r) && trace[i].outstanding.Idle?
  {
    assert MovesAt(setup, trace, steps, i);
    assert forall e :: e in trace[i].log ==> EntryKey(e) in Replay(trace[i].log);
  }

  lemma LogStep(setup: Setup, s: State, step: Step)
    requires Enabled(setup, s, step)
    ensures (step.Uploading? && step.a.ACrash?) || s.log <= Next(setup, s, step).log
  {
    match step
    case Uploading(a) =>
      if a.ALog? { AppendKeeps(s.log, EntriesOf(Acknowledgement(s.outstanding.batch, a.response), s.now)[..a.handled]); }
    case Receiving(c) => assert NextC(setup, s, c).log == s.log;
    case Replicating(b) => assert NextB(setup, s, b).log == s.log;
    case Tick(_) =>
    case ForeignPost(_, _) =>
    case OperatorDelete(_, _) =>
  }

  /** Between crashes of A the log only grows. */
  lemma {:induction false} LogGrows(setup: Setup, trace: seq<State>, steps: seq<Step>, i: nat, j: nat)
    requires IsPath(setup, trace, steps) && i <= j <= |steps|
    requires forall k :: i <= k < j ==> !(steps[k].Uploading? && steps[k].a.ACrash?)
    ensures trace[i].log <= trace[j].log
    decreases j
  {
    if i < j {
      LogGrows(setup, trace, steps, i, j - 1);
      assert MovesAt(setup, trace, steps, j - 1);
      LogStep(setup, trace[j - 1], steps[j - 1]);
    }
  }

  /** A reads a reply only if it answers its request and has at most 1 MiB, and then logs rows of
      its batch that the reply confirms, in the order of the batch. */
  lemma LogsReply(setup: Setup, s: State, response: UploadResponse, handled: nat)
    requires EnabledA(setup, s, ALog(response, handled))
    ensures PostReply(s.outstanding.payload, response) in s.net && setup.replySize(response) <= 1024 * 1024
    ensures var s' := NextA(setup, s, ALog(response, handled));
      && s'.outstanding == Idle && s.log <= s'.log && s' == s.(log := s'.log, outstanding := Idle)
      && forall e :: e in s'.log && e !in s.log ==>
           exists r :: r in s.outstanding.batch && e == Entry(r.entityType, r.pk, r.recordKey, r.serial, s.now) &&
                       (response == UploadResponse([], [], [], []) || IsConfirmed(response, r))
  {
    var acknowledged := Acknowledgement(s.outstanding.batch, response);
    var entries := EntriesOf(acknowledged, s.now);
    AppendKeeps(s.log, entries[..handled]);
    forall e | e in AppendEntries(s.log, entries[..handled]) && e !in s.log
      ensures exists r :: r in s.outstanding.batch && e == Entry(r.entityType, r.pk, r.recordKey, r.serial, s.now) &&
                          (response == UploadResponse([], [], [], []) || IsConfirmed(response, r))
    {
      var i :| 0 <= i < handled && entries[i] == e;
      var r := acknowledged[i];
      KeyedMember(s.outstanding.batch, Confirmed(response), r);
      ConfirmedIs(response, r);
      assert r in s.outstanding.batch;
    }
  }

  /** A crash of A, possible at any moment, forgets the request under way and keeps the first
      entries of the log, any number of them; giving up keeps all. C, B and the network stay. */
  lemma UploaderCrash(setup: Setup, s: State, keep: nat)
    requires keep <= |s.log|
    ensures EnabledA(setup, s, ACrash(keep)) && EnabledA(setup, s, AGiveUp)
    ensures var s' := NextA(setup, s, ACrash(keep));
      && |s'.log| == keep && (forall i :: 0 <= i < keep ==> s'.log[i] == s.log[i])
      && s'.outstanding == Idle && s' == s.(log := s'.log, outstanding := Idle)
    ensures NextA(setup, s, AGiveUp) == s.(outstanding := Idle)
  {
  }

  // ------------------------------------------------------------------- B

  /** A fetch starts only when the last one is done with, and what is fetched is C's answer, of at
      most 1 MiB. */
  lemma FetchIsAnswer(setup: Setup, s: State, limit: nat, keys: seq<string>)
    requires EnabledB(setup, s, BFetch(limit, keys))
    ensures s.fetched == [] && QueryAnswer(s.c, limit, keys)
    ensures var s' := NextB(setup, s, BFetch(limit, keys));
      && setup.querySize(s'.fetched) <= 1024 * 1024 && |s'.fetched| == |keys| && s'.executed == 0
      && (forall i :: 0 <= i < |keys| ==> keys[i] in s.c.rows && s'.fetched[i] == RowRecord(setup.receiver, setup.fold, s.c, keys[i]))
      && s' == s.(fetched := s'.fetched, executed := 0)
  {
  }

  /** A record is committed only after all statements of its transaction, which are the raw row,
      the typed row and, with cleanup on, the job; until then no table changes. */
  lemma CommitIsWhole(setup: Setup, s: State)
    ensures EnabledB(setup, s, BCommit) ==>
              s.fetched != [] && Storable(s.fetched[0]) && s.executed == if setup.cleanup then 3 else 2
    ensures EnabledB(setup, s, BStatement) ==>
              NextB(setup, s, BStatement).b == s.b && NextB(setup, s, BStatement).executed == s.executed + 1
    ensures EnabledB(setup, s, BStatement) ==> s.executed < if setup.cleanup then 3 else 2
  {
  }

  /** The delete worker loads only with cleanup on and its last jobs done with; an answer it acts
      on is one C gave for the id it sent. */
  lemma WorkerChecks(setup: Setup, s: State)
    ensures forall limit, keys :: EnabledB(setup, s, BLoad(limit, keys)) ==>
              setup.cleanup && s.jobs == [] && DueAnswer(s.b, s.now, limit, keys)
    ensures EnabledB(setup, s, BMark(true)) ==> s.jobs != [] && DeleteReply(s.jobs[0].job.cId, true) in s.net
  {
  }

  /** A crash of B, possible at any moment, forgets what its workers have in hand and leaves its
      tables as last committed; a failed transaction ends the fetch. */
  lemma ReplicatorCrash(setup: Setup, s: State)
    ensures EnabledB(setup, s, BCrash) && EnabledB(setup, s, BAbort)
    ensures var s' := NextB(setup, s, BCrash);
      s'.fetched == [] && s'.jobs == [] && s'.executed == 0 && s' == s.(fetched := [], executed := 0, jobs := [])
    ensures NextB(setup, s, BAbort) == s.(fetched := [], executed := 0)
  {
  }

  // ------------------------------------------------------------------- C

  /** A delete goes through only for a request that is under way, and with a cutoff that lies the
      minimum age back at least. */
  lemma DeleteChecks(setup: Setup, s: State, cId: nat, key: string, stamp: Stamp, cutoff: Instant)
    requires EnabledC(setup, s, CDelete(cId, key, stamp, cutoff))
    ensures Delete(cId, key, stamp) in s.net && s.now - cutoff >= setup.receiver.minDeleteAge
    ensures var s' := NextC(setup, s, CDelete(cId, key, stamp, cutoff));
      && s'.b == s.b && s'.log == s.log && DeleteReply(cId, true) in s'.net
      && forall k :: k in s.c.rows && k !in s'.c.rows ==> s.c.rows[k].id == cId && Effective(s.c.rows[k]) < cutoff + SECOND
  {
    forall k | k in s.c.rows && k !in DeleteById(s.c, cId, cutoff).rows
      ensures s.c.rows[k].id == cId && Effective(s.c.rows[k]) < cutoff + SECOND
    {
      RetentionBound(s.c.rows[k], cutoff, 0);
    }
  }

  /** An upload that goes through was posted; an aborted one leaves the rows alone. */
  lemma UploadChecks(setup: Setup, s: State, payload: Payload, stamp: Stamp, clock: seq<Instant>, burned: nat)
    ensures EnabledC(setup, s, CIngest(payload, stamp, clock)) ==> Post(payload, stamp) in s.net && RecordCount(payload) > 0
    ensures EnabledC(setup, s, CAbort(payload, stamp, burned)) ==>
              Post(payload, stamp) in s.net && NextC(setup, s, CAbort(payload, stamp, burned)).c.rows == s.c.rows
  {
  }

  /** A refused delete was under way; nothing but its answer comes of it. */
  lemma RefusalChecks(setup: Setup, s: State, cId: nat, key: string, stamp: Stamp)
    requires EnabledC(setup, s, CRefuse(cId, key, stamp))
    ensures Delete(cId, key, stamp) in s.net
    ensures var s' := NextC(setup, s, CRefuse(cId, key, stamp));
      s'.c == s.c && s'.b == s.b && s'.log == s.log && s'.net == s.net + {DeleteReply(cId, false)}
  {
  }

  /** An aborted upload may burn ids, any number of them. */
  lemma AbortBurns(setup: Setup, s: State, payload: Payload, stamp: Stamp, burned: nat)
    requires EnabledC(setup, s, CAbort(payload, stamp, burned))
    ensures NextC(setup, s, CAbort(payload, stamp, burned)).c == Table(s.c.rows, s.c.nextId + burned)
  {
  }

  // -------------------------------------------------------------- operators

  /** What the run theorems ask of operators, and of nobody else: to delete by key only what B
      holds. Then they may delete whatever is old enough. */
  lemma OperatorsMay(setup: Setup, s: State, step: Step)
    ensures !step.OperatorDelete? ==> Careful(setup, s, step)
    ensures step.OperatorDelete? ==>
              (Careful(setup, s, step) <==> (step.key in s.c.rows ==> Folded(setup.fold, step.key) in s.b.replicated))
    ensures step.OperatorDelete? ==>
              (Enabled(setup, s, step) <==> s.now - step.cutoff >= setup.receiver.minDeleteAge)
  {
  }

  // ---------------------------------------------------------------- the clock

  /** Time never goes back in a run. */
  lemma {:induction false} ClockForward(setup: Setup, trace: seq<State>, steps: seq<Step>, i: nat, j: nat)
    requires IsPath(setup, trace, steps) && i <= j <= |steps|
    ensures trace[i].now <= trace[j].now
    decreases j
  {
    if i < j {
      ClockForward(setup, trace, steps, i, j - 1);
      assert MovesAt(setup, trace, steps, j - 1);
      ClockStep(setup, trace[j - 1], steps[j - 1]);
    }
  }

  lemma ClockStep(setup: Setup, s: State, step: Step)
    requires Enabled(setup, s, step)
    ensures s.now <= Next(setup, s, step).now && (!step.Tick? ==> Next(setup, s, step).now == s.now)
  {
  }
}
