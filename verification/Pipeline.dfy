/** The whole delivery pipeline A -> C -> B as one step machine.

    Messages are a growing set, so any of them may be lost, delayed or delivered again, as far
    as the signature check lets them. A and B may crash anywhere, B's two workers interleave
    freely, a transaction takes effect only at its commit, and other authenticated clients
    may upload too. */
module Pipeline {
  import opened Text
  import opened Timestamps
  import opened Ordering
  import opened Records
  import opened Receiver
  import opened Uploader
  import opened Replicator

  /** When a request was signed, and with which nonce. */
  datatype Stamp = Stamp(sent: Instant, nonce: nat)

  /** `key` in `Delete` and in a loaded job is bookkeeping: the request carries the id only. */
  datatype Message =
    | Post(payload: Payload, stamp: Stamp)
    | PostReply(payload: Payload, response: UploadResponse)
    | Delete(cId: int, key: string, stamp: Stamp)
    | DeleteReply(cId: int, ok: bool)

  datatype Outstanding = Idle | Waiting(batch: seq<SourceRecord>, payload: Payload)

  datatype LoadedJob = LoadedJob(key: string, job: Job)

  /** A has its log and the request it waits for; B its tables, the records left to store
      with the statements executed for the first of them, and the jobs left to handle. `used`
      are the nonces C has seen. `issued` and `posted` record every (id, key) C ever gave a row and every
      (key, record) anyone ever posted. */
  datatype State = State(
    now: Instant,
    log: seq<Entry>, outstanding: Outstanding,
    c: Table,
    b: Tables, fetched: seq<CRecord>, executed: nat, jobs: seq<LoadedJob>,
    net: set<Message>, used: set<nat>,
    issued: set<(int, string)>, posted: set<(string, Record)>)

  datatype UploaderStep =
    | APost(batch: seq<SourceRecord>, source: string, database: string, nonce: nat)
    | AGiveUp
    | ALog(response: UploadResponse, handled: nat)
    | ACrash(keep: nat)

  datatype ReceiverStep =
    | CIngest(payload: Payload, stamp: Stamp, clock: seq<Instant>)
    | CAbort(payload: Payload, stamp: Stamp, burned: nat)
    | CDelete(cId: nat, key: string, stamp: Stamp, cutoff: Instant)
    | CRefuse(cId: nat, key: string, stamp: Stamp)

  datatype ReplicatorStep =
    | BFetch(limit: nat, keys: seq<string>)
    | BStatement
    | BCommit
    | BAbort
    | BLoad(limit: nat, keys: seq<string>)
    | BSend(nonce: nat)
    | BMark(ok: bool)
    | BCrash

  datatype Step =
    | Tick(to: Instant)
    | Uploading(a: UploaderStep)
    | Receiving(c: ReceiverStep)
    | Replicating(b: ReplicatorStep)
    | ForeignPost(payload: Payload, stamp: Stamp)
    | OperatorDelete(key: string, cutoff: Instant)

  type Skew = n: nat | n >= SECOND witness SECOND

  /** With a `skew`, C takes a request only while it is fresh, and a nonce only once; without one
      it takes any copy at any time, so that a safety result proved for all setups does not
      rest on the check. `fold` is how B's tables compare raw keys. The sizes are those of the
      answers to B and A, which read no more than `BODY_LIMIT` bytes of one. */
  datatype Setup = Setup(
    receiver: Config, cleanup: bool, skew: Option<Skew>, fold: string -> string,
    querySize: seq<CRecord> -> nat, replySize: UploadResponse -> nat)

  const BODY_LIMIT: nat := 0x10_0000

  /** The key of B's row for a key of C. */
  function BKey(setup: Setup, key: string): string { Folded(setup.fold, key) }

  /** The signed timestamp is in whole seconds. */
  predicate Fresh(skew: Skew, now: Instant, stamp: Stamp) {
    stamp.sent <= now && now - stamp.sent / SECOND * SECOND <= skew
  }

  predicate Admits(setup: Setup, s: State, stamp: Stamp) {
    setup.skew.None? || (Fresh(setup.skew.value, s.now, stamp) && stamp.nonce !in s.used)
  }

  function Initial(now: Instant): State {
    State(now, [], Idle, Table(map[], 1), Tables(map[], map[], map[], map[], 1), [], 0, [], {}, {}, {}, {})
  }

  // --------------------------------------------------------------- the steps

  function KeyedRecords(entityType: string, records: seq<Record>): set<(string, Record)> {
    set r | r in records :: (RecordKey(entityType, ExtractRecordKey(entityType, r).1), r)
  }

  /** The (key, record) pairs of a payload. */
  function Pairs(p: Payload): set<(string, Record)> {
    KeyedRecords(INFO, NormalizedWeightInfo(p)) + KeyedRecords(PHOTO, p.weightPhoto)
  }

  function Ids(t: Table): set<(int, string)> { set k | k in t.rows :: (t.rows[k].id as int, k) }

  /** Statements before the commit of one stored record. */
  function StatementCount(cleanup: bool): nat { if cleanup then 3 else 2 }

  function Loaded(b: Tables, keys: seq<string>): (jobs: seq<LoadedJob>)
    requires forall k :: k in keys ==> k in b.queue
    ensures |jobs| == |keys| && forall i :: 0 <= i < |keys| ==> jobs[i] == LoadedJob(keys[i], b.queue[keys[i]])
  {
    seq(|keys|, i requires 0 <= i < |keys| => LoadedJob(keys[i], b.queue[keys[i]]))
  }

  ghost predicate EnabledA(setup: Setup, s: State, step: UploaderStep) {
    match step
    case APost(batch, _, _, _) =>
      s.outstanding.Idle? && batch != [] &&
      forall r :: r in batch ==> Genuine(r) && StateKey(r.entityType, r.pk) !in Replay(s.log)
    case AGiveUp => true
    case ALog(response, handled) =>
      s.outstanding.Waiting? && PostReply(s.outstanding.payload, response) in s.net &&
      setup.replySize(response) <= BODY_LIMIT && handled <= |Acknowledgement(s.outstanding.batch, response)|
    case ACrash(keep) => keep <= |s.log|
  }

  ghost function NextA(setup: Setup, s: State, step: UploaderStep): State
    requires EnabledA(setup, s, step)
  {
    match step
    case APost(batch, source, database, nonce) =>
      var payload := PayloadOf(source, database, s.now, batch);
      s.(outstanding := Waiting(batch, payload), net := s.net + {Post(payload, Stamp(s.now, nonce))}, posted := s.posted + Pairs(payload))
    case AGiveUp => s.(outstanding := Idle)
    case ALog(response, handled) =>
      var entries := EntriesOf(Acknowledgement(s.outstanding.batch, response), s.now);
      s.(log := AppendEntries(s.log, entries[..handled]), outstanding := Idle)
    case ACrash(keep) => s.(log := s.log[..keep], outstanding := Idle)
  }

  ghost predicate EnabledC(setup: Setup, s: State, step: ReceiverStep) {
    match step
    case CIngest(payload, stamp, clock) =>
      Post(payload, stamp) in s.net && Admits(setup, s, stamp) && RecordCount(payload) > 0 && |clock| == RecordCount(payload)
    case CAbort(payload, stamp, burned) => Post(payload, stamp) in s.net && Admits(setup, s, stamp)
    case CDelete(cId, key, stamp, cutoff) =>
      Delete(cId, key, stamp) in s.net && Admits(setup, s, stamp) && cutoff + setup.receiver.minDeleteAge <= s.now
    case CRefuse(cId, key, stamp) => Delete(cId, key, stamp) in s.net
  }

  /** A refused request counts as seen: it is stale already or will not be taken again. */
  ghost function NextC(setup: Setup, s: State, step: ReceiverStep): State
    requires EnabledC(setup, s, step)
  {
    match step
    case CIngest(payload, stamp, clock) =>
      var after := ApplyAll(setup.receiver, s.c, Items(payload, clock));
      s.(c := after, issued := s.issued + Ids(after), used := s.used + {stamp.nonce},
         net := s.net + {PostReply(payload, Reply(setup.receiver, payload, clock))})
    case CAbort(payload, stamp, burned) => s.(c := s.c.(nextId := s.c.nextId + burned), used := s.used + {stamp.nonce})
    case CDelete(cId, key, stamp, cutoff) =>
      s.(c := DeleteById(s.c, cId, cutoff), net := s.net + {DeleteReply(cId, true)}, used := s.used + {stamp.nonce})
    case CRefuse(cId, key, stamp) => s.(net := s.net + {DeleteReply(cId, false)}, used := s.used + {stamp.nonce})
  }

  ghost predicate EnabledB(setup: Setup, s: State, step: ReplicatorStep) {
    match step
    case BFetch(limit, keys) =>
      && s.fetched == [] && QueryAnswer(s.c, limit, keys) && (forall k :: k in keys ==> k in s.c.rows)
      && setup.querySize(Answered(setup.receiver, setup.fold, s.c, keys)) <= BODY_LIMIT
    case BStatement => s.fetched != [] && Storable(s.fetched[0]) && s.executed < StatementCount(setup.cleanup)
    case BCommit => s.fetched != [] && Storable(s.fetched[0]) && s.executed == StatementCount(setup.cleanup)
    case BAbort => true
    case BLoad(limit, keys) => setup.cleanup && s.jobs == [] && DueAnswer(s.b, s.now, limit, keys)
    case BSend(_) => s.jobs != []
    case BMark(ok) => s.jobs != [] && (ok ==> DeleteReply(s.jobs[0].job.cId, true) in s.net)
    case BCrash => true
  }

  ghost function NextB(setup: Setup, s: State, step: ReplicatorStep): State
    requires EnabledB(setup, s, step)
  {
    match step
    case BFetch(limit, keys) =>
      s.(fetched := Answered(setup.receiver, setup.fold, s.c, keys), executed := 0)
    case BStatement => s.(executed := s.executed + 1)
    case BCommit => s.(b := Store(setup.cleanup, s.b, s.fetched[0], s.now), fetched := s.fetched[1..], executed := 0)
    case BAbort => s.(fetched := [], executed := 0)
    case BLoad(limit, keys) =>
      DueIsQueued(s.b, s.now, limit, keys);
      s.(jobs := Loaded(s.b, keys))
    case BSend(nonce) => s.(net := s.net + {Delete(s.jobs[0].job.cId, s.jobs[0].key, Stamp(s.now, nonce))})
    case BMark(ok) => s.(b := Mark(s.b, s.jobs[0].job, ok, s.now), jobs := s.jobs[1..])
    case BCrash => s.(fetched := [], executed := 0, jobs := [])
  }

  ghost predicate Enabled(setup: Setup, s: State, step: Step) {
    match step
    case Tick(to) => s.now <= to
    case Uploading(a) => EnabledA(setup, s, a)
    case Receiving(c) => EnabledC(setup, s, c)
    case Replicating(b) => EnabledB(setup, s, b)
    case ForeignPost(_, _) => true
    case OperatorDelete(key, cutoff) => cutoff + setup.receiver.minDeleteAge <= s.now
  }

  ghost function Next(setup: Setup, s: State, step: Step): State
    requires Enabled(setup, s, step)
  {
    match step
    case Tick(to) => s.(now := to)
    case Uploading(a) => NextA(setup, s, a)
    case Receiving(c) => NextC(setup, s, c)
    case Replicating(b) => NextB(setup, s, b)
    case ForeignPost(payload, stamp) => s.(net := s.net + {Post(payload, stamp)}, posted := s.posted + Pairs(payload))
    case OperatorDelete(key, cutoff) => s.(c := DeleteByKey(s.c, key, cutoff))
  }

  lemma DueIsQueued(b: Tables, now: nat, limit: nat, keys: seq<string>)
    requires DueAnswer(b, now, limit, keys)
    ensures forall k :: k in keys ==> k in b.queue
  {
    assert forall k :: k in keys ==> k in Elements(keys);
  }

  // ----------------------------------------------------------- the invariant

  /** Ids are never given to two keys, and what C holds was posted. */
  ghost predicate TableSound(cfg: Config, c: Table, issued: set<(int, string)>, posted: set<(string, Record)>) {
    && (forall k :: k in c.rows ==> (c.rows[k].id as int, k) in issued && RowSound(cfg, k, c.rows[k].content, posted))
    && (forall a :: a in issued ==> 0 < a.0 < c.nextId) && c.nextId > 0
    && (forall a, b :: a in issued && b in issued && a.0 == b.0 ==> a == b)
  }

  predicate KeySound(key: string, content: Content) {
    && content.entityType in {INFO, PHOTO} && key != "" && key[0] == 'w'
    && (IsPhotoKey(key) <==> content.entityType == PHOTO)
  }

  /** A document of C was posted under its key; none is missing when C stores documents. */
  predicate RowSound(cfg: Config, key: string, content: Content, posted: set<(string, Record)>) {
    && KeySound(key, content)
    && (content.raw.Some? ==> (key, content.raw.value) in posted)
    && (cfg.storeRaw ==> content.raw.Some?)
  }

  /** The ids C ever gave, each with the key of B's row for its key. */
  function BIds(fold: string -> string, issued: set<(int, string)>): set<(int, string)> {
    set a | a in issued :: (a.0, Folded(fold, a.1))
  }

  /** A document answered by C is what re-decoding makes of one posted under its key, or under one
      that falls together with it. */
  ghost predicate AnswerSound(setup: Setup, key: string, content: Content, posted: set<(string, Record)>) {
    && KeySound(key, content)
    && (content.raw.Some? ==> exists x :: x in posted && BKey(setup, x.0) == key && setup.receiver.redecode(x.1) == content.raw)
  }

  /** B's rows, its queue and its workers only know ids that C gave to the same key. */
  ghost predicate ReplicaSound(setup: Setup, b: Tables, issued: set<(int, string)>, posted: set<(string, Record)>) {
    Agree(b) && RowsSound(setup, b, issued, posted)
  }

  ghost predicate RowsSound(setup: Setup, b: Tables, issued: set<(int, string)>, posted: set<(string, Record)>) {
    && (forall k :: k in b.replicated ==> AnswerSound(setup, k, b.replicated[k].content, posted))
    && (forall k :: k in b.replicated ==> (b.replicated[k].cId, k) in BIds(setup.fold, issued))
    && (forall k :: k in b.queue ==> (b.queue[k].cId, k) in BIds(setup.fold, issued))
  }

  ghost predicate FetchedSound(setup: Setup, fetched: seq<CRecord>, issued: set<(int, string)>, posted: set<(string, Record)>) {
    forall i :: 0 <= i < |fetched| ==>
      && (fetched[i].id, fetched[i].key) in BIds(setup.fold, issued)
      && AnswerSound(setup, fetched[i].key, fetched[i].content, posted)
  }

  /** A loaded job names the queue entry of its key, which may meanwhile carry another C id. */
  ghost predicate JobsSound(setup: Setup, jobs: seq<LoadedJob>, b: Tables, issued: set<(int, string)>) {
    forall i :: 0 <= i < |jobs| ==>
      && (jobs[i].job.cId, jobs[i].key) in BIds(setup.fold, issued) && jobs[i].key in b.replicated
      && jobs[i].key in b.queue && b.queue[jobs[i].key].jobId == jobs[i].job.jobId
  }

  ghost predicate DeletesSound(setup: Setup, net: set<Message>, b: Tables, issued: set<(int, string)>) {
    forall m :: m in net && m.Delete? ==> (m.cId, m.key) in BIds(setup.fold, issued) && m.key in b.replicated
  }

  ghost predicate PostsSound(net: set<Message>, posted: set<(string, Record)>) {
    forall m :: m in net && m.Post? ==> Pairs(m.payload) <= posted
  }

  /** The key is live on C or stored on B, there as B's tables compare keys. */
  predicate Held(setup: Setup, c: Table, b: Tables, key: string) { key in c.rows || BKey(setup, key) in b.replicated }

  ghost predicate RepliesHeld(setup: Setup, net: set<Message>, c: Table, b: Tables) {
    forall m :: m in net && m.PostReply? ==>
      !AllEmpty(m.response) && forall key :: key in Confirmed(m.response) ==> Held(setup, c, b, key)
  }

  ghost predicate LogHeld(setup: Setup, log: seq<Entry>, c: Table, b: Tables) {
    forall e :: e in log ==> Held(setup, c, b, e.recordKey)
  }

  ghost predicate OutstandingSound(o: Outstanding) {
    o.Waiting? ==> forall r :: r in o.batch ==> Genuine(r)
  }

  ghost predicate Inv(setup: Setup, s: State) {
    && TableSound(setup.receiver, s.c, s.issued, s.posted)
    && ReplicaSound(setup, s.b, s.issued, s.posted)
    && JobIdsSound(s.b)
    && FetchedSound(setup, s.fetched, s.issued, s.posted)
    && JobsSound(setup, s.jobs, s.b, s.issued)
    && DeletesSound(setup, s.net, s.b, s.issued)
    && PostsSound(s.net, s.posted)
    && RepliesHeld(setup, s.net, s.c, s.b)
    && LogHeld(setup, s.log, s.c, s.b)
    && OutstandingSound(s.outstanding)
    && NoRepeats(s.log)
  }

  /** An operator removes from C only what B already holds. Nothing else is asked of anyone. */
  predicate Careful(setup: Setup, s: State, step: Step) {
    step.OperatorDelete? ==> step.key in s.c.rows ==> BKey(setup, step.key) in s.b.replicated
  }

  // ------------------------------------------------------------- C's ingest

  lemma {:induction false} LastContentSource(cfg: Config, items: seq<Item>, key: string) returns (i: nat)
    requires LastContent(cfg, items, key).Some?
    ensures i < |items| && Classify(cfg, items[i]) == Accepted(key, LastContent(cfg, items, key).value)
  {
    var n := |items| - 1;
    var v := Classify(cfg, items[n]);
    if v.Accepted? && v.key == key {
      i := n;
    } else {
      i := LastContentSource(cfg, items[..n], key);
    }
  }

  lemma ItemIsPosted(p: Payload, clock: seq<Instant>, i: nat)
    requires |clock| == RecordCount(p) && i < |clock|
    ensures var item := Items(p, clock)[i];
      && item.entityType in {INFO, PHOTO}
      && (RecordKey(item.entityType, ExtractRecordKey(item.entityType, item.record).1), item.record) in Pairs(p)
  {
    var item, n := Items(p, clock)[i], |NormalizedWeightInfo(p)|;
    if i < n {
      assert item.record == NormalizedWeightInfo(p)[i] && item.entityType == INFO;
      assert item.record in NormalizedWeightInfo(p);
    } else {
      assert item.record == p.weightPhoto[i - n] && item.entityType == PHOTO;
      assert item.record in p.weightPhoto;
    }
  }

  /** What an upload stores was posted, under the key it was posted with. */
  lemma StoredWasPosted(cfg: Config, p: Payload, clock: seq<Instant>, key: string, posted: set<(string, Record)>)
    requires |clock| == RecordCount(p) && Pairs(p) <= posted
    requires LastContent(cfg, Items(p, clock), key).Some?
    ensures RowSound(cfg, key, LastContent(cfg, Items(p, clock), key).value, posted)
  {
    var i := LastContentSource(cfg, Items(p, clock), key);
    var item := Items(p, clock)[i];
    ItemIsPosted(p, clock, i);
    KeyShape(item.entityType, ExtractRecordKey(item.entityType, item.record).1);
  }

  lemma IngestKeepsTable(cfg: Config, c: Table, p: Payload, clock: seq<Instant>, issued: set<(int, string)>, posted: set<(string, Record)>)
    requires TableSound(cfg, c, issued, posted) && |clock| == RecordCount(p) && Pairs(p) <= posted
    ensures var after := ApplyAll(cfg, c, Items(p, clock));
      TableSound(cfg, after, issued + Ids(after), posted)
  {
    var items := Items(p, clock);
    var after := ApplyAll(cfg, c, items);
    ApplyAllIds(cfg, c, items);
    assert IdsSound(after) by { TableIdsSound(cfg, c, issued, posted); }
    forall k | k in after.rows ensures
        && RowSound(cfg, k, after.rows[k].content, posted)
        && (k in c.rows ==> after.rows[k].id == c.rows[k].id)
        && (k !in c.rows ==> after.rows[k].id >= c.nextId)
    {
      ApplyAllRow(cfg, c, items, k);
      if LastContent(cfg, items, k).Some? { StoredWasPosted(cfg, p, clock, k, posted); }
    }
    FreshIds(cfg, c, after, issued, posted);
  }

  lemma TableIdsSound(cfg: Config, c: Table, issued: set<(int, string)>, posted: set<(string, Record)>)
    requires TableSound(cfg, c, issued, posted)
    ensures IdsSound(c)
  {
    forall j, k | j in c.rows && k in c.rows && c.rows[j].id == c.rows[k].id ensures j == k {
      assert (c.rows[j].id as int, j) == (c.rows[k].id as int, k);
    }
  }

  lemma FreshIds(cfg: Config, c: Table, after: Table, issued: set<(int, string)>, posted: set<(string, Record)>)
    requires TableSound(cfg, c, issued, posted) && IdsSound(after) && c.nextId <= after.nextId
    requires forall k :: k in after.rows && k in c.rows ==> after.rows[k].id == c.rows[k].id
    requires forall k :: k in after.rows && k !in c.rows ==> after.rows[k].id >= c.nextId
    requires forall k :: k in after.rows ==> RowSound(cfg, k, after.rows[k].content, posted)
    ensures TableSound(cfg, after, issued + Ids(after), posted)
  {
    var all := issued + Ids(after);
    forall a | a in all ensures 0 < a.0 < after.nextId { }
    forall a, b | a in all && b in all && a.0 == b.0 ensures a == b {
      if b in Ids(after) {
        SameIdSameKey(cfg, c, after, issued, posted, a, b);
      } else if a in Ids(after) {
        SameIdSameKey(cfg, c, after, issued, posted, b, a);
      }
    }
  }

  lemma SameIdSameKey(cfg: Config, c: Table, after: Table, issued: set<(int, string)>, posted: set<(string, Record)>, a: (int, string), b: (int, string))
    requires TableSound(cfg, c, issued, posted) && IdsSound(after)
    requires forall k :: k in after.rows && k in c.rows ==> after.rows[k].id == c.rows[k].id
    requires forall k :: k in after.rows && k !in c.rows ==> after.rows[k].id >= c.nextId
    requires a in issued + Ids(after) && b in Ids(after) && a.0 == b.0
    ensures a == b
  {
    if b.1 in c.rows {
      assert b in issued;
    }
  }

  lemma IngestKeepsHeld(setup: Setup, c: Table, b: Tables, p: Payload, clock: seq<Instant>, key: string)
    requires |clock| == RecordCount(p) && Held(setup, c, b, key)
    ensures Held(setup, ApplyAll(setup.receiver, c, Items(p, clock)), b, key)
  {
    ApplyAllRow(setup.receiver, c, Items(p, clock), key);
  }

  lemma ReplyHeld(setup: Setup, c: Table, b: Tables, p: Payload, clock: seq<Instant>, key: string)
    requires |clock| == RecordCount(p) && key in Confirmed(Reply(setup.receiver, p, clock))
    ensures Held(setup, ApplyAll(setup.receiver, c, Items(p, clock)), b, key)
  {
    ReplyIsHonest(setup.receiver, c, p, clock, key);
  }

  // ------------------------------------------------------ steps keep it

  lemma TableSoundGrows(cfg: Config, c: Table, issued: set<(int, string)>, posted: set<(string, Record)>, more: set<(string, Record)>)
    requires TableSound(cfg, c, issued, posted) && posted <= more
    ensures TableSound(cfg, c, issued, more)
  {
    forall k | k in c.rows ensures RowSound(cfg, k, c.rows[k].content, more) {
      assert RowSound(cfg, k, c.rows[k].content, posted);
    }
  }

  lemma AnswerSoundGrows(setup: Setup, key: string, content: Content, posted: set<(string, Record)>, more: set<(string, Record)>)
    requires AnswerSound(setup, key, content, posted) && posted <= more
    ensures AnswerSound(setup, key, content, more)
  {
  }

  lemma BIdsGrow(fold: string -> string, issued: set<(int, string)>, ids: set<(int, string)>)
    requires issued <= ids
    ensures BIds(fold, issued) <= BIds(fold, ids)
  {
  }

  lemma ReplicaSoundGrows(setup: Setup, b: Tables, issued: set<(int, string)>, posted: set<(string, Record)>,
                          ids: set<(int, string)>, more: set<(string, Record)>)
    requires ReplicaSound(setup, b, issued, posted) && issued <= ids && posted <= more
    ensures ReplicaSound(setup, b, ids, more)
  {
    BIdsGrow(setup.fold, issued, ids);
    forall k | k in b.replicated ensures AnswerSound(setup, k, b.replicated[k].content, more) {
      AnswerSoundGrows(setup, k, b.replicated[k].content, posted, more);
    }
  }

  lemma FetchedSoundGrows(setup: Setup, fetched: seq<CRecord>, issued: set<(int, string)>, posted: set<(string, Record)>,
                          ids: set<(int, string)>, more: set<(string, Record)>)
    requires FetchedSound(setup, fetched, issued, posted) && issued <= ids && posted <= more
    ensures FetchedSound(setup, fetched, ids, more)
  {
    BIdsGrow(setup.fold, issued, ids);
    forall i | 0 <= i < |fetched| ensures AnswerSound(setup, fetched[i].key, fetched[i].content, more) {
      AnswerSoundGrows(setup, fetched[i].key, fetched[i].content, posted, more);
    }
  }

  lemma PostKeeps(setup: Setup, s: State, payload: Payload, stamp: Stamp)
    requires Inv(setup, s)
    ensures Inv(setup, s.(net := s.net + {Post(payload, stamp)}, posted := s.posted + Pairs(payload)))
  {
    var more := s.posted + Pairs(payload);
    TableSoundGrows(setup.receiver, s.c, s.issued, s.posted, more);
    ReplicaSoundGrows(setup, s.b, s.issued, s.posted, s.issued, more);
    FetchedSoundGrows(setup, s.fetched, s.issued, s.posted, s.issued, more);
  }

  /** What A logs was confirmed, so it is held. */
  lemma LogKeeps(setup: Setup, s: State, response: UploadResponse, handled: nat)
    requires Inv(setup, s) && EnabledA(setup, s, ALog(response, handled))
    ensures var log := NextA(setup, s, ALog(response, handled)).log;
      LogHeld(setup, log, s.c, s.b) && NoRepeats(log)
  {
    var batch := s.outstanding.batch;
    var acknowledged := Acknowledgement(batch, response);
    var entries := EntriesOf(acknowledged, s.now)[..handled];
    AppendKeeps(s.log, entries);
    assert !AllEmpty(response) && forall key :: key in Confirmed(response) ==> Held(setup, s.c, s.b, key) by {
      assert PostReply(s.outstanding.payload, response) in s.net;
    }
    forall e | e in entries ensures Held(setup, s.c, s.b, e.recordKey) {
      var i :| 0 <= i < |entries| && entries[i] == e;
      var r := acknowledged[i];
      KeyedMember(batch, Confirmed(response), r);
      KeyShape(r.entityType, r.pk);
    }
  }

  lemma UploaderKeeps(setup: Setup, s: State, step: UploaderStep)
    requires Inv(setup, s) && EnabledA(setup, s, step)
    ensures Inv(setup, NextA(setup, s, step))
  {
    match step
    case APost(batch, source, database, nonce) => PostKeeps(setup, s, PayloadOf(source, database, s.now, batch), Stamp(s.now, nonce));
    case AGiveUp =>
    case ALog(response, handled) => LogKeeps(setup, s, response, handled);
    case ACrash(keep) => PrefixReplay(s.log, keep);
  }

  lemma IngestKeeps(setup: Setup, s: State, payload: Payload, clock: seq<Instant>, used: set<nat>)
    requires Inv(setup, s) && Pairs(payload) <= s.posted && RecordCount(payload) > 0 && |clock| == RecordCount(payload)
    ensures var after := ApplyAll(setup.receiver, s.c, Items(payload, clock));
      Inv(setup, s.(c := after, issued := s.issued + Ids(after), used := used,
                    net := s.net + {PostReply(payload, Reply(setup.receiver, payload, clock))}))
  {
    var cfg, items := setup.receiver, Items(payload, clock);
    var after := ApplyAll(cfg, s.c, items);
    var ids := s.issued + Ids(after);
    IngestKeepsTable(cfg, s.c, payload, clock, s.issued, s.posted);
    ReplicaSoundGrows(setup, s.b, s.issued, s.posted, ids, s.posted);
    FetchedSoundGrows(setup, s.fetched, s.issued, s.posted, ids, s.posted);
    BIdsGrow(setup.fold, s.issued, ids);
    forall key | Held(setup, s.c, s.b, key) ensures Held(setup, after, s.b, key) {
      IngestKeepsHeld(setup, s.c, s.b, payload, clock, key);
    }
    var response := Reply(cfg, payload, clock);
    forall key | key in Confirmed(response) ensures Held(setup, after, s.b, key) {
      ReplyHeld(setup, s.c, s.b, payload, clock, key);
    }
    ReplyIsHonest(cfg, s.c, payload, clock, "");
  }

  /** A table that lost only rows B holds keeps everything. */
  lemma RemovalKeeps(setup: Setup, s: State, rows: map<string, Row>)
    requires Inv(setup, s)
    requires forall k :: k in rows ==> k in s.c.rows && rows[k] == s.c.rows[k]
    requires forall k :: k in s.c.rows && k !in rows ==> BKey(setup, k) in s.b.replicated
    ensures Inv(setup, s.(c := s.c.(rows := rows)))
  {
    var c := s.c.(rows := rows);
    assert forall key :: Held(setup, s.c, s.b, key) ==> Held(setup, c, s.b, key);
  }

  lemma ReplyToDeleteKeeps(setup: Setup, s: State, cId: nat, ok: bool, used: set<nat>)
    requires Inv(setup, s)
    ensures Inv(setup, s.(net := s.net + {DeleteReply(cId, ok)}, used := used))
  {
  }

  /** A stale delete is harmless: whenever it reaches C, the id it carries was issued to the key
      it was queued for, B has a row for that key, and no row can go but the one of that id and
      key. */
  lemma StaleDeleteHarmless(setup: Setup, s: State, cId: nat, key: string, stamp: Stamp, cutoff: Instant)
    requires Inv(setup, s) && Delete(cId, key, stamp) in s.net
    ensures (cId, key) in BIds(setup.fold, s.issued) && key in s.b.replicated
    ensures forall k :: k in s.c.rows && !(s.c.rows[k].id == cId && BKey(setup, k) == key) ==>
              k in DeleteById(s.c, cId, cutoff).rows && DeleteById(s.c, cId, cutoff).rows[k] == s.c.rows[k]
    ensures forall j, k :: j in s.c.rows && k in s.c.rows && s.c.rows[j].id == cId && s.c.rows[k].id == cId ==> j == k
  {
    assert (cId as int, key) in BIds(setup.fold, s.issued);
    var a :| a in s.issued && a.0 == cId && Folded(setup.fold, a.1) == key;
    forall k | k in s.c.rows && s.c.rows[k].id == cId ensures k == a.1 {
      assert (s.c.rows[k].id as int, k) in s.issued;
    }
  }

  lemma ReceiverKeeps(setup: Setup, s: State, step: ReceiverStep)
    requires Inv(setup, s) && EnabledC(setup, s, step)
    ensures Inv(setup, NextC(setup, s, step))
  {
    match step
    case CIngest(payload, stamp, clock) => IngestKeeps(setup, s, payload, clock, s.used + {stamp.nonce});
    case CAbort(payload, stamp, burned) =>
    case CDelete(cId, key, stamp, cutoff) =>
      StaleDeleteHarmless(setup, s, cId, key, stamp, cutoff);
      RemovalKeeps(setup, s, DeleteById(s.c, cId, cutoff).rows);
      ReplyToDeleteKeeps(setup, s.(c := DeleteById(s.c, cId, cutoff)), cId, true, s.used + {stamp.nonce});
    case CRefuse(cId, key, stamp) => ReplyToDeleteKeeps(setup, s, cId, false, s.used + {stamp.nonce});
  }

  /** B's tables may change in any sound way that keeps every replicated key. */
  lemma TablesKeep(setup: Setup, s: State, b: Tables)
    requires Inv(setup, s) && ReplicaSound(setup, b, s.issued, s.posted)
    requires JobIdsSound(b) && forall k :: k in s.b.queue ==> k in b.queue && b.queue[k].jobId == s.b.queue[k].jobId
    requires forall k :: k in s.b.replicated ==> k in b.replicated
    ensures Inv(setup, s.(b := b))
  {
    assert forall key :: Held(setup, s.c, s.b, key) ==> Held(setup, s.c, b, key);
  }

  /** B's workers may forget or take on any sound work. */
  lemma WorkKeeps(setup: Setup, s: State, fetched: seq<CRecord>, executed: nat, jobs: seq<LoadedJob>)
    requires Inv(setup, s) && FetchedSound(setup, fetched, s.issued, s.posted) && JobsSound(setup, jobs, s.b, s.issued)
    ensures Inv(setup, s.(fetched := fetched, executed := executed, jobs := jobs))
  {
  }

  lemma FewerJobs(setup: Setup, jobs: seq<LoadedJob>, b: Tables, issued: set<(int, string)>)
    requires JobsSound(setup, jobs, b, issued) && jobs != []
    ensures JobsSound(setup, jobs[1..], b, issued)
  {
  }

  lemma FewerFetched(setup: Setup, fetched: seq<CRecord>, issued: set<(int, string)>, posted: set<(string, Record)>)
    requires FetchedSound(setup, fetched, issued, posted) && fetched != []
    ensures FetchedSound(setup, fetched[1..], issued, posted)
  {
  }

  lemma StoreKeepsRows(setup: Setup, b: Tables, r: CRecord, now: nat, issued: set<(int, string)>, posted: set<(string, Record)>)
    requires RowsSound(setup, b, issued, posted) && (r.id, r.key) in BIds(setup.fold, issued)
    requires AnswerSound(setup, r.key, r.content, posted) && r.content.raw.Some?
    ensures RowsSound(setup, Store(setup.cleanup, b, r, now), issued, posted)
    ensures forall k :: k in b.replicated ==> k in Store(setup.cleanup, b, r, now).replicated
  {
    assert ReplicaOf(r) == ReplicaRow(r.id, r.content);
    StoreChangesOneKey(setup.cleanup, b, r, now);
  }

  lemma StoreKeepsReplica(setup: Setup, b: Tables, r: CRecord, now: nat, issued: set<(int, string)>, posted: set<(string, Record)>)
    requires ReplicaSound(setup, b, issued, posted) && (r.id, r.key) in BIds(setup.fold, issued)
    requires AnswerSound(setup, r.key, r.content, posted)
    ensures ReplicaSound(setup, Store(setup.cleanup, b, r, now), issued, posted)
    ensures forall k :: k in b.replicated ==> k in Store(setup.cleanup, b, r, now).replicated
  {
    if r.content.raw.Some? {
      StoreKeepsAgreement(setup.cleanup, b, r, now);
      StoreKeepsRows(setup, b, r, now, issued, posted);
    }
  }

  lemma CommitKeeps(setup: Setup, s: State)
    requires Inv(setup, s) && s.fetched != []
    ensures Inv(setup, s.(b := Store(setup.cleanup, s.b, s.fetched[0], s.now), fetched := s.fetched[1..], executed := 0))
  {
    var b := Store(setup.cleanup, s.b, s.fetched[0], s.now);
    StoreKeepsReplica(setup, s.b, s.fetched[0], s.now, s.issued, s.posted);
    StoreKeepsJobIds(setup.cleanup, s.b, s.fetched[0], s.now);
    TablesKeep(setup, s, b);
    FewerFetched(setup, s.fetched, s.issued, s.posted);
    WorkKeeps(setup, s.(b := b), s.fetched[1..], 0, s.jobs);
  }

  lemma LoadKeeps(setup: Setup, s: State, keys: seq<string>)
    requires Inv(setup, s) && forall k :: k in keys ==> k in s.b.queue
    ensures Inv(setup, s.(jobs := Loaded(s.b, keys)))
  {
    WorkKeeps(setup, s, s.fetched, s.executed, Loaded(s.b, keys));
  }

  lemma FetchKeeps(setup: Setup, s: State, keys: seq<string>)
    requires Inv(setup, s) && forall k :: k in keys ==> k in s.c.rows
    ensures Inv(setup, s.(fetched := Answered(setup.receiver, setup.fold, s.c, keys), executed := 0))
  {
    var records := Answered(setup.receiver, setup.fold, s.c, keys);
    forall i | 0 <= i < |records| ensures
        && (records[i].id, records[i].key) in BIds(setup.fold, s.issued)
        && AnswerSound(setup, records[i].key, records[i].content, s.posted)
    {
      AnswerIsSound(setup, s, keys[i]);
    }
    WorkKeeps(setup, s, records, 0, s.jobs);
  }

  lemma AnswerIsSound(setup: Setup, s: State, key: string)
    requires Inv(setup, s) && key in s.c.rows
    ensures var r := RowRecord(setup.receiver, setup.fold, s.c, key);
      (r.id, r.key) in BIds(setup.fold, s.issued) && AnswerSound(setup, r.key, r.content, s.posted)
  {
    var row := s.c.rows[key];
    assert RowSound(setup.receiver, key, row.content, s.posted) && (row.id as int, key) in s.issued;
    FoldedShape(setup.fold, key);
    if row.content.raw.Some? { assert (key, row.content.raw.value) in s.posted; }
  }

  lemma MarkKeepsReplica(setup: Setup, b: Tables, job: Job, ok: bool, now: nat, issued: set<(int, string)>, posted: set<(string, Record)>)
    requires ReplicaSound(setup, b, issued, posted)
    ensures ReplicaSound(setup, Mark(b, job, ok, now), issued, posted)
  {
    MarkKeepsAgreement(b, job, ok, now);
    MarkKeepsRows(setup, b, job, ok, now, issued, posted);
  }

  lemma MarkKeepsRows(setup: Setup, b: Tables, job: Job, ok: bool, now: nat, issued: set<(int, string)>, posted: set<(string, Record)>)
    requires RowsSound(setup, b, issued, posted)
    ensures RowsSound(setup, Mark(b, job, ok, now), issued, posted)
  {
    var c := Mark(b, job, ok, now);
    assert c.replicated == b.replicated;
    forall k | k in c.queue ensures (c.queue[k].cId, k) in BIds(setup.fold, issued) { assert k in b.queue && c.queue[k].cId == b.queue[k].cId; }
  }

  lemma MarkKeeps(setup: Setup, s: State, ok: bool)
    requires Inv(setup, s) && s.jobs != []
    ensures Inv(setup, s.(b := Mark(s.b, s.jobs[0].job, ok, s.now), jobs := s.jobs[1..]))
  {
    var b := Mark(s.b, s.jobs[0].job, ok, s.now);
    MarkKeepsReplica(setup, s.b, s.jobs[0].job, ok, s.now, s.issued, s.posted);
    MarkKeepsJobIds(s.b, s.jobs[0].job, ok, s.now);
    TablesKeep(setup, s, b);
    FewerJobs(setup, s.jobs, b, s.issued);
    WorkKeeps(setup, s.(b := b), s.fetched, s.executed, s.jobs[1..]);
  }

  /** A sound delete request may join the messages. */
  lemma NetKeeps(setup: Setup, net: set<Message>, m: Message, c: Table, b: Tables, issued: set<(int, string)>, posted: set<(string, Record)>)
    requires m.Delete? && (m.cId, m.key) in BIds(setup.fold, issued) && m.key in b.replicated
    requires DeletesSound(setup, net, b, issued) && PostsSound(net, posted) && RepliesHeld(setup, net, c, b)
    ensures DeletesSound(setup, net + {m}, b, issued) && PostsSound(net + {m}, posted) && RepliesHeld(setup, net + {m}, c, b)
  {
    forall x | x in net + {m} && !x.Delete? ensures x in net { }
  }

  lemma SendKeeps(setup: Setup, s: State, nonce: nat)
    requires Inv(setup, s) && s.jobs != []
    ensures Inv(setup, s.(net := s.net + {Delete(s.jobs[0].job.cId, s.jobs[0].key, Stamp(s.now, nonce))}))
  {
    NetKeeps(setup, s.net, Delete(s.jobs[0].job.cId, s.jobs[0].key, Stamp(s.now, nonce)), s.c, s.b, s.issued, s.posted);
  }

  lemma ReplicatorKeeps(setup: Setup, s: State, step: ReplicatorStep)
    requires Inv(setup, s) && EnabledB(setup, s, step)
    ensures Inv(setup, NextB(setup, s, step))
  {
    match step
    case BFetch(limit, keys) =>
      FetchKeeps(setup, s, keys);
    case BStatement => WorkKeeps(setup, s, s.fetched, s.executed + 1, s.jobs);
    case BCommit => CommitKeeps(setup, s);
    case BAbort => WorkKeeps(setup, s, [], 0, s.jobs);
    case BLoad(limit, keys) =>
      DueIsQueued(s.b, s.now, limit, keys);
      LoadKeeps(setup, s, keys);
    case BSend(nonce) => SendKeeps(setup, s, nonce);
    case BMark(ok) => MarkKeeps(setup, s, ok);
    case BCrash => WorkKeeps(setup, s, [], 0, []);
  }

  lemma StepKeeps(setup: Setup, s: State, step: Step)
    requires Inv(setup, s) && Enabled(setup, s, step) && Careful(setup, s, step)
    ensures Inv(setup, Next(setup, s, step))
  {
    match step
    case Tick(to) =>
    case Uploading(a) => UploaderKeeps(setup, s, a);
    case Receiving(c) => ReceiverKeeps(setup, s, c);
    case Replicating(b) => ReplicatorKeeps(setup, s, b);
    case ForeignPost(payload, stamp) => PostKeeps(setup, s, payload, stamp);
    case OperatorDelete(key, cutoff) => RemovalKeeps(setup, s, DeleteByKey(s.c, key, cutoff).rows);
  }

  lemma ReceiverKeepsHeld(setup: Setup, s: State, step: ReceiverStep, key: string)
    requires Inv(setup, s) && EnabledC(setup, s, step) && Held(setup, s.c, s.b, key)
    ensures var s' := NextC(setup, s, step); Held(setup, s'.c, s'.b, key)
  {
    match step
    case CIngest(payload, _, clock) => IngestKeepsHeld(setup, s.c, s.b, payload, clock, key);
    case CDelete(cId, k, stamp, cutoff) => StaleDeleteHarmless(setup, s, cId, k, stamp, cutoff);
    case CAbort(_, _, _) =>
    case CRefuse(_, _, _) =>
  }

  lemma ReplicatorKeepsHeld(setup: Setup, s: State, step: ReplicatorStep, key: string)
    requires Inv(setup, s) && EnabledB(setup, s, step) && Held(setup, s.c, s.b, key)
    ensures var s' := NextB(setup, s, step); Held(setup, s'.c, s'.b, key)
  {
    if step.BCommit? { StoreChangesOneKey(setup.cleanup, s.b, s.fetched[0], s.now); }
  }

  /** No step of anyone gives up a key that is held, whether logged yet or not. */
  lemma StepKeepsHeld(setup: Setup, s: State, step: Step, key: string)
    requires Inv(setup, s) && Enabled(setup, s, step) && Careful(setup, s, step) && Held(setup, s.c, s.b, key)
    ensures var s' := Next(setup, s, step); Held(setup, s'.c, s'.b, key)
  {
    match step
    case Receiving(c) => ReceiverKeepsHeld(setup, s, c, key);
    case Replicating(b) => ReplicatorKeepsHeld(setup, s, b, key);
    case Uploading(a) => assert NextA(setup, s, a).c == s.c && NextA(setup, s, a).b == s.b;
    case Tick(_) =>
    case ForeignPost(_, _) =>
    case OperatorDelete(k, cutoff) =>
  }

  // ------------------------------------------------------------- whole runs

  ghost predicate Moves(setup: Setup, s: State, step: Step, s': State) {
    Enabled(setup, s, step) && s' == Next(setup, s, step)
  }

  ghost predicate MovesAt(setup: Setup, trace: seq<State>, steps: seq<Step>, i: nat)
    requires |trace| == |steps| + 1 && i < |steps|
  {
    Moves(setup, trace[i], steps[i], trace[i + 1])
  }

  ghost predicate CarefulAt(setup: Setup, trace: seq<State>, steps: seq<Step>, i: nat)
    requires |trace| == |steps| + 1 && i < |steps|
  {
    Careful(setup, trace[i], steps[i])
  }

  /** The states a part of a run passes and the steps between them. */
  ghost predicate IsPath(setup: Setup, trace: seq<State>, steps: seq<Step>) {
    |trace| == |steps| + 1 && forall i :: 0 <= i < |steps| ==> MovesAt(setup, trace, steps, i)
  }

  ghost predicate IsRun(setup: Setup, start: Instant, trace: seq<State>, steps: seq<Step>) {
    IsPath(setup, trace, steps) && trace[0] == Initial(start)
  }

  ghost predicate AllCareful(setup: Setup, trace: seq<State>, steps: seq<Step>) {
    |trace| == |steps| + 1 && forall i :: 0 <= i < |steps| ==> CarefulAt(setup, trace, steps, i)
  }

  ghost predicate CarefulRun(setup: Setup, start: Instant, trace: seq<State>, steps: seq<Step>) {
    IsRun(setup, start, trace, steps) && AllCareful(setup, trace, steps)
  }

  lemma MoveKeepsInvariant(setup: Setup, trace: seq<State>, steps: seq<Step>, i: nat)
    requires |trace| == |steps| + 1 && i < |steps| && MovesAt(setup, trace, steps, i) && CarefulAt(setup, trace, steps, i)
    requires Inv(setup, trace[i])
    ensures Inv(setup, trace[i + 1])
  {
    StepKeeps(setup, trace[i], steps[i]);
  }

  lemma {:induction false} PathKeepsInvariant(setup: Setup, trace: seq<State>, steps: seq<Step>, n: nat)
    requires IsPath(setup, trace, steps) && AllCareful(setup, trace, steps) && Inv(setup, trace[0]) && n <= |steps|
    ensures Inv(setup, trace[n])
  {
    if n > 0 {
      PathKeepsInvariant(setup, trace, steps, n - 1);
      MoveKeepsInvariant(setup, trace, steps, n - 1);
    }
  }

  lemma InitialInvariant(setup: Setup, start: Instant)
    ensures Inv(setup, Initial(start))
  {
  }

  /** The invariant holds in every state of every run. */
  lemma RunKeepsInvariant(setup: Setup, start: Instant, trace: seq<State>, steps: seq<Step>, n: nat)
    requires CarefulRun(setup, start, trace, steps) && n <= |steps|
    ensures Inv(setup, trace[n])
  {
    InitialInvariant(setup, start);
    PathKeepsInvariant(setup, trace, steps, n);
  }

  /** No loss: in every state of every run, each key A has logged as delivered is live on C
      or stored on B. */
  lemma NoLoss(setup: Setup, start: Instant, trace: seq<State>, steps: seq<Step>, n: nat, e: Entry)
    requires CarefulRun(setup, start, trace, steps) && n <= |steps|
    requires e in trace[n].log
    ensures Held(setup, trace[n].c, trace[n].b, e.recordKey)
  {
    RunKeepsInvariant(setup, start, trace, steps, n);
  }

  /** A key that was ever held is held in every later state, even if A's log loses it. */
  lemma {:induction false} HeldForever(setup: Setup, start: Instant, trace: seq<State>, steps: seq<Step>, m: nat, n: nat, key: string)
    requires CarefulRun(setup, start, trace, steps) && m <= n <= |steps|
    requires Held(setup, trace[m].c, trace[m].b, key)
    ensures Held(setup, trace[n].c, trace[n].b, key)
    decreases n
  {
    if m < n {
      HeldForever(setup, start, trace, steps, m, n - 1, key);
      HeldOneStep(setup, start, trace, steps, n - 1, key);
    }
  }

  lemma HeldOneStep(setup: Setup, start: Instant, trace: seq<State>, steps: seq<Step>, n: nat, key: string)
    requires CarefulRun(setup, start, trace, steps) && n < |steps|
    requires Held(setup, trace[n].c, trace[n].b, key)
    ensures Held(setup, trace[n + 1].c, trace[n + 1].b, key)
  {
    RunKeepsInvariant(setup, start, trace, steps, n);
    assert MovesAt(setup, trace, steps, n) && CarefulAt(setup, trace, steps, n);
    StepKeepsHeld(setup, trace[n], steps[n], key);
  }

  /** C once gave this id to a row whose key B files here. */
  ghost predicate Issued(setup: Setup, s: State, id: int, bkey: string) {
    exists key :: (id, key) in s.issued && BKey(setup, key) == bkey
  }

  lemma IssuedIs(setup: Setup, s: State, id: int, bkey: string)
    ensures (id, bkey) in BIds(setup.fold, s.issued) <==> Issued(setup, s, id, bkey)
  {
    if (id, bkey) in BIds(setup.fold, s.issued) {
      var a :| a in s.issued && (a.0, Folded(setup.fold, a.1)) == (id, bkey);
      assert (id, a.1) in s.issued;
    }
    if Issued(setup, s, id, bkey) {
      var key :| (id, key) in s.issued && BKey(setup, key) == bkey;
      var a := (id, key);
      assert a in s.issued && (a.0, Folded(setup.fold, a.1)) == (id, bkey);
    }
  }

  /** In every reachable state each raw row of B is in the typed table its entity names and in no
      other, with the same C id and document; only such keys are queued, under job ids of their
      own; every id B has stored, queued, loaded or sent was issued by C to that very key; and C
      never gives an id to two keys. */
  lemma ReplicaSoundOverRuns(setup: Setup, start: Instant, trace: seq<State>, steps: seq<Step>, n: nat)
    requires CarefulRun(setup, start, trace, steps) && n <= |steps|
    ensures var b := trace[n].b;
      && (forall k :: k in b.replicated <==> k in b.info || k in b.photo)
      && (forall k :: k in b.info ==>
            && k in b.replicated && k !in b.photo && b.replicated[k].content.entityType == "weight_info"
            && b.replicated[k].cId == b.info[k].cId && b.replicated[k].content.raw == Some(b.info[k].raw))
      && (forall k :: k in b.photo ==>
            && k in b.replicated && k !in b.info && b.replicated[k].content.entityType == "weight_photo"
            && b.replicated[k].cId == b.photo[k].cId && b.replicated[k].content.raw == Some(b.photo[k].raw))
    ensures var s := trace[n];
      && (forall k :: k in s.b.replicated ==> Issued(setup, s, s.b.replicated[k].cId, k))
      && (forall k :: k in s.b.queue ==> k in s.b.replicated && Issued(setup, s, s.b.queue[k].cId, k))
      && (forall j, k :: j in s.b.queue && k in s.b.queue && s.b.queue[j].jobId == s.b.queue[k].jobId ==> j == k)
      && (forall i :: 0 <= i < |s.jobs| ==> s.jobs[i].key in s.b.replicated && Issued(setup, s, s.jobs[i].job.cId, s.jobs[i].key))
      && (forall m :: m in s.net && m.Delete? ==> m.key in s.b.replicated && Issued(setup, s, m.cId, m.key))
      && (forall x, y :: x in s.issued && y in s.issued && x.0 == y.0 ==> x.1 == y.1)
  {
    RunKeepsInvariant(setup, start, trace, steps, n);
    TablesAgree(setup, trace[n]);
    IdsIssued(setup, trace[n]);
  }

  lemma TablesAgree(setup: Setup, s: State)
    requires Inv(setup, s)
    ensures var b := s.b;
      && (forall k :: k in b.replicated <==> k in b.info || k in b.photo)
      && (forall k :: k in b.info ==>
            && k in b.replicated && k !in b.photo && b.replicated[k].content.entityType == "weight_info"
            && b.replicated[k].cId == b.info[k].cId && b.replicated[k].content.raw == Some(b.info[k].raw))
      && (forall k :: k in b.photo ==>
            && k in b.replicated && k !in b.info && b.replicated[k].content.entityType == "weight_photo"
            && b.replicated[k].cId == b.photo[k].cId && b.replicated[k].content.raw == Some(b.photo[k].raw))
  {
    forall k | k in s.b.replicated ensures KeySound(k, s.b.replicated[k].content) {
      assert AnswerSound(setup, k, s.b.replicated[k].content, s.posted);
    }
  }

  lemma IdsIssued(setup: Setup, s: State)
    requires Inv(setup, s)
    ensures forall k :: k in s.b.replicated ==> Issued(setup, s, s.b.replicated[k].cId, k)
    ensures forall k :: k in s.b.queue ==> k in s.b.replicated && Issued(setup, s, s.b.queue[k].cId, k)
    ensures forall i :: 0 <= i < |s.jobs| ==> s.jobs[i].key in s.b.replicated && Issued(setup, s, s.jobs[i].job.cId, s.jobs[i].key)
    ensures forall m :: m in s.net && m.Delete? ==> m.key in s.b.replicated && Issued(setup, s, m.cId, m.key)
  {
    forall id, k | (id, k) in BIds(setup.fold, s.issued) ensures Issued(setup, s, id, k) { IssuedIs(setup, s, id, k); }
  }

  /** A's log never names a row twice. */
  lemma LoggedOnce(setup: Setup, start: Instant, trace: seq<State>, steps: seq<Step>, n: nat, i: nat, j: nat)
    requires CarefulRun(setup, start, trace, steps) && n <= |steps| && i < j < |trace[n].log|
    requires trace[n].log[i].entityType in {INFO, PHOTO} && trace[n].log[j].entityType in {INFO, PHOTO}
    ensures trace[n].log[i].entityType != trace[n].log[j].entityType || trace[n].log[i].primaryKey != trace[n].log[j].primaryKey
  {
    RunKeepsInvariant(setup, start, trace, steps, n);
    assert EntryKey(trace[n].log[i]) != EntryKey(trace[n].log[j]);
  }

  /** The request a step of C takes. */
  function Taken(step: Step): Option<Stamp> {
    match step
    case Receiving(CIngest(_, stamp, _)) => Some(stamp)
    case Receiving(CAbort(_, stamp, _)) => Some(stamp)
    case Receiving(CDelete(_, _, stamp, _)) => Some(stamp)
    case _ => None
  }

  lemma UsedGrows(setup: Setup, s: State, step: Step)
    requires Enabled(setup, s, step)
    ensures s.used <= Next(setup, s, step).used
    ensures Taken(step).Some? ==> Taken(step).value.nonce in Next(setup, s, step).used
    ensures Taken(step).Some? && setup.skew.Some? ==>
              && Taken(step).value.nonce !in s.used && Taken(step).value.sent <= s.now
              && s.now - Taken(step).value.sent / 1_000_000_000 * 1_000_000_000 <= setup.skew.value
  {
  }

  lemma {:induction false} UsedStays(setup: Setup, trace: seq<State>, steps: seq<Step>, i: nat, j: nat)
    requires IsPath(setup, trace, steps) && i <= j <= |steps|
    ensures trace[i].used <= trace[j].used
    decreases j
  {
    if i < j {
      UsedStays(setup, trace, steps, i, j - 1);
      assert MovesAt(setup, trace, steps, j - 1);
      UsedGrows(setup, trace[j - 1], steps[j - 1]);
    }
  }

  /** With the check on, C takes no nonce twice and no request whose signed second is further back
      than the skew, in any run. */
  lemma TakenOnce(setup: Setup, trace: seq<State>, steps: seq<Step>, i: nat, j: nat)
    requires IsPath(setup, trace, steps) && i < j < |steps| && setup.skew.Some?
    requires Taken(steps[i]).Some? && Taken(steps[j]).Some?
    ensures Taken(steps[i]).value.nonce != Taken(steps[j]).value.nonce
    ensures trace[j].now - Taken(steps[j]).value.sent / 1_000_000_000 * 1_000_000_000 <= setup.skew.value
  {
    assert MovesAt(setup, trace, steps, i) && MovesAt(setup, trace, steps, j);
    UsedGrows(setup, trace[i], steps[i]);
    UsedGrows(setup, trace[j], steps[j]);
    UsedStays(setup, trace, steps, i + 1, j);
  }

  /** Whenever a row leaves C, in any run, B holds its key and the row is older than the
      minimum age less one second. */
  lemma RetentionOverRuns(setup: Setup, start: Instant, trace: seq<State>, steps: seq<Step>, n: nat, key: string)
    requires CarefulRun(setup, start, trace, steps) && n < |steps|
    requires key in trace[n].c.rows && key !in trace[n + 1].c.rows
    ensures BKey(setup, key) in trace[n].b.replicated
    ensures trace[n].now - Effective(trace[n].c.rows[key]) > setup.receiver.minDeleteAge - SECOND
  {
    RunKeepsInvariant(setup, start, trace, steps, n);
    assert MovesAt(setup, trace, steps, n) && CarefulAt(setup, trace, steps, n);
    RemovedIsOld(setup, trace[n], steps[n], key);
  }

  /** The row may leave C now. */
  ghost predicate MayLeave(setup: Setup, s: State, key: string)
    requires key in s.c.rows
  {
    BKey(setup, key) in s.b.replicated && s.now - Effective(s.c.rows[key]) > setup.receiver.minDeleteAge - SECOND
  }

  lemma ReceiverRemovesOld(setup: Setup, s: State, step: ReceiverStep, key: string)
    requires Inv(setup, s) && EnabledC(setup, s, step) && key in s.c.rows
    ensures key in NextC(setup, s, step).c.rows || MayLeave(setup, s, key)
  {
    match step
    case CIngest(payload, _, clock) => ApplyAllRow(setup.receiver, s.c, Items(payload, clock), key);
    case CDelete(cId, k, stamp, cutoff) =>
      StaleDeleteHarmless(setup, s, cId, k, stamp, cutoff);
      RetentionBound(s.c.rows[key], cutoff, setup.receiver.minDeleteAge);
    case CAbort(_, _, _) =>
    case CRefuse(_, _, _) =>
  }

  lemma RemovedIsOld(setup: Setup, s: State, step: Step, key: string)
    requires Inv(setup, s) && Enabled(setup, s, step) && Careful(setup, s, step) && key in s.c.rows
    ensures key in Next(setup, s, step).c.rows || MayLeave(setup, s, key)
  {
    match step
    case Receiving(c) => ReceiverRemovesOld(setup, s, c, key);
    case OperatorDelete(k, cutoff) => RetentionBound(s.c.rows[key], cutoff, setup.receiver.minDeleteAge);
    case Uploading(a) => assert NextA(setup, s, a).c == s.c;
    case Replicating(b) => assert NextB(setup, s, b).c == s.c;
    case Tick(_) =>
    case ForeignPost(_, _) =>
  }

  /** Whether an operator's delete by key loses anything, exactly: it does if and only if the
      row is old enough to go, B does not have it and A has logged it as delivered. */
  lemma OperatorDeleteLoses(setup: Setup, s: State, key: string, cutoff: Instant)
    requires Inv(setup, s) && Enabled(setup, s, OperatorDelete(key, cutoff))
    ensures var s' := Next(setup, s, OperatorDelete(key, cutoff));
      LogHeld(setup, s'.log, s'.c, s'.b) <==>
      !(key in s.c.rows && Expired(s.c.rows[key], cutoff) && BKey(setup, key) !in s.b.replicated &&
        exists e :: e in s.log && e.recordKey == key)
  {
    OperatorDeleteLosesRow(setup, s, key, cutoff);
  }

  lemma OperatorDeleteLosesRow(setup: Setup, s: State, key: string, cutoff: Instant)
    requires Inv(setup, s)
    ensures LogHeld(setup, s.log, DeleteByKey(s.c, key, cutoff), s.b) <==>
            !(key in s.c.rows && Expired(s.c.rows[key], cutoff) && BKey(setup, key) !in s.b.replicated &&
              exists e :: e in s.log && e.recordKey == key)
  {
    var c := DeleteByKey(s.c, key, cutoff);
    assert forall k :: k != key ==> (k in s.c.rows <==> k in c.rows);
    if exists e :: e in s.log && e.recordKey == key {
      var e :| e in s.log && e.recordKey == key;
      assert Held(setup, s.c, s.b, key);
    }
  }
}
