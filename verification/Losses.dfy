/** Runs that lose something: each kind of losing step is reached, for every setup that stores
    documents and every genuine record. They show that `Pipeline.NoLoss` cannot be strengthened
    from keys to documents, nor to operators who delete what B does not hold. Every request in
    them arrives once, with a new nonce, in the instant it was sent or at least in time, so the
    runs stand whatever skew C allows. */
module Losses {
  import opened Text
  import opened Timestamps
  import opened Ordering
  import opened Records
  import opened Receiver
  import opened Uploader
  import opened Replicator
  import opened Pipeline
  import opened Reach
  import opened Documents

  ghost predicate Reached(setup: Setup, start: Instant, s: State) { Leads(setup, true, Initial(start), s) }

  function Document(r: SourceRecord): Record { WireRecord(r.data) }

  // ----------------------------------------------------- uploading one record

  function PayloadFor(r: SourceRecord, sent: Instant): Payload { PayloadOf("", "", sent, [r]) }

  function ItemFor(r: SourceRecord, sent: Instant, at: Instant): Item {
    Item("unknown", "unknown", r.entityType, if r.entityType == PHOTO then "tbl_weightPhoto" else "tbl_weightInfo",
         Document(r), Some(sent), at)
  }

  function ContentFor(cfg: Config, r: SourceRecord): Content
    requires Genuine(r)
  {
    KeysAgree(cfg, r, ItemFor(r, 0, 0));
    Classify(cfg, ItemFor(r, 0, 0)).content
  }

  function ValuesFor(cfg: Config, r: SourceRecord, sent: Instant, at: Instant): Values
    requires Genuine(r)
  {
    Values(r.recordKey, ContentFor(cfg, r), Some(sent), at)
  }

  lemma OneItem(r: SourceRecord, sent: Instant, at: Instant)
    requires Genuine(r)
    ensures RecordCount(PayloadFor(r, sent)) == 1
    ensures Items(PayloadFor(r, sent), [at]) == [ItemFor(r, sent, at)]
  {
    var p := PayloadFor(r, sent);
    assert [r][..0] == [] && DataOf([], INFO) == [] && DataOf([], PHOTO) == [];
    assert DataOf([r], r.entityType) == [Document(r)];
    assert forall entity :: entity != r.entityType ==> DataOf([r], entity) == [];
    assert Fallback("", "unknown") == "unknown";
    var items := Items(p, [at]);
    assert EntityRecords(p)[0].records == DataOf([r], INFO) && EntityRecords(p)[1].records == DataOf([r], PHOTO);
    assert items[0] == ItemFor(r, sent, at);
  }

  /** Uploading one record is one upsert. */
  lemma OneUpsert(cfg: Config, t: Table, r: SourceRecord, sent: Instant, at: Instant)
    requires Genuine(r)
    ensures RecordCount(PayloadFor(r, sent)) == 1
    ensures ApplyAll(cfg, t, Items(PayloadFor(r, sent), [at])) == UpsertOne(cfg, t, ValuesFor(cfg, r, sent, at))
  {
    OneItem(r, sent, at);
    KeysAgree(cfg, r, ItemFor(r, 0, 0));
    KeysAgree(cfg, r, ItemFor(r, sent, at));
    var items := [ItemFor(r, sent, at)];
    assert items[..0] == [] && ApplyAll(cfg, t, []) == t;
  }

  /** The first row of an empty table, and a row put over another. */
  lemma UpsertCases(cfg: Config, n: nat, row: Row, v: Values)
    ensures UpsertOne(cfg, Table(map[], n), v) == Table(map[v.key := Row(n, v.content, v.uploadedAt, v.now, v.now)], n + 1)
    ensures UpsertOne(cfg, Table(map[v.key := row], n), v).rows ==
            map[v.key := row.(content := v.content, uploadedAt := v.uploadedAt, cloudUpdatedAt := v.now)]
  {
  }

  lemma SameEffective(row: Row, other: Row)
    requires row.content == other.content && row.ingestedAt == other.ingestedAt
    ensures Effective(row) == Effective(other)
  {
  }

  /** The same answers to deletes are under way. */
  ghost predicate SameReplies(a: set<Message>, b: set<Message>) {
    a <= b && forall m: Message :: m.DeleteReply? && m in b ==> m in a
  }

  lemma NoReplyAdded(net: set<Message>, a: Message, b: Message)
    requires !a.DeleteReply? && !b.DeleteReply?
    ensures SameReplies(net, net + {a}) && SameReplies(net, net + {a} + {b})
  {
  }

  lemma StoredDocument(cfg: Config, r: SourceRecord)
    requires Genuine(r) && cfg.storeRaw
    ensures ContentFor(cfg, r).raw == Some(Document(r))
  {
    KeysAgree(cfg, r, ItemFor(r, 0, 0));
  }

  lemma OnePair(r: SourceRecord, sent: Instant)
    requires Genuine(r)
    ensures Pairs(PayloadFor(r, sent)) == {(r.recordKey, Document(r))}
  {
    assert [r][..0] == [] && DataOf([], INFO) == [] && DataOf([], PHOTO) == [];
    assert DataOf([r], r.entityType) == [Document(r)];
    assert forall entity :: entity != r.entityType ==> DataOf([r], entity) == [];
    KeyOf(r);
    assert KeyedRecords(r.entityType, [Document(r)]) == {(r.recordKey, Document(r))};
  }

  lemma KeyOf(r: SourceRecord)
    requires Genuine(r)
    ensures RecordKey(r.entityType, ExtractRecordKey(r.entityType, Document(r)).1) == r.recordKey
  {
    KeysAgree(Config(true, 0, false, false, _ => None, _ => None), r, ItemFor(r, 0, 0));
  }

  /** What C replies to an upload of one record, whenever it is. */
  function ReplyFor(cfg: Config, r: SourceRecord): UploadResponse
    requires Genuine(r)
  {
    OneItem(r, 0, 0);
    Reply(cfg, PayloadFor(r, 0), [0])
  }

  lemma OneReply(cfg: Config, r: SourceRecord, sent: Instant, at: Instant)
    requires Genuine(r)
    ensures RecordCount(PayloadFor(r, sent)) == 1 && Reply(cfg, PayloadFor(r, sent), [at]) == ReplyFor(cfg, r)
  {
    OneItem(r, sent, at);
    OneItem(r, 0, 0);
    OneVerdict(cfg, r, sent, at);
    OneVerdict(cfg, r, 0, 0);
  }

  lemma OneVerdict(cfg: Config, r: SourceRecord, sent: Instant, at: Instant)
    requires Genuine(r)
    ensures AcceptedKeys(cfg, [ItemFor(r, sent, at)]) == [r.recordKey] && FailedKeys(cfg, [ItemFor(r, sent, at)]) == []
  {
    KeysAgree(cfg, r, ItemFor(r, sent, at));
    assert [ItemFor(r, sent, at)][..0] == [];
    assert AcceptedKeys(cfg, []) == [] && FailedKeys(cfg, []) == [];
  }

  /** The record as a query answers it. */
  function AnswerFor(setup: Setup, r: SourceRecord, id: int): CRecord
    requires Genuine(r)
  {
    var content := ContentFor(setup.receiver, r);
    CRecord(id, BKey(setup, r.recordKey), content.(raw := Redecoded(setup.receiver, content.raw)))
  }

  /** Answers about this record alone fit a body. */
  ghost predicate Small(setup: Setup, r: SourceRecord) {
    && Genuine(r) && setup.replySize(ReplyFor(setup.receiver, r)) <= BODY_LIMIT
    && forall id: int :: setup.querySize([AnswerFor(setup, r, id)]) <= BODY_LIMIT
  }

  // ------------------------------------------------------- stretches of runs

  /** A posts a record and gives up waiting; the request is under way. */
  lemma PostOnly(setup: Setup, start: Instant, s: State, r: SourceRecord, nonce: nat) returns (s': State)
    requires Reached(setup, start, s) && Postable(s, [r])
    ensures Reached(setup, start, s')
    ensures s' == s.(posted := s'.posted, net := s'.net) && SameReplies(s.net, s'.net)
    ensures Post(PayloadFor(r, s.now), Stamp(s.now, nonce)) in s'.net
  {
    var request := Post(PayloadFor(r, s.now), Stamp(s.now, nonce));
    NoReplyAdded(s.net, request, request);
    var t := Extend(setup, true, Initial(start), s, Uploading(APost([r], "", "", nonce)));
    s' := Extend(setup, true, Initial(start), t, Uploading(AGiveUp));
  }

  /** A request under way arrives, in the instant it was sent. */
  lemma Arrives(setup: Setup, start: Instant, s: State, r: SourceRecord, nonce: nat) returns (s': State)
    requires Reached(setup, start, s) && Genuine(r) && Post(PayloadFor(r, s.now), Stamp(s.now, nonce)) in s.net && nonce !in s.used
    ensures Reached(setup, start, s') && SameReplies(s.net, s'.net)
    ensures s' == s.(issued := s'.issued, c := UpsertOne(setup.receiver, s.c, ValuesFor(setup.receiver, r, s.now, s.now)),
                     used := s.used + {nonce}, net := s'.net)
  {
    OneUpsert(setup.receiver, s.c, r, s.now, s.now);
    PassesAtOnce(setup, s, nonce);
    var reply := PostReply(PayloadFor(r, s.now), Reply(setup.receiver, PayloadFor(r, s.now), [s.now]));
    NoReplyAdded(s.net, reply, reply);
    s' := Extend(setup, true, Initial(start), s, Receiving(CIngest(PayloadFor(r, s.now), Stamp(s.now, nonce), [s.now])));
  }

  ghost predicate Logged(s: State, key: string) { exists e :: e in s.log && e.recordKey == key }

  /** A posts a record, C commits it, and A logs it as delivered. */
  lemma Delivered(setup: Setup, start: Instant, s: State, q: SourceRecord, nonce: nat) returns (s': State)
    requires Reached(setup, start, s) && Postable(s, [q]) && Small(setup, q) && nonce !in s.used
    ensures Reached(setup, start, s') && SameReplies(s.net, s'.net)
    ensures s' == s.(posted := s.posted + {(q.recordKey, Document(q))}, issued := s'.issued, used := s.used + {nonce},
                     c := UpsertOne(setup.receiver, s.c, ValuesFor(setup.receiver, q, s.now, s.now)),
                     net := s'.net, log := s'.log)
    ensures Logged(s', q.recordKey) && s.log <= s'.log && Replay(s'.log) == Replay(s.log) + {StateKey(q.entityType, q.pk)}
  {
    OnePair(q, s.now);
    OneUpsert(setup.receiver, s.c, q, s.now, s.now);
    OneReply(setup.receiver, q, s.now, s.now);
    NoReplyAdded(s.net, Post(PayloadFor(q, s.now), Stamp(s.now, nonce)), PostReply(PayloadFor(q, s.now), ReplyFor(setup.receiver, q)));
    LogsOne(s.log, q, s.now);
    s' := Deliver(setup, true, Initial(start), s, [q], "", "", [s.now], nonce);
  }

  lemma LogsOne(log: seq<Entry>, q: SourceRecord, now: Instant)
    requires StateKey(q.entityType, q.pk) !in Replay(log)
    ensures var after := AppendEntries(log, EntriesOf([q], now));
      && log <= after && (exists e :: e in after && e.recordKey == q.recordKey)
      && Replay(after) == Replay(log) + {StateKey(q.entityType, q.pk)}
  {
    var entries := EntriesOf([q], now);
    var after := AppendEntries(log, entries);
    AppendReplay(log, entries);
    assert entries == [entries[0]] && entries[..0] == [] && AppendEntries(log, []) == log;
    assert after == log + [entries[0]];
    assert entries[0] in after;
  }

  lemma OnlyAnswer<T(!new)>(pool: set<T>, before: (T, T) -> bool, x: T)
    requires pool == {x}
    ensures IsFirst(pool, before, 1, [x])
  {
    assert Elements([x]) == {x} && |pool| == 1;
  }

  /** B fetches C's only row, of a given record, and stores it. */
  lemma Replicate(setup: Setup, start: Instant, s: State, r: SourceRecord) returns (s': State)
    requires Reached(setup, start, s) && s.fetched == [] && s.executed == 0 && Small(setup, r)
    requires s.c.rows.Keys == {r.recordKey} && s.c.rows[r.recordKey].content == ContentFor(setup.receiver, r)
    requires Redecoded(setup.receiver, ContentFor(setup.receiver, r).raw).Some?
    ensures Reached(setup, start, s')
    ensures s' == s.(b := Store(setup.cleanup, s.b, AnswerFor(setup, r, s.c.rows[r.recordKey].id), s.now))
  {
    var key := r.recordKey;
    var record := AnswerFor(setup, r, s.c.rows[key].id);
    OnlyAnswer(s.c.rows.Keys, Newer(s.c), key);
    assert Answered(setup.receiver, setup.fold, s.c, [key]) == [record];
    ReachableInv(setup, start, s);
    var n;
    s', n := FetchRound(setup, true, Initial(start), s, 1, [key]);
    assert n == 1;
    StoreOne(setup.cleanup, s.b, record, s.now);
  }

  lemma StoreOne(cleanup: bool, b: Tables, r: CRecord, now: nat)
    ensures StoreAll(cleanup, b, [r][..1], Always(now)) == Store(cleanup, b, r, now)
  {
    assert [r][..1] == [r] && [r][..0] == [] && StoreAll(cleanup, b, [], Always(now)) == b;
  }

  // -------------------------------------------------------------- ageing

  /** A row of this age can still outlive the minimum age before the year 10000. */
  predicate CanExpire(cfg: Config, row: Row) { Effective(row) + SECOND + cfg.minDeleteAge < LIMIT }

  /** From `now` on, the earliest time at which the row may be deleted. */
  function DueAt(cfg: Config, row: Row, now: Instant): (t: Instant)
    requires CanExpire(cfg, row)
    ensures now <= t && Due(cfg, row, t)
  {
    Max(now, Effective(row) + SECOND + cfg.minDeleteAge)
  }

  predicate Due(cfg: Config, row: Row, now: Instant) { Effective(row) + SECOND + cfg.minDeleteAge <= now }

  lemma Overdue(row: Row, cutoff: Instant)
    requires Effective(row) + SECOND <= cutoff
    ensures Expired(row, cutoff)
  {
    RetentionBound(row, cutoff, 0);
  }

  lemma OneRowGone(c: Table, key: string, cutoff: Instant)
    requires c.rows.Keys == {key} && Expired(c.rows[key], cutoff)
    ensures DeleteById(c, c.rows[key].id, cutoff).rows == map[]
    ensures DeleteByKey(c, key, cutoff).rows == map[]
  {
  }

  lemma Wait(setup: Setup, start: Instant, s: State, row: Row) returns (s': State)
    requires Reached(setup, start, s) && CanExpire(setup.receiver, row)
    ensures Reached(setup, start, s') && s' == s.(now := s'.now) && s.now <= s'.now && Due(setup.receiver, row, s'.now)
  {
    s' := Extend(setup, true, Initial(start), s, Tick(DueAt(setup.receiver, row, s.now)));
  }

  /** B loads its one due job and sends the delete. */
  lemma SendDelete(setup: Setup, start: Instant, s: State, key: string, nonce: nat) returns (s': State)
    requires Reached(setup, start, s) && setup.cleanup && s.jobs == [] && DueKeys(s.b, s.now) == {key}
    ensures Reached(setup, start, s') && key in s.b.queue
    ensures s' == s.(jobs := [LoadedJob(key, s.b.queue[key])],
                     net := s.net + {Delete(s.b.queue[key].cId, key, Stamp(s.now, nonce))})
  {
    OnlyAnswer(DueKeys(s.b, s.now), Earlier(s.b), key);
    assert key in DueKeys(s.b, s.now);
    var t := Extend(setup, true, Initial(start), s, Replicating(BLoad(1, [key])));
    assert t.jobs == [LoadedJob(key, s.b.queue[key])];
    s' := Extend(setup, true, Initial(start), t, Replicating(BSend(nonce)));
  }

  /** The delete arrives at once and takes C's only row, which is due. */
  lemma DeleteArrives(setup: Setup, start: Instant, s: State, key: string, nonce: nat) returns (s': State)
    requires Reached(setup, start, s) && s.c.rows.Keys == {key} && Due(setup.receiver, s.c.rows[key], s.now)
    requires Delete(s.c.rows[key].id as int, BKey(setup, key), Stamp(s.now, nonce)) in s.net && nonce !in s.used
    ensures Reached(setup, start, s')
    ensures s' == s.(c := Table(map[], s.c.nextId), used := s.used + {nonce},
                     net := s.net + {DeleteReply(s.c.rows[key].id as int, true)})
  {
    var cutoff: Instant := s.now - setup.receiver.minDeleteAge;
    Overdue(s.c.rows[key], cutoff);
    OneRowGone(s.c, key, cutoff);
    PassesAtOnce(setup, s, nonce);
    s' := Extend(setup, true, Initial(start), s,
                 Receiving(CDelete(s.c.rows[key].id, BKey(setup, key), Stamp(s.now, nonce), cutoff)));
  }

  // ---------------------------------------------------------------- losses

  function RowFor(cfg: Config, r: SourceRecord, at: Instant): Row
    requires Genuine(r)
  {
    Row(1, ContentFor(cfg, r), Some(at), at, at)
  }

  /** The record can be stored on B. */
  predicate Readable(cfg: Config, r: SourceRecord) { cfg.redecode(Document(r)).Some? }

  /** Other documents in its place on C and on B mean that a version is not held. */
  lemma NotHeld(setup: Setup, c: Table, b: Tables, key: string, d: Record, d': Record, e: Option<Record>, e': Option<Record>)
    requires key !in c.rows || (OnC(c, key, d') && d != d')
    requires BKey(setup, key) !in b.replicated || (OnB(setup, b, key, e') && e != e')
    ensures !VersionHeld(setup, c, b, key, d, e)
  {
  }

  /** Two versions of one record, which queries tell apart. */
  predicate Versions(cfg: Config, r: SourceRecord, q: SourceRecord) {
    Genuine(r) && Genuine(q) && r.recordKey == q.recordKey && cfg.redecode(Document(r)) != cfg.redecode(Document(q))
  }

  /** A posts the older version without an answer, and the newer one is delivered and logged. */
  lemma TwoUploads(setup: Setup, start: Instant, r: SourceRecord, q: SourceRecord) returns (s: State)
    requires Genuine(r) && Small(setup, q) && r.recordKey == q.recordKey
    ensures Reached(setup, start, s) && Logged(s, q.recordKey) && 0 !in s.used
    ensures Post(PayloadFor(r, start), Stamp(start, 0)) in s.net
    ensures s.now == start && s.fetched == [] && s.executed == 0 && s.b == Initial(start).b
    ensures s.c == Table(map[q.recordKey := RowFor(setup.receiver, q, start)], 2)
  {
    Stay(setup, true, Initial(start));
    UpsertCases(setup.receiver, 1, RowFor(setup.receiver, q, start), ValuesFor(setup.receiver, q, start, start));
    var t := PostOnly(setup, start, Initial(start), r, 0);
    s := Delivered(setup, start, t, q, 1);
  }

  /** An upload loses a version: the older request, delayed, arrives after the newer one and
      overwrites it before B has it. */
  lemma UploadLoses(setup: Setup, start: Instant, r: SourceRecord, q: SourceRecord) returns (s: State)
    requires setup.receiver.storeRaw && Genuine(r) && Small(setup, q) && r.recordKey == q.recordKey && Document(r) != Document(q)
    ensures Reached(setup, start, s) && Logged(s, q.recordKey)
    ensures OnC(s.c, q.recordKey, Document(r)) && BKey(setup, q.recordKey) !in s.b.replicated
    ensures !VersionHeld(setup, s.c, s.b, q.recordKey, Document(q), setup.receiver.redecode(Document(q)))
  {
    StoredDocument(setup.receiver, r);
    UpsertCases(setup.receiver, 2, RowFor(setup.receiver, q, start), ValuesFor(setup.receiver, r, start, start));
    var t := TwoUploads(setup, start, r, q);
    s := Arrives(setup, start, t, r, 0);
    assert OnC(s.c, q.recordKey, Document(r)) && BKey(setup, q.recordKey) !in s.b.replicated;
    NotHeld(setup, s.c, s.b, q.recordKey, Document(q), Document(r), setup.receiver.redecode(Document(q)), None);
  }

  /** The newer version is on B, and the delayed older request has overwritten it on C. */
  lemma OlderAgainOnC(setup: Setup, start: Instant, r: SourceRecord, q: SourceRecord) returns (s: State)
    requires setup.receiver.storeRaw && Genuine(r) && Small(setup, q) && r.recordKey == q.recordKey && Readable(setup.receiver, q)
    ensures Reached(setup, start, s) && Logged(s, q.recordKey) && s.fetched == [] && s.executed == 0
    ensures s.c.rows.Keys == {q.recordKey} && s.c.rows[q.recordKey].content == ContentFor(setup.receiver, r)
  {
    StoredDocument(setup.receiver, q);
    var t := TwoUploads(setup, start, r, q);
    var u := Replicate(setup, start, t, q);
    UpsertCases(setup.receiver, 2, RowFor(setup.receiver, q, start), ValuesFor(setup.receiver, r, start, start));
    s := Arrives(setup, start, u, r, 0);
  }

  /** B's commit loses a version: the delayed request comes when B has the newer version, and B
      then fetches and stores the older one over it. */
  lemma CommitLoses(setup: Setup, start: Instant, r: SourceRecord, q: SourceRecord) returns (s: State)
    requires setup.receiver.storeRaw && Versions(setup.receiver, r, q) && Small(setup, r) && Small(setup, q)
    requires Readable(setup.receiver, r) && Readable(setup.receiver, q)
    ensures Reached(setup, start, s) && Logged(s, q.recordKey)
    ensures OnC(s.c, q.recordKey, Document(r)) && OnB(setup, s.b, q.recordKey, setup.receiver.redecode(Document(r)))
    ensures !VersionHeld(setup, s.c, s.b, q.recordKey, Document(q), setup.receiver.redecode(Document(q)))
  {
    StoredDocument(setup.receiver, r);
    var t := OlderAgainOnC(setup, start, r, q);
    s := ReplicatedNow(setup, start, t, r);
    NotHeld(setup, s.c, s.b, q.recordKey, Document(q), Document(r),
            setup.receiver.redecode(Document(q)), setup.receiver.redecode(Document(r)));
  }

  lemma FirstStore(r: CRecord, now: nat)
    requires r.content.raw.Some?
    ensures var b := Store(true, Initial(0).b, r, now);
      && b.replicated == map[r.key := ReplicaOf(r)] && b.queue == map[r.key := Job(1, r.id, Pending, 0, now)]
      && DueKeys(b, now) == {r.key}
  {
  }

  /** The older version is on C unanswered, time passes until `row` is due, and B stores it. */
  lemma OldOnB(setup: Setup, start: Instant, r: SourceRecord, row: Row) returns (s: State)
    requires setup.receiver.storeRaw && setup.cleanup && Small(setup, r) && Readable(setup.receiver, r)
    requires CanExpire(setup.receiver, row)
    ensures Reached(setup, start, s) && s.log == [] && s.outstanding.Idle? && Due(setup.receiver, row, s.now)
    ensures s.fetched == [] && s.executed == 0 && s.jobs == [] && 1 !in s.used && 2 !in s.used
    ensures s.c == Table(map[r.recordKey := RowFor(setup.receiver, r, start)], 2)
    ensures s.b.queue == map[BKey(setup, r.recordKey) := Job(1, 1, Pending, 0, s.now)]
    ensures DueKeys(s.b, s.now) == {BKey(setup, r.recordKey)}
    ensures OnB(setup, s.b, r.recordKey, setup.receiver.redecode(Document(r)))
    ensures SameReplies({}, s.net)
  {
    StoredDocument(setup.receiver, r);
    var t := OldOnC(setup, start, r);
    var u := Wait(setup, start, t, row);
    FirstStore(AnswerFor(setup, r, 1), u.now);
    s := Replicate(setup, start, u, r);
  }

  lemma OldOnC(setup: Setup, start: Instant, r: SourceRecord) returns (s: State)
    requires Genuine(r)
    ensures Reached(setup, start, s)
    ensures Begun(setup, start, s, r) && s.log == [] && SameReplies({}, s.net)
  {
    UpsertCases(setup.receiver, 1, RowFor(setup.receiver, r, start), ValuesFor(setup.receiver, r, start, start));
    Stay(setup, true, Initial(start));
    var t := PostOnly(setup, start, Initial(start), r, 0);
    s := Arrives(setup, start, t, r, 0);
    assert s.c == UpsertOne(setup.receiver, Table(map[], 1), ValuesFor(setup.receiver, r, start, start));
  }

  /** B's delete loses a version: an upload lands between B's fetch and B's delete. A has logged
      the newer version, C has no row any more, and B has the older version. */
  lemma DeleteLoses(setup: Setup, start: Instant, r: SourceRecord, q: SourceRecord) returns (s: State)
    requires setup.receiver.storeRaw && setup.cleanup && Versions(setup.receiver, r, q) && Small(setup, r) && Small(setup, q)
    requires Readable(setup.receiver, r) && CanExpire(setup.receiver, RowFor(setup.receiver, q, start))
    ensures Reached(setup, start, s) && Logged(s, q.recordKey)
    ensures q.recordKey !in s.c.rows && OnB(setup, s.b, q.recordKey, setup.receiver.redecode(Document(r)))
    ensures !VersionHeld(setup, s.c, s.b, q.recordKey, Document(q), setup.receiver.redecode(Document(q)))
  {
    var t := OldOnB(setup, start, r, RowFor(setup.receiver, q, start));
    s := OverwrittenAndGone(setup, start, t, q, ContentFor(setup.receiver, r));
    NotHeld(setup, s.c, s.b, q.recordKey, Document(q), Document(r),
            setup.receiver.redecode(Document(q)), setup.receiver.redecode(Document(r)));
  }

  /** A's version overwrites the row B has queued for deletion, is confirmed, and goes with it. */
  lemma OverwrittenAndGone(setup: Setup, start: Instant, s: State, q: SourceRecord, content: Content) returns (s': State)
    requires Reached(setup, start, s) && Small(setup, q) && setup.cleanup && s.log == [] && s.outstanding.Idle?
    requires s.c.rows == map[q.recordKey := Row(1, content, Some(start), start, start)] && 1 !in s.used && 2 !in s.used && s.jobs == []
    requires s.b.queue == map[BKey(setup, q.recordKey) := Job(1, 1, Pending, 0, s.now)]
    requires DueKeys(s.b, s.now) == {BKey(setup, q.recordKey)} && Due(setup.receiver, RowFor(setup.receiver, q, start), s.now)
    ensures Reached(setup, start, s') && Logged(s', q.recordKey) && s'.c.rows == map[] && s'.b == s.b
  {
    var t := Delivered(setup, start, s, q, 1);
    UpsertCases(setup.receiver, s.c.nextId, s.c.rows[q.recordKey], ValuesFor(setup.receiver, q, s.now, s.now));
    SameEffective(t.c.rows[q.recordKey], RowFor(setup.receiver, q, start));
    s' := DeletedByB(setup, start, t, q.recordKey, 2);
  }

  /** B loads its one due job, sends the delete, and it takes C's only row. */
  lemma DeletedByB(setup: Setup, start: Instant, s: State, key: string, nonce: nat) returns (s': State)
    requires Reached(setup, start, s) && setup.cleanup && s.jobs == [] && nonce !in s.used
    requires s.c.rows.Keys == {key} && Due(setup.receiver, s.c.rows[key], s.now)
    requires DueKeys(s.b, s.now) == {BKey(setup, key)} && BKey(setup, key) in s.b.queue
    requires s.b.queue[BKey(setup, key)].cId == s.c.rows[key].id
    ensures Reached(setup, start, s')
    ensures s' == s.(c := Table(map[], s.c.nextId), used := s.used + {nonce}, net := s'.net,
                     jobs := [LoadedJob(BKey(setup, key), s.b.queue[BKey(setup, key)])])
    ensures DeleteReply(s.c.rows[key].id as int, true) in s'.net
    ensures forall id: int :: id != s.c.rows[key].id && DeleteReply(id, true) !in s.net ==> DeleteReply(id, true) !in s'.net
  {
    var t := SendDelete(setup, start, s, BKey(setup, key), nonce);
    s' := DeleteArrives(setup, start, t, key, nonce);
  }

  /** A has delivered one record, and B has done nothing yet. */
  ghost predicate Begun(setup: Setup, start: Instant, s: State, r: SourceRecord)
    requires Genuine(r)
  {
    && s.b == Initial(0).b && s.fetched == [] && s.executed == 0 && s.jobs == [] && s.outstanding.Idle?
    && 1 !in s.used && 2 !in s.used && s.c == Table(map[r.recordKey := RowFor(setup.receiver, r, start)], 2)
  }

  /** A delivers its first record. */
  lemma First(setup: Setup, start: Instant, r: SourceRecord) returns (s: State)
    requires Small(setup, r)
    ensures Reached(setup, start, s) && Begun(setup, start, s, r) && s.now == start
    ensures Logged(s, r.recordKey) && Replay(s.log) == {StateKey(r.entityType, r.pk)} && s.posted == {(r.recordKey, Document(r))}
  {
    UpsertCases(setup.receiver, 1, RowFor(setup.receiver, r, start), ValuesFor(setup.receiver, r, start, start));
    Stay(setup, true, Initial(start));
    s := Delivered(setup, start, Initial(start), r, 0);
    assert s.c == UpsertOne(setup.receiver, Table(map[], 1), ValuesFor(setup.receiver, r, start, start));
  }

  /** Re-decoding loses a document that was only ever posted in one version: B stores what C
      answers, and C's row goes. */
  lemma RedecodingLoses(setup: Setup, start: Instant, r: SourceRecord) returns (s: State)
    requires setup.receiver.storeRaw && setup.cleanup && Small(setup, r) && Readable(setup.receiver, r)
    requires setup.receiver.redecode(Document(r)) != Some(Document(r))
    requires CanExpire(setup.receiver, RowFor(setup.receiver, r, start))
    ensures Reached(setup, start, s) && Logged(s, r.recordKey) && s.posted == {(r.recordKey, Document(r))}
    ensures !Verbatim(setup, s.c, s.b, r.recordKey, Document(r))
    ensures OnB(setup, s.b, r.recordKey, setup.receiver.redecode(Document(r)))
  {
    s := DeliveredAndGone(setup, start, r);
    NotHeld(setup, s.c, s.b, r.recordKey, Document(r), Document(r), Some(Document(r)), setup.receiver.redecode(Document(r)));
  }

  /** A delivers a record, B stores it, and C's row goes. */
  lemma DeliveredAndGone(setup: Setup, start: Instant, r: SourceRecord) returns (s: State)
    requires setup.receiver.storeRaw && setup.cleanup && Small(setup, r) && Readable(setup.receiver, r)
    requires CanExpire(setup.receiver, RowFor(setup.receiver, r, start))
    ensures Reached(setup, start, s) && Logged(s, r.recordKey) && Replay(s.log) == {StateKey(r.entityType, r.pk)}
    ensures s.posted == {(r.recordKey, Document(r))} && s.c == Table(map[], 2)
    ensures OnB(setup, s.b, r.recordKey, setup.receiver.redecode(Document(r)))
    ensures s.fetched == [] && s.executed == 0 && s.outstanding.Idle? && 2 !in s.used
  {
    var t := First(setup, start, r);
    s := StoredAndGone(setup, start, t, r);
    StaysLogged(t, s, r.recordKey);
  }

  /** Time passes, B stores C's only row, and deletes it. */
  lemma StoredAndGone(setup: Setup, start: Instant, s: State, r: SourceRecord) returns (s': State)
    requires Reached(setup, start, s) && setup.receiver.storeRaw && setup.cleanup && Small(setup, r) && Readable(setup.receiver, r)
    requires Begun(setup, start, s, r) && CanExpire(setup.receiver, RowFor(setup.receiver, r, start))
    ensures Reached(setup, start, s') && s'.log == s.log && s'.posted == s.posted && s'.c == Table(map[], 2)
    ensures OnB(setup, s'.b, r.recordKey, setup.receiver.redecode(Document(r)))
    ensures s'.fetched == [] && s'.executed == 0 && s'.outstanding.Idle? && 2 !in s'.used
  {
    StoredDocument(setup.receiver, r);
    var t := Wait(setup, start, s, RowFor(setup.receiver, r, start));
    FirstStore(AnswerFor(setup, r, 1), t.now);
    var u := Replicate(setup, start, t, r);
    s' := DeletedByB(setup, start, u, r.recordKey, 1);
  }

  /** An operator's delete by key loses the key itself: for every record there is a run in which
      A has logged it and neither C nor B has it. */
  lemma OperatorLoses(setup: Setup, start: Instant, r: SourceRecord) returns (s: State)
    requires Small(setup, r) && CanExpire(setup.receiver, RowFor(setup.receiver, r, start))
    ensures Leads(setup, false, Initial(start), s) && Logged(s, r.recordKey) && !Held(setup, s.c, s.b, r.recordKey)
  {
    var t := First(setup, start, r);
    var u := Wait(setup, start, t, RowFor(setup.receiver, r, start));
    s := OperatorDeletes(setup, start, u, r.recordKey);
  }

  lemma OperatorDeletes(setup: Setup, start: Instant, s: State, key: string) returns (s': State)
    requires Reached(setup, start, s) && s.c.rows.Keys == {key} && Due(setup.receiver, s.c.rows[key], s.now)
    ensures Leads(setup, false, Initial(start), s') && s' == s.(c := Table(map[], s.c.nextId))
  {
    var cutoff: Instant := s.now - setup.receiver.minDeleteAge;
    Overdue(s.c.rows[key], cutoff);
    OneRowGone(s.c, key, cutoff);
    Relax(setup, Initial(start), s);
    s' := Extend(setup, false, Initial(start), s, OperatorDelete(key, cutoff));
  }

  lemma Relax(setup: Setup, from: State, s: State)
    requires Leads(setup, true, from, s)
    ensures Leads(setup, false, from, s)
  {
    var trace: seq<State>, steps: seq<Step> :| IsWay(setup, true, from, s, trace, steps);
    assert IsWay(setup, false, from, s, trace, steps);
  }

  /** B's collation loses a record: of two keys that fall together on B the one is stored, deleted
      from C and then overwritten by the other. A has logged it, and only a row of the other
      record is left in its place. */
  lemma FoldLoses(setup: Setup, start: Instant, r: SourceRecord, q: SourceRecord) returns (s: State)
    requires setup.receiver.storeRaw && setup.cleanup && Small(setup, r) && Small(setup, q)
    requires r.recordKey != q.recordKey && BKey(setup, r.recordKey) == BKey(setup, q.recordKey)
    requires Readable(setup.receiver, r) && Readable(setup.receiver, q)
    requires setup.receiver.redecode(Document(r)) != setup.receiver.redecode(Document(q))
    requires CanExpire(setup.receiver, RowFor(setup.receiver, r, start))
    ensures Reached(setup, start, s) && Logged(s, r.recordKey) && Logged(s, q.recordKey)
    ensures r.recordKey !in s.c.rows && OnB(setup, s.b, q.recordKey, setup.receiver.redecode(Document(q)))
    ensures !VersionHeld(setup, s.c, s.b, r.recordKey, Document(r), setup.receiver.redecode(Document(r)))
  {
    var t := DeliveredAndGone(setup, start, r);
    s := OtherInPlace(setup, start, t, r, q);
    NotHeld(setup, s.c, s.b, r.recordKey, Document(r), Document(q),
            setup.receiver.redecode(Document(r)), setup.receiver.redecode(Document(q)));
  }

  lemma OtherInPlace(setup: Setup, start: Instant, s: State, r: SourceRecord, q: SourceRecord) returns (s': State)
    requires Reached(setup, start, s) && setup.receiver.storeRaw && Small(setup, q) && Readable(setup.receiver, q)
    requires Genuine(r) && r.recordKey != q.recordKey && s.c == Table(map[], 2) && s.fetched == [] && s.executed == 0
    requires s.outstanding.Idle? && Replay(s.log) == {StateKey(r.entityType, r.pk)} && 2 !in s.used && Logged(s, r.recordKey)
    ensures Reached(setup, start, s') && Logged(s', q.recordKey) && Logged(s', r.recordKey) && s'.c.rows.Keys == {q.recordKey}
    ensures OnB(setup, s'.b, q.recordKey, setup.receiver.redecode(Document(q)))
  {
    DifferentRows(r, q);
    UpsertCases(setup.receiver, 2, RowFor(setup.receiver, q, start), ValuesFor(setup.receiver, q, s.now, s.now));
    var t := Delivered(setup, start, s, q, 2);
    StaysLogged(s, t, r.recordKey);
    s' := ReplicatedNow(setup, start, t, q);
  }

  lemma DifferentRows(r: SourceRecord, q: SourceRecord)
    requires Genuine(r) && Genuine(q) && r.recordKey != q.recordKey
    ensures StateKey(q.entityType, q.pk) != StateKey(r.entityType, r.pk)
  {
    if StateKey(q.entityType, q.pk) == StateKey(r.entityType, r.pk) { StateKeyInjective(q.entityType, r.entityType, q.pk, r.pk); }
  }

  lemma StaysLogged(s: State, t: State, key: string)
    requires Logged(s, key) && s.log <= t.log
    ensures Logged(t, key)
  {
    var e :| e in s.log && e.recordKey == key;
    assert e in t.log;
  }

  lemma ReplicatedNow(setup: Setup, start: Instant, s: State, r: SourceRecord) returns (s': State)
    requires Reached(setup, start, s) && s.fetched == [] && s.executed == 0 && Small(setup, r) && setup.receiver.storeRaw
    requires s.c.rows.Keys == {r.recordKey} && s.c.rows[r.recordKey].content == ContentFor(setup.receiver, r) && Readable(setup.receiver, r)
    ensures Reached(setup, start, s') && s' == s.(b := s'.b) && OnB(setup, s'.b, r.recordKey, setup.receiver.redecode(Document(r)))
  {
    StoredDocument(setup.receiver, r);
    StoreChangesOneKey(setup.cleanup, s.b, AnswerFor(setup, r, s.c.rows[r.recordKey].id), s.now);
    s' := Replicate(setup, start, s, r);
  }

  // ------------------------------------------------------------ an instance

  /** Documents kept, cleanup on, the least minimum age, five minutes of skew, and queries that
      leave documents as they are. */
  const EXAMPLE := Setup(Config(true, 168 * 3600 * SECOND, false, false, _ => None, d => Some(d)), true, Some(300 * SECOND),
                         x => x, _ => 0, _ => 0)

  function ExampleRow(plate: string): SourceData { map["serialNo" := TextCell("S1"), "plateNo" := TextCell(plate)] }

  lemma ExampleKeys(row: SourceData)
    requires "serialNo" in row && row["serialNo"] == TextCell("S1")
    ensures ColumnText(row, "serialNo") == "S1"
  {
    assert Trim("S1") == "S1";
  }

  lemma ExampleIsGenuine(plate: string)
    ensures Genuine(MakeRecord(INFO, ExampleRow(plate))) && Small(EXAMPLE, MakeRecord(INFO, ExampleRow(plate)))
    ensures MakeRecord(INFO, ExampleRow(plate)).recordKey == "weight_info:S1"
  {
    ExampleKeys(ExampleRow(plate));
  }

  /** The row of the record before and after its plate was corrected. */
  function ExampleRecord(corrected: bool): SourceRecord { MakeRecord(INFO, ExampleRow(if corrected then "B" else "A")) }

  lemma ExamplePlate(r: SourceRecord, plate: string)
    requires r.data == ExampleRow(plate)
    ensures "plateNo" in Document(r) && Document(r)["plateNo"] == Str(plate)
  {
    assert "plateNo" in r.data && r.data["plateNo"] == TextCell(plate);
  }

  /** Two plates are two versions of one record, which queries leave as they are. */
  lemma ExampleVersions(r: SourceRecord, q: SourceRecord)
    requires r == MakeRecord(INFO, ExampleRow("A")) && q == MakeRecord(INFO, ExampleRow("B"))
    ensures Versions(EXAMPLE.receiver, r, q) && Small(EXAMPLE, r) && Small(EXAMPLE, q) && q.recordKey == "weight_info:S1"
    ensures EXAMPLE.receiver.redecode(Document(r)) == Some(Document(r))
    ensures EXAMPLE.receiver.redecode(Document(q)) == Some(Document(q))
  {
    ExampleIsGenuine("A");
    ExampleIsGenuine("B");
    DifferentDocuments(r, q);
  }

  lemma DifferentDocuments(r: SourceRecord, q: SourceRecord)
    requires r.data == ExampleRow("A") && q.data == ExampleRow("B")
    ensures Document(r) != Document(q)
  {
    ExamplePlate(r, "A");
    ExamplePlate(q, "B");
  }

  /** What the loss runs ask for does occur: under these settings, for a record whose plate was
      corrected, in the year 0. */
  lemma LossesHappen() returns (s: State)
    ensures Reached(EXAMPLE, 0, s) && Logged(s, "weight_info:S1")
    ensures !Verbatim(EXAMPLE, s.c, s.b, "weight_info:S1", Document(ExampleRecord(true)))
  {
    ExampleVersions(ExampleRecord(false), ExampleRecord(true));
    ExampleExpires(ExampleRecord(true));
    s := DeleteLoses(EXAMPLE, 0, ExampleRecord(false), ExampleRecord(true));
  }

  lemma ExampleExpires(q: SourceRecord)
    requires Genuine(q)
    ensures CanExpire(EXAMPLE.receiver, RowFor(EXAMPLE.receiver, q, 0))
  {
    NoTime(Document(q), TIME_NAMES);
    KeysAgree(EXAMPLE.receiver, q, ItemFor(q, 0, 0));
    GregorianYears(10000);
  }

  lemma {:induction false} NoTime(r: Record, names: seq<string>)
    ensures FirstTime(EXAMPLE.receiver, r, names) == None
  {
    if names != [] { NoTime(r, names[1..]); }
  }
}
