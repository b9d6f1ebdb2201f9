/** Reachability in the step machine, and the stretches of a run in which A uploads a batch and
    B stores an answer. */
module Reach {
  import opened Text
  import opened Timestamps
  import opened Ordering
  import opened Records
  import opened Receiver
  import opened Uploader
  import opened Replicator
  import opened Pipeline

  /** Steps lead from one state to another; careful ones, if so asked. */
  ghost predicate Leads(setup: Setup, careful: bool, from: State, s: State) {
    exists trace: seq<State>, steps: seq<Step> :: IsWay(setup, careful, from, s, trace, steps)
  }

  ghost predicate IsWay(setup: Setup, careful: bool, from: State, s: State, trace: seq<State>, steps: seq<Step>) {
    IsPath(setup, trace, steps) && (careful ==> AllCareful(setup, trace, steps)) && trace[0] == from && trace[|steps|] == s
  }

  lemma Stay(setup: Setup, careful: bool, s: State)
    ensures Leads(setup, careful, s, s)
  {
    assert IsWay(setup, careful, s, s, [s], []);
  }

  lemma Extend(setup: Setup, careful: bool, from: State, s: State, step: Step) returns (s': State)
    requires Leads(setup, careful, from, s) && Enabled(setup, s, step) && (careful ==> Careful(setup, s, step))
    ensures s' == Next(setup, s, step) && Leads(setup, careful, from, s')
  {
    s' := Next(setup, s, step);
    var trace: seq<State>, steps: seq<Step> :| IsWay(setup, careful, from, s, trace, steps);
    ExtendWay(setup, careful, from, trace, steps, step, s');
  }

  lemma ExtendWay(setup: Setup, careful: bool, from: State, trace: seq<State>, steps: seq<Step>, step: Step, s: State)
    requires IsPath(setup, trace, steps) && (careful ==> AllCareful(setup, trace, steps)) && trace[0] == from
    requires Moves(setup, trace[|steps|], step, s) && (careful ==> Careful(setup, trace[|steps|], step))
    ensures Leads(setup, careful, from, s)
  {
    var t, u := trace + [s], steps + [step];
    forall i | 0 <= i < |u| ensures MovesAt(setup, t, u, i) && (careful ==> CarefulAt(setup, t, u, i)) {
      if i < |steps| {
        assert MovesAt(setup, trace, steps, i);
        assert careful ==> CarefulAt(setup, trace, steps, i);
      }
    }
    assert IsWay(setup, careful, from, s, t, u);
  }

  lemma LeadsKeepsInv(setup: Setup, from: State, s: State)
    requires Leads(setup, true, from, s) && Inv(setup, from)
    ensures Inv(setup, s)
  {
    var trace: seq<State>, steps: seq<Step> :| IsWay(setup, true, from, s, trace, steps);
    PathKeepsInvariant(setup, trace, steps, |steps|);
  }

  lemma ReachableInv(setup: Setup, start: Instant, s: State)
    requires Leads(setup, true, Initial(start), s)
    ensures Inv(setup, s)
  {
    InitialInvariant(setup, start);
    LeadsKeepsInv(setup, Initial(start), s);
  }

  // ------------------------------------------------------------ signatures

  lemma {:induction false} Bound(used: set<nat>) returns (n: nat)
    ensures forall x :: x in used ==> x < n
  {
    n := 0;
    if used != {} {
      var x :| x in used;
      var m := Bound(used - {x});
      n := if x < m then m else x + 1;
      assert forall y :: y in used ==> y == x || y in used - {x};
    }
  }

  /** There is always a nonce that was not used. */
  lemma UnusedNonce(used: set<nat>) returns (n: nat)
    ensures n !in used
  {
    n := Bound(used);
  }

  /** A request that arrives in the instant it was sent, with a new nonce, passes. */
  lemma PassesAtOnce(setup: Setup, s: State, nonce: nat)
    requires nonce !in s.used
    ensures Admits(setup, s, Stamp(s.now, nonce))
  {
    DivMod(s.now, SECOND);
  }

  // ------------------------------------------------------------- A and C

  ghost predicate Postable(s: State, batch: seq<SourceRecord>) {
    s.outstanding.Idle? && batch != [] &&
    forall r :: r in batch ==> Genuine(r) && StateKey(r.entityType, r.pk) !in Replay(s.log)
  }

  /** C's table after A has posted a batch and C has committed it. */
  ghost function TableAfter(setup: Setup, s: State, batch: seq<SourceRecord>, source: string, database: string, clock: seq<Instant>): Table
    requires Postable(s, batch) && |clock| == |batch|
  {
    DataCount(batch);
    ApplyAll(setup.receiver, s.c, Items(PayloadOf(source, database, s.now, batch), clock))
  }

  /** What C then replies. */
  ghost function ReplyTo(setup: Setup, s: State, batch: seq<SourceRecord>, source: string, database: string, clock: seq<Instant>): UploadResponse
    requires Postable(s, batch) && |clock| == |batch|
  {
    DataCount(batch);
    Reply(setup.receiver, PayloadOf(source, database, s.now, batch), clock)
  }

  /** A posts a batch and C commits it. */
  lemma Upload(setup: Setup, careful: bool, from: State, s: State, batch: seq<SourceRecord>,
               source: string, database: string, clock: seq<Instant>, nonce: nat) returns (s': State)
    requires Leads(setup, careful, from, s) && Postable(s, batch) && |clock| == |batch| && nonce !in s.used
    ensures Leads(setup, careful, from, s')
    ensures var p := PayloadOf(source, database, s.now, batch);
      s' == s.(outstanding := Waiting(batch, p), posted := s.posted + Pairs(p), issued := s'.issued,
               c := TableAfter(setup, s, batch, source, database, clock), used := s.used + {nonce},
               net := s.net + {Post(p, Stamp(s.now, nonce))} + {PostReply(p, ReplyTo(setup, s, batch, source, database, clock))})
  {
    DataCount(batch);
    var p := PayloadOf(source, database, s.now, batch);
    PassesAtOnce(setup, s, nonce);
    var t := Extend(setup, careful, from, s, Uploading(APost(batch, source, database, nonce)));
    s' := Extend(setup, careful, from, t, Receiving(CIngest(p, Stamp(s.now, nonce), clock)));
  }

  /** A reads the reply, which names its whole batch, and appends it to the log. */
  lemma LogReply(setup: Setup, careful: bool, from: State, s: State, batch: seq<SourceRecord>,
                 source: string, database: string, at: Instant, clock: seq<Instant>, response: UploadResponse) returns (s': State)
    requires Leads(setup, careful, from, s) && batch != [] && (forall r :: r in batch ==> Genuine(r))
    requires |clock| == |batch| == RecordCount(PayloadOf(source, database, at, batch))
    requires s.outstanding == Waiting(batch, PayloadOf(source, database, at, batch))
    requires response == Reply(setup.receiver, s.outstanding.payload, clock)
    requires PostReply(s.outstanding.payload, response) in s.net && setup.replySize(response) <= BODY_LIMIT
    ensures s' == s.(outstanding := Idle, log := AppendEntries(s.log, EntriesOf(batch, s.now)))
    ensures Leads(setup, careful, from, s')
  {
    HonestAcknowledgement(setup.receiver, s.c, source, database, at, batch, clock);
    assert Acknowledgement(batch, response) == batch;
    var entries := EntriesOf(batch, s.now);
    assert entries[..|batch|] == entries;
    s' := Extend(setup, careful, from, s, Uploading(ALog(response, |batch|)));
  }

  /** The two together. */
  lemma Deliver(setup: Setup, careful: bool, from: State, s: State, batch: seq<SourceRecord>,
                source: string, database: string, clock: seq<Instant>, nonce: nat) returns (s': State)
    requires Leads(setup, careful, from, s) && Postable(s, batch) && |clock| == |batch| && nonce !in s.used
    requires setup.replySize(ReplyTo(setup, s, batch, source, database, clock)) <= BODY_LIMIT
    ensures Leads(setup, careful, from, s')
    ensures var p := PayloadOf(source, database, s.now, batch);
      s' == s.(posted := s.posted + Pairs(p), issued := s'.issued,
               c := TableAfter(setup, s, batch, source, database, clock), used := s.used + {nonce},
               net := s.net + {Post(p, Stamp(s.now, nonce))} + {PostReply(p, ReplyTo(setup, s, batch, source, database, clock))},
               log := AppendEntries(s.log, EntriesOf(batch, s.now)))
  {
    DataCount(batch);
    var t := Upload(setup, careful, from, s, batch, source, database, clock, nonce);
    s' := LogReply(setup, careful, from, t, batch, source, database, s.now, clock,
                   ReplyTo(setup, s, batch, source, database, clock));
  }

  // --------------------------------------------------------------- B

  /** One database time for a whole fetch. */
  function Always(t: nat): nat -> nat { _ => t }

  /** The transaction of the first fetched record runs its statements and commits. */
  lemma Statements(setup: Setup, careful: bool, from: State, s: State) returns (s': State)
    requires Leads(setup, careful, from, s) && s.fetched != [] && Storable(s.fetched[0])
    requires s.executed <= StatementCount(setup.cleanup)
    ensures s' == s.(executed := StatementCount(setup.cleanup)) && Leads(setup, careful, from, s')
    decreases StatementCount(setup.cleanup) - s.executed
  {
    s' := s;
    if s.executed < StatementCount(setup.cleanup) {
      var t := Extend(setup, careful, from, s, Replicating(BStatement));
      s' := Statements(setup, careful, from, t);
    }
  }

  lemma StoreFirst(setup: Setup, careful: bool, from: State, s: State) returns (s': State)
    requires Leads(setup, careful, from, s) && s.fetched != [] && Storable(s.fetched[0]) && s.executed == 0
    ensures s' == s.(b := Store(setup.cleanup, s.b, s.fetched[0], s.now), fetched := s.fetched[1..])
    ensures Leads(setup, careful, from, s')
  {
    var t := Statements(setup, careful, from, s);
    s' := Extend(setup, careful, from, t, Replicating(BCommit));
  }

  /** B stores the records from number `i` up to `n`, having stored those before into `b`. */
  lemma {:induction false} StoreUpTo(setup: Setup, careful: bool, from: State, s: State, b: Tables, records: seq<CRecord>, i: nat, n: nat)
    returns (s': State)
    requires Leads(setup, careful, from, s) && i <= n <= |records| && (forall j :: 0 <= j < n ==> Storable(records[j]))
    requires s.fetched == records[i..] && s.executed == 0
    requires s.b == StoreAll(setup.cleanup, b, records[..i], Always(s.now))
    ensures s' == s.(b := StoreAll(setup.cleanup, b, records[..n], Always(s.now)), fetched := records[n..])
    ensures Leads(setup, careful, from, s')
    decreases n - i
  {
    s' := s;
    if i < n {
      assert s.fetched[0] == records[i] && s.fetched[1..] == records[i + 1..];
      var t := StoreFirst(setup, careful, from, s);
      StoreAllSnoc(setup.cleanup, b, records, i, Always(s.now));
      s' := StoreUpTo(setup, careful, from, t, b, records, i + 1, n);
    }
  }

  /** The first row of an answer that C does not answer as an object, or the end. */
  function FirstUnreadable(cfg: Config, t: Table, keys: seq<string>, i: nat): (n: nat)
    requires i <= |keys| && forall k :: k in keys ==> k in t.rows
    ensures i <= n <= |keys|
    ensures forall j :: i <= j < n ==> Redecoded(cfg, t.rows[keys[j]].content.raw).Some?
    ensures n < |keys| ==> Redecoded(cfg, t.rows[keys[n]].content.raw).None?
    decreases |keys| - i
  {
    if i < |keys| && Redecoded(cfg, t.rows[keys[i]].content.raw).Some? then FirstUnreadable(cfg, t, keys, i + 1) else i
  }

  ghost predicate AnswerFits(setup: Setup, c: Table, keys: seq<string>) {
    (forall k :: k in keys ==> k in c.rows) &&
    setup.querySize(Answered(setup.receiver, setup.fold, c, keys)) <= BODY_LIMIT
  }

  /** A fetch whose transactions all commit stores exactly the rows answered before the first
      unreadable one, and stops there. */
  lemma FetchRound(setup: Setup, careful: bool, from: State, s: State, limit: nat, keys: seq<string>) returns (s': State, n: nat)
    requires Leads(setup, careful, from, s) && Inv(setup, s) && s.fetched == [] && QueryAnswer(s.c, limit, keys)
    requires AnswerFits(setup, s.c, keys)
    ensures Leads(setup, careful, from, s') && n == FirstUnreadable(setup.receiver, s.c, keys, 0)
    ensures s' == s.(b := StoreAll(setup.cleanup, s.b, Answered(setup.receiver, setup.fold, s.c, keys)[..n], Always(s.now)),
                     fetched := [], executed := 0)
  {
    var records := Answered(setup.receiver, setup.fold, s.c, keys);
    n := FirstUnreadable(setup.receiver, s.c, keys, 0);
    forall j | 0 <= j < n ensures Storable(records[j]) { ReachableIsStorable(setup, s, keys[j]); }
    var t := Extend(setup, careful, from, s, Replicating(BFetch(limit, keys)));
    assert records[0..] == records && records[..0] == [];
    assert StoreAll(setup.cleanup, s.b, [], Always(s.now)) == s.b;
    var u := StoreUpTo(setup, careful, from, t, s.b, records, 0, n);
    s' := Extend(setup, careful, from, u, Replicating(BAbort));
  }

  /** What such a fetch leaves on B for the key of any row it did not get to. */
  lemma NotReached(setup: Setup, b: Tables, c: Table, keys: seq<string>, n: nat, now: nat, key: string)
    requires (forall k :: k in keys ==> k in c.rows) && n <= |keys|
    requires forall i :: 0 <= i < n ==> BKey(setup, keys[i]) != BKey(setup, key)
    ensures var after := StoreAll(setup.cleanup, b, Answered(setup.receiver, setup.fold, c, keys)[..n], Always(now)).replicated;
      && (BKey(setup, key) in after <==> BKey(setup, key) in b.replicated)
      && (BKey(setup, key) in after ==> after[BKey(setup, key)] == b.replicated[BKey(setup, key)])
  {
    StoreAllLeaves(setup.cleanup, b, Answered(setup.receiver, setup.fold, c, keys)[..n], Always(now), BKey(setup, key));
  }

  // ------------------------------------------------------------- whole rounds

  /** In every reachable state B can store whatever C answers as an object. */
  lemma ReachableIsStorable(setup: Setup, s: State, key: string)
    requires Inv(setup, s) && key in s.c.rows && Redecoded(setup.receiver, s.c.rows[key].content.raw).Some?
    ensures Storable(RowRecord(setup.receiver, setup.fold, s.c, key))
  {
    var k := BKey(setup, key);
    assert (s.c.rows[key].id as int, key) in s.issued;
    FoldedShape(setup.fold, key);
    assert TrimLeft(k) == k;
    TrimRightKeeps(k);
  }

  /** Every document C holds comes out of a query as an object. */
  ghost predicate AllReadable(cfg: Config, t: Table) {
    forall k :: k in t.rows ==> Redecoded(cfg, t.rows[k].content.raw).Some?
  }

  /** B has every live key of C, with C's id and the content as C answers it. */
  ghost predicate CaughtUp(setup: Setup, c: Table, b: Tables) {
    forall k :: k in c.rows ==> Has(b.replicated, BKey(setup, k), ReplicaOf(RowRecord(setup.receiver, setup.fold, c, k)))
  }

  /** B catches up from every reachable state: if C's documents are readable, its keys stay apart
      on B and its rows fit the window and one body, one fetch and its transactions bring every
      live key to B, and change nothing but B's tables. */
  lemma CatchesUp(setup: Setup, from: State, s: State, fetchBatch: nat, maxLimit: nat, keys: seq<string>) returns (s': State)
    requires Leads(setup, true, from, s) && Inv(setup, s) && s.fetched == []
    requires AllReadable(setup.receiver, s.c) && Apart(setup.fold, s.c)
    requires maxLimit >= 1 && |s.c.rows| <= Min(fetchBatch, maxLimit)
    requires QueryAnswer(s.c, BoundedLimit(fetchBatch, maxLimit), keys) && AnswerFits(setup, s.c, keys)
    ensures Leads(setup, true, from, s') && s' == s.(b := s'.b, executed := 0)
    ensures CaughtUp(setup, s.c, s'.b)
  {
    var n;
    s', n := FetchRound(setup, true, from, s, BoundedLimit(fetchBatch, maxLimit), keys);
    var records := Answered(setup.receiver, setup.fold, s.c, keys);
    assert n == |keys| && records[..n] == records;
    WindowAnswer(s.c, fetchBatch, maxLimit, keys);
    StoredAnswer(setup, s.b, s.c, keys, s.now);
  }

  lemma StoredAnswer(setup: Setup, b: Tables, c: Table, keys: seq<string>, now: nat)
    requires AllReadable(setup.receiver, c) && Apart(setup.fold, c) && Distinct(keys) && forall k :: k in keys <==> k in c.rows
    ensures CaughtUp(setup, c, StoreAll(setup.cleanup, b, Answered(setup.receiver, setup.fold, c, keys), Always(now)))
  {
    var after := StoreAll(setup.cleanup, b, Answered(setup.receiver, setup.fold, c, keys), Always(now));
    forall k | k in c.rows ensures Has(after.replicated, BKey(setup, k), ReplicaOf(RowRecord(setup.receiver, setup.fold, c, k))) {
      AnsweredRow(setup.receiver, setup.fold, setup.cleanup, b, c, keys, Always(now), k);
    }
  }

  lemma CaughtUpIsReadable(setup: Setup, c: Table, b: Tables)
    requires Agree(b) && CaughtUp(setup, c, b)
    ensures AllReadable(setup.receiver, c)
  {
    forall k | k in c.rows ensures Redecoded(setup.receiver, c.rows[k].content.raw).Some? {
      var j := BKey(setup, k);
      assert Has(b.replicated, j, ReplicaOf(RowRecord(setup.receiver, setup.fold, c, k)));
      assert j in b.info || j in b.photo;
    }
  }

  lemma CaughtUpIsApart(setup: Setup, c: Table, b: Tables)
    requires IdsSound(c) && CaughtUp(setup, c, b)
    ensures Apart(setup.fold, c)
  {
    forall j, k | j in c.rows && k in c.rows && Folded(setup.fold, j) == Folded(setup.fold, k) ensures j == k {
      assert Has(b.replicated, BKey(setup, j), ReplicaOf(RowRecord(setup.receiver, setup.fold, c, j)));
      assert Has(b.replicated, BKey(setup, k), ReplicaOf(RowRecord(setup.receiver, setup.fold, c, k)));
      assert c.rows[j].id == c.rows[k].id;
    }
  }

  /** Wherever B has caught up, C's documents are readable and its keys stay apart on B. */
  lemma CaughtUpOnlyIf(setup: Setup, s: State)
    requires Inv(setup, s) && CaughtUp(setup, s.c, s.b)
    ensures AllReadable(setup.receiver, s.c) && Apart(setup.fold, s.c)
  {
    CaughtUpIsReadable(setup, s.c, s.b);
    TableIdsSound(setup.receiver, s.c, s.issued, s.posted);
    CaughtUpIsApart(setup, s.c, s.b);
  }

  /** So, from every reachable state within the window, B can catch up with C's table if and only
      if its documents are readable and its keys stay apart. */
  lemma CatchUpIff(setup: Setup, start: Instant, s: State, fetchBatch: nat, maxLimit: nat, keys: seq<string>)
    requires Leads(setup, true, Initial(start), s) && s.fetched == []
    requires maxLimit >= 1 && |s.c.rows| <= Min(fetchBatch, maxLimit)
    requires QueryAnswer(s.c, BoundedLimit(fetchBatch, maxLimit), keys) && AnswerFits(setup, s.c, keys)
    ensures (exists s' :: Leads(setup, true, s, s') && s'.c == s.c && CaughtUp(setup, s'.c, s'.b)) <==>
            AllReadable(setup.receiver, s.c) && Apart(setup.fold, s.c)
  {
    ReachableInv(setup, start, s);
    if AllReadable(setup.receiver, s.c) && Apart(setup.fold, s.c) {
      Stay(setup, true, s);
      var s' := CatchesUp(setup, s, s, fetchBatch, maxLimit, keys);
      assert Leads(setup, true, s, s') && s'.c == s.c && CaughtUp(setup, s'.c, s'.b);
    }
    forall s' | Leads(setup, true, s, s') && s'.c == s.c && CaughtUp(setup, s'.c, s'.b)
      ensures AllReadable(setup.receiver, s.c) && Apart(setup.fold, s.c)
    {
      LeadsKeepsInv(setup, s, s');
      CaughtUpOnlyIf(setup, s');
    }
  }

  /** One fault-free round delivers from every reachable state: A posts any batch of genuine
      unconfirmed rows, C commits, A logs, B fetches and stores. Then every row of the batch is
      in A's log and on B as C answers it. */
  lemma RoundDelivers(setup: Setup, start: Instant, s: State, batch: seq<SourceRecord>, source: string, database: string,
                      clock: seq<Instant>, fetchBatch: nat, maxLimit: nat, keys: seq<string>) returns (s': State)
    requires Leads(setup, true, Initial(start), s) && s.fetched == [] && Postable(s, batch) && |clock| == |batch|
    requires setup.replySize(ReplyTo(setup, s, batch, source, database, clock)) <= BODY_LIMIT
    requires var c := TableAfter(setup, s, batch, source, database, clock);
      && AllReadable(setup.receiver, c) && Apart(setup.fold, c)
      && maxLimit >= 1 && |c.rows| <= Min(fetchBatch, maxLimit)
      && QueryAnswer(c, BoundedLimit(fetchBatch, maxLimit), keys) && AnswerFits(setup, c, keys)
    ensures Leads(setup, true, Initial(start), s')
    ensures s'.c == TableAfter(setup, s, batch, source, database, clock) && CaughtUp(setup, s'.c, s'.b)
    ensures forall r :: r in batch ==>
              StateKey(r.entityType, r.pk) in Replay(s'.log) && r.recordKey in s'.c.rows
  {
    var from := Initial(start);
    var nonce := UnusedNonce(s.used);
    var t := Deliver(setup, true, from, s, batch, source, database, clock, nonce);
    ReachableInv(setup, start, t);
    s' := CatchesUp(setup, from, t, fetchBatch, maxLimit, keys);
    forall r | r in batch ensures StateKey(r.entityType, r.pk) in Replay(s'.log) && r.recordKey in s'.c.rows {
      LoggedBatch(s.log, batch, s.now, r);
      HonestAcknowledgement(setup.receiver, s.c, source, database, s.now, batch, clock);
    }
  }

  lemma LoggedBatch(log: seq<Entry>, batch: seq<SourceRecord>, now: Instant, r: SourceRecord)
    requires r in batch
    ensures StateKey(r.entityType, r.pk) in Replay(AppendEntries(log, EntriesOf(batch, now)))
  {
    AppendReplay(log, EntriesOf(batch, now));
    var i :| 0 <= i < |batch| && batch[i] == r;
    assert EntriesOf(batch, now)[i] in EntriesOf(batch, now);
  }
}
