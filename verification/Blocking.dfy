/** An unreadable document at the head of C's answers: B's fetch stops at it, and nothing behind
    it reaches B. */
module Blocking {
  import opened Timestamps
  import opened Ordering
  import opened Receiver
  import opened Uploader
  import opened Replicator
  import opened Pipeline
  import opened Losses

  /** The newest row of C's table. */
  ghost predicate Newest(c: Table, top: string) { Heads(c.rows.Keys, Newer(c), top) }

  /** C's newest document is unreadable, and B has fetched nothing else. */
  ghost predicate Blocked(setup: Setup, s: State, top: string) {
    && Newest(s.c, top) && Redecoded(setup.receiver, s.c.rows[top].content.raw).None?
    && Stuck(s.fetched)
  }

  /** The fetch loop has nothing to store, or stops at the first record. */
  predicate Stuck(fetched: seq<CRecord>) { fetched == [] || fetched[0].content.raw.None? }

  lemma FetchIsStuck(setup: Setup, c: Table, limit: nat, keys: seq<string>, top: string)
    requires Newest(c, top) && Redecoded(setup.receiver, c.rows[top].content.raw).None?
    requires QueryAnswer(c, limit, keys) && forall k :: k in keys ==> k in c.rows
    ensures Stuck(Answered(setup.receiver, setup.fold, c, keys))
  {
    if keys != [] { AnswerStarts(c.rows.Keys, Newer(c), limit, keys, top); }
  }

  lemma ReplicatorIsStuck(setup: Setup, s: State, step: ReplicatorStep, top: string)
    requires Blocked(setup, s, top) && EnabledB(setup, s, step)
    ensures Stuck(NextB(setup, s, step).fetched) && NextB(setup, s, step).b.replicated == s.b.replicated
  {
    if step.BFetch? { FetchIsStuck(setup, s.c, step.limit, step.keys, top); }
  }

  /** Then no step that leaves C's table alone brings anything to B. */
  lemma BlockedStep(setup: Setup, s: State, step: Step, top: string)
    requires Blocked(setup, s, top) && Enabled(setup, s, step)
    ensures Stuck(Next(setup, s, step).fetched) && Next(setup, s, step).b.replicated == s.b.replicated
  {
    match step
    case Replicating(b) => ReplicatorIsStuck(setup, s, b, top);
    case Uploading(a) => assert NextA(setup, s, a).b == s.b && NextA(setup, s, a).fetched == s.fetched;
    case Receiving(c) => assert NextC(setup, s, c).b == s.b && NextC(setup, s, c).fetched == s.fetched;
    case Tick(_) =>
    case ForeignPost(_, _) =>
    case OperatorDelete(_, _) =>
  }

  /** For ever: as long as C's table stays as it is, B's rows stay as they are. */
  lemma {:induction false} BlockedForever(setup: Setup, trace: seq<State>, steps: seq<Step>, n: nat, top: string)
    requires IsPath(setup, trace, steps) && Blocked(setup, trace[0], top) && n <= |steps|
    requires forall i :: 0 <= i <= n ==> trace[i].c == trace[0].c
    ensures Blocked(setup, trace[n], top) && trace[n].b.replicated == trace[0].b.replicated
  {
    if n > 0 {
      BlockedForever(setup, trace, steps, n - 1, top);
      assert MovesAt(setup, trace, steps, n - 1);
      BlockedStep(setup, trace[n - 1], steps[n - 1], top);
    }
  }

  /** C's table with two records, each on its own row. */
  function TwoRows(cfg: Config, o: SourceRecord, r: SourceRecord, at: Instant): Table
    requires Genuine(o) && Genuine(r)
  {
    UpsertOne(cfg, Table(map[o.recordKey := RowFor(cfg, o, at)], 2), ValuesFor(cfg, r, at, at))
  }

  /** For every record whose document is unreadable and every other one that sorts behind it,
      there is a run that ends with both logged and live on C, and the other, readable or not,
      shut out from B. */
  lemma UnreadableBlocks(setup: Setup, start: Instant, o: SourceRecord, r: SourceRecord) returns (s: State)
    requires setup.receiver.storeRaw && Small(setup, o) && Small(setup, r) && o.recordKey != r.recordKey
    requires !Readable(setup.receiver, r) && Newer(TwoRows(setup.receiver, o, r, start))(r.recordKey, o.recordKey)
    ensures Reached(setup, start, s) && Logged(s, o.recordKey) && Logged(s, r.recordKey)
    ensures o.recordKey in s.c.rows && BKey(setup, o.recordKey) !in s.b.replicated && Blocked(setup, s, r.recordKey)
  {
    s := BothDelivered(setup, start, o, r);
    TwoRowsBlock(setup.receiver, o, r, start);
  }

  lemma TwoRowsBlock(cfg: Config, o: SourceRecord, r: SourceRecord, at: Instant)
    requires cfg.storeRaw && Genuine(o) && Genuine(r) && o.recordKey != r.recordKey
    requires !Readable(cfg, r) && Newer(TwoRows(cfg, o, r, at))(r.recordKey, o.recordKey)
    ensures var t := TwoRows(cfg, o, r, at);
      o.recordKey in t.rows && Newest(t, r.recordKey) && Redecoded(cfg, t.rows[r.recordKey].content.raw).None?
  {
    TwoRowsHave(cfg, o, r, at);
    StoredDocument(cfg, r);
    var t := TwoRows(cfg, o, r, at);
    FirstOfTwo(t.rows.Keys, Newer(t), r.recordKey, o.recordKey);
  }

  lemma BothDelivered(setup: Setup, start: Instant, o: SourceRecord, r: SourceRecord) returns (s: State)
    requires Small(setup, o) && Small(setup, r) && o.recordKey != r.recordKey
    ensures Reached(setup, start, s) && Logged(s, o.recordKey) && Logged(s, r.recordKey)
    ensures s.c == TwoRows(setup.receiver, o, r, start) && s.b == Initial(0).b && s.fetched == []
  {
    DifferentRows(o, r);
    var t := First(setup, start, o);
    s := Delivered(setup, start, t, r, 1);
    StaysLogged(t, s, o.recordKey);
  }

  lemma TwoRowsHave(cfg: Config, o: SourceRecord, r: SourceRecord, at: Instant)
    requires Genuine(o) && Genuine(r) && o.recordKey != r.recordKey
    ensures var rows := TwoRows(cfg, o, r, at).rows;
      rows.Keys == {r.recordKey, o.recordKey} && rows[r.recordKey].content == ContentFor(cfg, r)
  {
  }
}
