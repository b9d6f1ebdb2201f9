/** Which document is held, beyond which key: where documents come from, exactly which steps
    lose one, and when none does. */
module Documents {
  import opened Text
  import opened Timestamps
  import opened Records
  import opened Receiver
  import opened Uploader
  import opened Replicator
  import opened Pipeline

  predicate OnC(c: Table, key: string, d: Record) { key in c.rows && c.rows[key].content.raw == Some(d) }

  predicate OnB(setup: Setup, b: Tables, key: string, e: Option<Record>) {
    BKey(setup, key) in b.replicated && e.Some? && b.replicated[BKey(setup, key)].content.raw == e
  }

  /** C holds the document `d`, or B holds `e`, under the key. With `e` the re-decoded `d` this
      is holding a version; with `e` the document `d` itself it is holding it verbatim. */
  predicate VersionHeld(setup: Setup, c: Table, b: Tables, key: string, d: Record, e: Option<Record>) {
    OnC(c, key, d) || OnB(setup, b, key, e)
  }

  predicate Verbatim(setup: Setup, c: Table, b: Tables, key: string, d: Record) { VersionHeld(setup, c, b, key, d, Some(d)) }

  // ------------------------------------------------------- where they come from

  /** Some posted document, under a key that B files there, re-decodes to the one B has there. */
  ghost predicate Posted(setup: Setup, posted: set<(string, Record)>, bkey: string, raw: Option<Record>) {
    exists x :: x in posted && BKey(setup, x.0) == bkey && setup.receiver.redecode(x.1) == raw
  }

  /** Nothing is invented: a document of C was posted under its key, and a document of B is a
      posted one after C's re-decoding, posted under its key or one that falls together with it. */
  lemma OnlyPostedDocuments(setup: Setup, start: Instant, trace: seq<State>, steps: seq<Step>, n: nat, key: string)
    requires CarefulRun(setup, start, trace, steps) && n <= |steps|
    ensures var s := trace[n];
      && (key in s.c.rows && s.c.rows[key].content.raw.Some? ==> (key, s.c.rows[key].content.raw.value) in s.posted)
      && (BKey(setup, key) in s.b.replicated ==> s.b.replicated[BKey(setup, key)].content.raw.Some?)
      && (BKey(setup, key) in s.b.replicated ==>
            Posted(setup, s.posted, BKey(setup, key), s.b.replicated[BKey(setup, key)].content.raw))
  {
    RunKeepsInvariant(setup, start, trace, steps, n);
    DocumentSources(setup, trace[n], key);
  }

  lemma DocumentSources(setup: Setup, s: State, key: string)
    requires Inv(setup, s)
    ensures key in s.c.rows && s.c.rows[key].content.raw.Some? ==> (key, s.c.rows[key].content.raw.value) in s.posted
    ensures key in s.c.rows && setup.receiver.storeRaw ==> s.c.rows[key].content.raw.Some?
    ensures BKey(setup, key) in s.b.replicated ==> s.b.replicated[BKey(setup, key)].content.raw.Some?
    ensures BKey(setup, key) in s.b.replicated ==>
              Posted(setup, s.posted, BKey(setup, key), s.b.replicated[BKey(setup, key)].content.raw)
  {
    var k := BKey(setup, key);
    if key in s.c.rows { assert RowSound(setup.receiver, key, s.c.rows[key].content, s.posted); }
    if k in s.b.replicated {
      assert k in s.b.info || k in s.b.photo;
      assert AnswerSound(setup, k, s.b.replicated[k].content, s.posted);
    }
  }

  /** When a logged key, with all keys that fall together with it, was only ever posted with one
      document, C holds that document or B holds it re-decoded. It is held verbatim if and only
      if C still has the row or re-decoding leaves it as it is. */
  lemma SingleVersionNoLoss(setup: Setup, start: Instant, trace: seq<State>, steps: seq<Step>, n: nat, e: Entry, d: Record)
    requires CarefulRun(setup, start, trace, steps) && n <= |steps| && e in trace[n].log && setup.receiver.storeRaw
    requires forall x :: x in trace[n].posted && BKey(setup, x.0) == BKey(setup, e.recordKey) ==> x.1 == d
    ensures VersionHeld(setup, trace[n].c, trace[n].b, e.recordKey, d, setup.receiver.redecode(d))
    ensures Verbatim(setup, trace[n].c, trace[n].b, e.recordKey, d) <==>
            e.recordKey in trace[n].c.rows || setup.receiver.redecode(d) == Some(d)
  {
    NoLoss(setup, start, trace, steps, n, e);
    RunKeepsInvariant(setup, start, trace, steps, n);
    SingleVersion(setup, trace[n], e.recordKey, d);
  }

  lemma SingleVersion(setup: Setup, s: State, key: string, d: Record)
    requires Inv(setup, s) && Held(setup, s.c, s.b, key) && setup.receiver.storeRaw
    requires forall x :: x in s.posted && BKey(setup, x.0) == BKey(setup, key) ==> x.1 == d
    ensures VersionHeld(setup, s.c, s.b, key, d, setup.receiver.redecode(d))
    ensures Verbatim(setup, s.c, s.b, key, d) <==> key in s.c.rows || setup.receiver.redecode(d) == Some(d)
  {
    DocumentSources(setup, s, key);
    if key in s.c.rows {
      var x := (key, s.c.rows[key].content.raw.value);
      assert x in s.posted && BKey(setup, x.0) == BKey(setup, key);
    }
    var k := BKey(setup, key);
    if k in s.b.replicated {
      var x :| x in s.posted && BKey(setup, x.0) == k && setup.receiver.redecode(x.1) == s.b.replicated[k].content.raw;
      assert x.1 == d;
    }
  }

  /** When the posted keys do not fall together on B, its row for a key is that key's own: its
      document was posted under the key itself. */
  lemma OwnRow(setup: Setup, start: Instant, trace: seq<State>, steps: seq<Step>, n: nat, x: (string, Record))
    requires CarefulRun(setup, start, trace, steps) && n <= |steps|
    requires forall y, z :: y in trace[n].posted && z in trace[n].posted && BKey(setup, y.0) == BKey(setup, z.0) ==> y.0 == z.0
    requires x in trace[n].posted && BKey(setup, x.0) in trace[n].b.replicated
    ensures exists d :: (x.0, d) in trace[n].posted &&
              setup.receiver.redecode(d) == trace[n].b.replicated[BKey(setup, x.0)].content.raw
  {
    OnlyPostedDocuments(setup, start, trace, steps, n, x.0);
    var s, k := trace[n], BKey(setup, x.0);
    var y :| y in s.posted && BKey(setup, y.0) == k && setup.receiver.redecode(y.1) == s.b.replicated[k].content.raw;
    assert y == (x.0, y.1);
  }

  // --------------------------------------------------------- which steps lose one

  /** An upload puts another document in C's place and B has none, or a delete takes the row and
      B has none. */
  ghost predicate ReceiverLoses(setup: Setup, s: State, step: ReceiverStep, key: string, d: Record, e: Option<Record>)
    requires EnabledC(setup, s, step)
  {
    match step
    case CIngest(payload, _, clock) =>
      var last := LastContent(setup.receiver, Items(payload, clock), key);
      !OnB(setup, s.b, key, e) && last.Some? && last.value.raw != Some(d)
    case CDelete(cId, _, _, cutoff) =>
      !OnB(setup, s.b, key, e) && key in s.c.rows && s.c.rows[key].id == cId && Expired(s.c.rows[key], cutoff)
    case CAbort(_, _, _) => false
    case CRefuse(_, _, _) => false
  }

  /** The steps that lose a held version, by what they are about to do: the two above, an
      operator's delete of a row B does not have so, and B's commit of another document over
      it while C no longer has it. */
  ghost predicate Loses(setup: Setup, s: State, step: Step, key: string, d: Record, e: Option<Record>)
    requires Enabled(setup, s, step)
  {
    match step
    case Receiving(c) => ReceiverLoses(setup, s, c, key, d, e)
    case OperatorDelete(k, cutoff) =>
      k == key && !OnB(setup, s.b, key, e) && key in s.c.rows && Expired(s.c.rows[key], cutoff)
    case Replicating(b) =>
      b.BCommit? && !OnC(s.c, key, d) && s.fetched[0].key == BKey(setup, key) && s.fetched[0].content.raw != e
    case Tick(_) => false
    case Uploading(_) => false
    case ForeignPost(_, _) => false
  }

  lemma ReceiverKeepsVersionIff(setup: Setup, s: State, step: ReceiverStep, key: string, d: Record, e: Option<Record>)
    requires EnabledC(setup, s, step) && VersionHeld(setup, s.c, s.b, key, d, e)
    ensures var s' := NextC(setup, s, step);
      VersionHeld(setup, s'.c, s'.b, key, d, e) <==> !ReceiverLoses(setup, s, step, key, d, e)
  {
    match step
    case CIngest(payload, _, clock) => ApplyAllRow(setup.receiver, s.c, Items(payload, clock), key);
    case CDelete(cId, _, _, cutoff) =>
    case CAbort(_, _, _) =>
    case CRefuse(_, _, _) =>
  }

  lemma ReplicatorKeepsVersionIff(setup: Setup, s: State, step: ReplicatorStep, key: string, d: Record, e: Option<Record>)
    requires EnabledB(setup, s, step) && VersionHeld(setup, s.c, s.b, key, d, e)
    ensures var s' := NextB(setup, s, step);
      VersionHeld(setup, s'.c, s'.b, key, d, e) <==>
      !(step.BCommit? && !OnC(s.c, key, d) && s.fetched[0].key == BKey(setup, key) && s.fetched[0].content.raw != e)
  {
    if step.BCommit? { StoreChangesOneKey(setup.cleanup, s.b, s.fetched[0], s.now); }
  }

  /** Exactly when a step keeps a held version, for every step and every state. */
  lemma StepKeepsVersionIff(setup: Setup, s: State, step: Step, key: string, d: Record, e: Option<Record>)
    requires Enabled(setup, s, step) && VersionHeld(setup, s.c, s.b, key, d, e)
    ensures var s' := Next(setup, s, step);
      VersionHeld(setup, s'.c, s'.b, key, d, e) <==> !Loses(setup, s, step, key, d, e)
  {
    match step
    case Receiving(c) => ReceiverKeepsVersionIff(setup, s, c, key, d, e);
    case Replicating(b) => ReplicatorKeepsVersionIff(setup, s, b, key, d, e);
    case Uploading(a) => assert NextA(setup, s, a).c == s.c && NextA(setup, s, a).b == s.b;
    case OperatorDelete(k, cutoff) =>
    case Tick(_) =>
    case ForeignPost(_, _) =>
  }

  ghost predicate HeldAt(setup: Setup, s: State, key: string, d: Record, e: Option<Record>) { VersionHeld(setup, s.c, s.b, key, d, e) }

  ghost predicate LosesAt(setup: Setup, s: State, step: Step, key: string, d: Record, e: Option<Record>) {
    Enabled(setup, s, step) && Loses(setup, s, step, key, d, e)
  }

  /** At each step of a run: a held version is held afterwards if and only if the step is not
      one that loses it. */
  lemma HeldNextIff(setup: Setup, trace: seq<State>, steps: seq<Step>, i: nat, key: string, d: Record, e: Option<Record>)
    requires IsPath(setup, trace, steps) && i < |steps| && HeldAt(setup, trace[i], key, d, e)
    ensures HeldAt(setup, trace[i + 1], key, d, e) <==> !LosesAt(setup, trace[i], steps[i], key, d, e)
  {
    assert MovesAt(setup, trace, steps, i);
    StepKeepsVersionIff(setup, trace[i], steps[i], key, d, e);
  }

  /** Over whole runs: a version held at `m` is held at `n` if no losing step lies between. */
  lemma {:induction false} HeldWithoutLoss(setup: Setup, trace: seq<State>, steps: seq<Step>, m: nat, n: nat,
                                           key: string, d: Record, e: Option<Record>)
    requires IsPath(setup, trace, steps) && m <= n <= |steps| && HeldAt(setup, trace[m], key, d, e)
    requires forall i :: m <= i < n ==> !LosesAt(setup, trace[i], steps[i], key, d, e)
    ensures HeldAt(setup, trace[n], key, d, e)
    decreases n
  {
    if m < n {
      HeldWithoutLoss(setup, trace, steps, m, n - 1, key, d, e);
      HeldNextIff(setup, trace, steps, n - 1, key, d, e);
    }
  }

  /** From its upload on: a document that an upload stores is held on C, or re-decoded on B, in
      every later state before which no losing step lies. */
  lemma UploadedIsHeld(setup: Setup, trace: seq<State>, steps: seq<Step>, m: nat, n: nat,
                       payload: Payload, stamp: Stamp, clock: seq<Instant>, key: string, d: Record)
    requires IsPath(setup, trace, steps) && m < n <= |steps| && |clock| == RecordCount(payload)
    requires steps[m] == Receiving(CIngest(payload, stamp, clock))
    requires LastContent(setup.receiver, Items(payload, clock), key).Some?
    requires LastContent(setup.receiver, Items(payload, clock), key).value.raw == Some(d)
    requires forall i :: m < i < n ==> !LosesAt(setup, trace[i], steps[i], key, d, setup.receiver.redecode(d))
    ensures VersionHeld(setup, trace[n].c, trace[n].b, key, d, setup.receiver.redecode(d))
  {
    assert MovesAt(setup, trace, steps, m);
    IngestHolds(setup, trace[m], payload, stamp, clock, key, d);
    HeldWithoutLoss(setup, trace, steps, m + 1, n, key, d, setup.receiver.redecode(d));
  }

  lemma IngestHolds(setup: Setup, s: State, payload: Payload, stamp: Stamp, clock: seq<Instant>, key: string, d: Record)
    requires EnabledC(setup, s, CIngest(payload, stamp, clock))
    requires var last := LastContent(setup.receiver, Items(payload, clock), key); last.Some? && last.value.raw == Some(d)
    ensures OnC(NextC(setup, s, CIngest(payload, stamp, clock)).c, key, d)
  {
    ApplyAllRow(setup.receiver, s.c, Items(payload, clock), key);
  }
}
