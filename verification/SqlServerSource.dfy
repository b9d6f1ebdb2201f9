/** The SQL Server source and its sync engine: rows flagged not yet uploaded are read oldest
    first, and the accepted serial numbers are written back in chunks. */
module SqlServerSource {
  import opened Text
  import opened Ordering
  import Drain

  /** `sortKey` is the row's update time, or the first earlier time that is not null, as a
      number; a row without any has the least one. */
  datatype SourceRow = SourceRow(sortKey: int, uploaded: bool, deleted: bool)

  /** Keyed by `serialNo`, the table's primary key. */
  type Rows = map<string, SourceRow>

  function Pending(rows: Rows): set<string> { set k | k in rows && !rows[k].uploaded && !rows[k].deleted }

  function Earlier(rows: Rows): (string, string) -> bool {
    (j, k) => j in rows && k in rows && rows[j].sortKey < rows[k].sortKey
  }

  /** SELECT TOP (limit) ... ORDER BY the sort key. */
  ghost predicate FetchAnswer(rows: Rows, limit: nat, serials: seq<string>) {
    IsFirst(Pending(rows), Earlier(rows), limit, serials)
  }

  /** Which rows may be in a batch: those neither marked nor deleted, as many as the limit allows,
      oldest first, and no such row left out is older than one taken. */
  lemma BatchIs(rows: Rows, limit: nat, serials: seq<string>)
    requires FetchAnswer(rows, limit, serials)
    ensures |serials| == Min(limit, |set k | k in rows && !rows[k].uploaded && !rows[k].deleted|) && Distinct(serials)
    ensures forall i :: 0 <= i < |serials| ==> serials[i] in rows && !rows[serials[i]].uploaded && !rows[serials[i]].deleted
    ensures forall i, j :: 0 <= i < j < |serials| ==>
              serials[i] in rows && serials[j] in rows && rows[serials[i]].sortKey <= rows[serials[j]].sortKey
    ensures forall i, k :: 0 <= i < |serials| && k in rows && k !in serials && !rows[k].uploaded && !rows[k].deleted ==>
              serials[i] in rows && rows[serials[i]].sortKey <= rows[k].sortKey
  {
    forall i | 0 <= i < |serials| ensures serials[i] in Pending(rows) { assert serials[i] in Elements(serials); }
    forall i, j | 0 <= i < j < |serials| ensures rows[serials[i]].sortKey <= rows[serials[j]].sortKey {
      assert serials[i] in Pending(rows) && serials[j] in Pending(rows) && !Earlier(rows)(serials[j], serials[i]);
    }
    forall i, k | 0 <= i < |serials| && k in Pending(rows) && k !in serials ensures rows[serials[i]].sortKey <= rows[k].sortKey {
      assert serials[i] in Pending(rows) && !Earlier(rows)(k, serials[i]);
    }
  }

  lemma BatchExists(rows: Rows, limit: nat) returns (serials: seq<string>)
    ensures FetchAnswer(rows, limit, serials)
  {
    forall i, j, k ensures !Earlier(rows)(i, i) && (Earlier(rows)(i, j) && Earlier(rows)(j, k) ==> Earlier(rows)(i, k)) { }
    serials := FirstExists(Pending(rows), Earlier(rows), limit);
  }

  /** UPDATE ... SET isUploadCloud = 1 WHERE serialNo IN (...). */
  function MarkSet(rows: Rows, serials: set<string>): Rows {
    map k | k in rows :: if k in serials then rows[k].(uploaded := true) else rows[k]
  }

  lemma MarkUnion(rows: Rows, a: set<string>, b: set<string>)
    ensures MarkSet(MarkSet(rows, a), b) == MarkSet(rows, a + b)
  {
  }

  datatype UploadReply = Answer(accepted: seq<string>, failed: seq<string>) | Refused(error: string)

  /** An answer that names nobody, or no body at all, accepts the whole batch. */
  function AcceptedSerials(batch: seq<string>, reply: UploadReply): seq<string>
    requires reply.Answer?
  {
    if reply.accepted == [] && reply.failed == [] then batch else reply.accepted
  }

  /** One cycle: what was fetched, what the upload answered, the chunk size of the write-back and
      the number of its statements that succeed. */
  datatype Cycle = Cycle(batch: seq<string>, reply: UploadReply, chunk: nat, failAt: nat)

  /** How many of the accepted serials the write-back reaches. */
  function Reaches(writeBack: bool, accepted: seq<string>, chunk: nat, failAt: nat): (n: nat)
    ensures n <= |accepted|
  {
    if writeBack then Min(|accepted|, failAt * chunk) else 0
  }

  /** What a cycle does to the table: a refused batch writes nothing; else the accepted serials
      are marked as far as the write-back reaches. */
  function After(rows: Rows, writeBack: bool, c: Cycle): Rows {
    if c.batch == [] || c.reply.Refused? then rows
    else
      var accepted := AcceptedSerials(c.batch, c.reply);
      MarkSet(rows, Elements(accepted[..Reaches(writeBack, accepted, c.chunk, c.failAt)]))
  }

  lemma MarkNone(rows: Rows)
    ensures MarkSet(rows, Elements([])) == rows
  {
  }

  class Source {
    const writeBack: bool
    var rows: Rows

    constructor (initial: Rows, enabled: bool)
      ensures rows == initial && writeBack == enabled
    {
      rows, writeBack := initial, enabled;
    }

    /** Write-back in chunks; statement number `failAt` and later ones fail. The whole loop is
        one set update, and a failure part-way has marked just a prefix, whole chunks of it. */
    method MarkUploaded(serials: seq<string>, chunk: nat, failAt: nat) returns (ok: bool)
      requires chunk > 0
      modifies this
      ensures rows == MarkSet(old(rows), Elements(serials[..Reaches(writeBack, serials, chunk, failAt)]))
      ensures writeBack && ok ==> rows == MarkSet(old(rows), Elements(serials))
      ensures ok <==> !writeBack || |serials| <= failAt * chunk
    {
      MarkNone(rows);
      if serials == [] || !writeBack {
        assert serials[..0] == [];
        return true;
      }
      var marked, statement := 0, 0;
      assert serials[..0] == [];
      while marked < |serials|
        invariant marked <= |serials| && statement <= failAt
        invariant marked == Min(|serials|, statement * chunk)
        invariant rows == MarkSet(old(rows), Elements(serials[..marked]))
      {
        if statement == failAt { return false; }
        var end := if marked + chunk > |serials| then |serials| else marked + chunk;
        MarkChunk(old(rows), serials, marked, end);
        rows := MarkSet(rows, Elements(serials[marked..end]));
        assert (statement + 1) * chunk == statement * chunk + chunk;
        statement, marked := statement + 1, end;
      }
      Monotone(statement, failAt, chunk);
      assert serials[..|serials|] == serials;
      ok := true;
    }

    /** `sync_once`, with every reply, and whether write-back is on or breaks off part-way. */
    method SyncOnce(c: Cycle) returns (ok: bool)
      requires c.chunk > 0
      modifies this
      ensures rows == After(old(rows), writeBack, c)
      ensures ok ==> c.batch == [] || c.reply.Answer?
    {
      if c.batch == [] { return true; }
      if c.reply.Refused? { return false; }
      var accepted := AcceptedSerials(c.batch, c.reply);
      if accepted == [] {
        MarkNone(rows);
        assert accepted[..0] == [];
        return true;
      }
      ok := MarkUploaded(accepted, c.chunk, c.failAt);
    }
  }

  lemma MarkChunk(rows: Rows, serials: seq<string>, i: nat, j: nat)
    requires i <= j <= |serials|
    ensures MarkSet(MarkSet(rows, Elements(serials[..i])), Elements(serials[i..j])) == MarkSet(rows, Elements(serials[..j]))
  {
    assert serials[..j] == serials[..i] + serials[i..j];
    assert Elements(serials[..j]) == Elements(serials[..i]) + Elements(serials[i..j]);
    MarkUnion(rows, Elements(serials[..i]), Elements(serials[i..j]));
  }

  lemma Monotone(a: nat, b: nat, c: nat)
    requires a <= b
    ensures a * c <= b * c
  {
  }

  // ----------------------------------------------------------------- drain

  function Run(rows: Rows, writeBack: bool, cycles: seq<Cycle>): Rows {
    if cycles == [] then rows
    else After(Run(rows, writeBack, cycles[..|cycles| - 1]), writeBack, cycles[|cycles| - 1])
  }

  /** Each batch is what the fetch answered just before its cycle. */
  ghost predicate IsRun(rows: Rows, writeBack: bool, cycles: seq<Cycle>, limit: nat) {
    cycles == [] ||
    var n := |cycles| - 1;
    IsRun(rows, writeBack, cycles[..n], limit) && FetchAnswer(Run(rows, writeBack, cycles[..n]), limit, cycles[n].batch)
  }

  /** The peer accepts the whole batch and the write-back does not break off. */
  predicate AcceptsAll(c: Cycle) {
    && c.reply.Answer? && c.reply.failed == [] && (c.reply.accepted == [] || c.reply.accepted == c.batch)
    && |c.batch| <= c.failAt * c.chunk
  }

  /** The two kinds of answer by which a peer accepts a whole batch. */
  lemma WholeAccepted(batch: seq<string>, chunk: nat, failAt: nat)
    requires |batch| <= failAt * chunk
    ensures AcceptsAll(Cycle(batch, Answer([], []), chunk, failAt)) && AcceptsAll(Cycle(batch, Answer(batch, []), chunk, failAt))
  {
  }

  lemma RunGoesOn(rows: Rows, writeBack: bool, cycles: seq<Cycle>, limit: nat, c: Cycle)
    requires IsRun(rows, writeBack, cycles, limit) && FetchAnswer(Run(rows, writeBack, cycles), limit, c.batch)
    ensures IsRun(rows, writeBack, cycles + [c], limit)
    ensures Run(rows, writeBack, cycles + [c]) == After(Run(rows, writeBack, cycles), writeBack, c)
  {
    assert (cycles + [c])[..|cycles|] == cycles;
  }

  lemma CycleDrains(rows: Rows, c: Cycle, limit: nat)
    requires FetchAnswer(rows, limit, c.batch) && AcceptsAll(c)
    ensures |Pending(After(rows, true, c))| == Max(0, |Pending(rows)| - limit)
  {
    var sent := Elements(c.batch);
    assert c.batch[..|c.batch|] == c.batch;
    MarkNone(rows);
    assert After(rows, true, c) == MarkSet(rows, sent);
    assert Pending(MarkSet(rows, sent)) == Pending(rows) - sent;
    DistinctSize(c.batch);
    assert |Pending(rows)| == |Pending(rows) - sent| + |sent|;
  }

  /** With write-back on and a peer that accepts whole batches, the backlog is gone after exactly
      the rounded-up quotient of cycles. */
  lemma {:induction false} SourceDrains(rows: Rows, cycles: seq<Cycle>, limit: nat)
    requires IsRun(rows, true, cycles, limit) && forall i :: 0 <= i < |cycles| ==> AcceptsAll(cycles[i])
    ensures |Pending(Run(rows, true, cycles))| == Drain.Remaining(|Pending(rows)|, limit, |cycles|)
    ensures limit >= 1 ==> (Pending(Run(rows, true, cycles)) == {} <==> (|Pending(rows)| + limit - 1) / limit <= |cycles|)
  {
    if cycles != [] {
      var n := |cycles| - 1;
      SourceDrains(rows, cycles[..n], limit);
      CycleDrains(Run(rows, true, cycles[..n]), cycles[n], limit);
    }
    if limit >= 1 { Drain.EmptyAfter(|Pending(rows)|, limit, |cycles|); }
  }

  /** With write-back off no run changes the table, so the same rows are uploaded for ever. */
  lemma {:induction false} NothingDrains(rows: Rows, cycles: seq<Cycle>)
    ensures Run(rows, false, cycles) == rows
  {
    if cycles != [] {
      NothingDrains(rows, cycles[..|cycles| - 1]);
      MarkNone(rows);
      var last := cycles[|cycles| - 1];
      if last.reply.Answer? { assert AcceptedSerials(last.batch, last.reply)[..0] == []; }
    }
  }

  // ---------------------------------------------------------- reply and batch

  /** The serials a cycle writes back. */
  function Written(writeBack: bool, c: Cycle): seq<string> {
    if c.batch == [] || c.reply.Refused? then []
    else
      var accepted := AcceptedSerials(c.batch, c.reply);
      accepted[..Reaches(writeBack, accepted, c.chunk, c.failAt)]
  }

  lemma AfterRow(rows: Rows, writeBack: bool, c: Cycle, k: string)
    requires k in rows
    ensures k in After(rows, writeBack, c)
    ensures After(rows, writeBack, c)[k] == if k in Written(writeBack, c) then rows[k].(uploaded := true) else rows[k]
  {
  }

  /** Which serials a cycle marks: those the answer accepts, or the whole batch when it names
      nobody; none when it only rejects or the upload failed; of a long list the first chunks
      that could be written. */
  lemma WrittenIs(c: Cycle)
    ensures c.reply.Refused? ==> Written(true, c) == []
    ensures Written(false, c) == []
    ensures c.batch != [] && c.reply.Answer? ==>
              var named := if c.reply.accepted == [] && c.reply.failed == [] then c.batch else c.reply.accepted;
              && (c.reply.accepted == [] && c.reply.failed != [] ==> Written(true, c) == [])
              && (|named| <= c.failAt * c.chunk ==> Written(true, c) == named)
              && (|named| > c.failAt * c.chunk ==> Written(true, c) == named[..c.failAt * c.chunk])
  {
  }

  /** The engine does not check the reply's serials. A cycle marks rows of its batch only, exactly
      when it writes back no other row that is not marked already. */
  lemma MarksOnlyBatchIff(rows: Rows, writeBack: bool, c: Cycle)
    ensures (forall k :: k in rows && k !in c.batch ==> k in After(rows, writeBack, c) && After(rows, writeBack, c)[k] == rows[k]) <==>
            (forall k :: k in rows && k !in c.batch && k in Written(writeBack, c) ==> rows[k].uploaded)
  {
    forall k | k in rows ensures k in After(rows, writeBack, c) &&
        (After(rows, writeBack, c)[k] == rows[k] <==> (k in Written(writeBack, c) ==> rows[k].uploaded))
    {
      AfterRow(rows, writeBack, c, k);
    }
  }

  /** A reply to a fetched batch that accepts a serial outside it marks a row never sent. */
  lemma StrayAcceptanceMarks(rows: Rows, k: string, other: string, chunk: nat, failAt: nat)
    requires k in Pending(rows) && k != other && FetchAnswer(rows, 1, [other]) && failAt > 0 && chunk > 0
    ensures var after := After(rows, true, Cycle([other], Answer([k], []), chunk, failAt));
      k in after && after[k].uploaded && other in after && after[other] == rows[other]
  {
    var c := Cycle([other], Answer([k], []), chunk, failAt);
    assert other in Elements([other]);
    Monotone(1, failAt, chunk);
    assert 1 * chunk == chunk && Reaches(true, [k], chunk, failAt) == 1;
    assert Written(true, c) == [k];
    AfterRow(rows, true, c, k);
    AfterRow(rows, true, c, other);
  }

  predicate WellAnswered(c: Cycle) { c.reply.Answer? ==> forall k :: k in c.reply.accepted ==> k in c.batch }

  /** A reply that accepts part of the batch, or any that refuses it, is well answered. */
  lemma PartIsWell(c: Cycle, i: nat, j: nat, failed: seq<string>, error: string)
    requires i <= j <= |c.batch|
    ensures WellAnswered(c.(reply := Answer(c.batch[i..j], failed))) && WellAnswered(c.(reply := Refused(error)))
  {
  }

  /** When replies accept only what was sent, a row that became marked was in an answered batch. */
  lemma {:induction false} MarkedWasUploaded(rows: Rows, writeBack: bool, cycles: seq<Cycle>, k: string) returns (i: nat)
    requires forall i :: 0 <= i < |cycles| ==> WellAnswered(cycles[i])
    requires k in rows && !rows[k].uploaded
    requires k in Run(rows, writeBack, cycles) && Run(rows, writeBack, cycles)[k].uploaded
    ensures i < |cycles| && k in cycles[i].batch && cycles[i].reply.Answer?
    decreases |cycles|
  {
    var n := |cycles| - 1;
    var before := Run(rows, writeBack, cycles[..n]);
    RunKeys(rows, writeBack, cycles[..n]);
    if before[k].uploaded {
      i := MarkedWasUploaded(rows, writeBack, cycles[..n], k);
    } else {
      AfterRow(before, writeBack, cycles[n], k);
      i := n;
    }
  }

  lemma {:induction false} RunKeys(rows: Rows, writeBack: bool, cycles: seq<Cycle>)
    ensures Run(rows, writeBack, cycles).Keys == rows.Keys
  {
    if cycles != [] { RunKeys(rows, writeBack, cycles[..|cycles| - 1]); }
  }
}
