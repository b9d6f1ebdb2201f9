/** C, the receiver: the record table, the chunked transactional upsert, the newest-first
    query and the age-guarded delete. */
module Receiver {
  import opened Text
  import opened Timestamps
  import opened Ordering
  import opened Records

  /** Settings and environment. `skipOnConflict` and `skipOnRollback` say whether the
      database burns an id on a conflicting insert and on an aborted transaction; the two
      supported drivers differ there and no result below depends on the answer. `redecode` is
      what a query makes of a stored document: it decodes the text with numbers as 64-bit
      floats and encodes it again, so numbers may come out changed; None is a document whose
      numbers do not fit, which is answered as a string and not as an object. */
  datatype Config = Config(
    storeRaw: bool,
    minDeleteAge: nat,
    skipOnConflict: bool,
    skipOnRollback: bool,
    parseTime: string -> Option<Instant>,
    redecode: Record -> Option<Record>)

  datatype Content = Content(
    entityType: string, keyType: string, serialNo: string, plateNo: string,
    sourceTime: Option<Instant>, source: string, database: string, sourceTable: string,
    raw: Option<Record>)

  datatype Row = Row(id: nat, content: Content, uploadedAt: Option<Instant>, ingestedAt: Instant, cloudUpdatedAt: Instant)

  /** `rows` has one row per record key; `nextId` is the AUTOINCREMENT counter. */
  datatype Table = Table(rows: map<string, Row>, nextId: nat)

  /** One record of a payload with what the handler adds to it: the payload's origin and
      upload time, and the clock reading taken when the record's turn comes. */
  datatype Item = Item(
    source: string, database: string, entityType: string, sourceTable: string,
    record: Record, uploadedAt: Option<Instant>, now: Instant)

  // ----------------------------------------------------- one record at a time

  const TIME_NAMES := ["updateTime", "secondTime", "firstTime", "tareTime", "grossTime", "measured_at", "measuredAt"]
  const PLATE_NAMES := ["plateNo", "plate_no", "plateNumber", "plate_number"]

  function ParseAnyTime(cfg: Config, r: Record, name: string): Option<Instant> {
    if name !in r then None
    else match r[name]
      case Str(s) => if Trim(s) == "" then None else cfg.parseTime(Trim(s))
      case Num(s) => if s == "" then None else cfg.parseTime(s)
      case _ => None
  }

  function FirstTime(cfg: Config, r: Record, names: seq<string>): Option<Instant> {
    if names == [] then None
    else
      var t := ParseAnyTime(cfg, r, names[0]);
      if t.Some? then t else FirstTime(cfg, r, names[1..])
  }

  /** The member of this name is a time the receiver can read: a string that is not blank, or a
      number, that `parseTime` accepts. */
  predicate ReadsAs(cfg: Config, r: Record, name: string, t: Instant) {
    name in r &&
    match r[name]
    case Str(s) => Trim(s) != "" && cfg.parseTime(Trim(s)) == Some(t)
    case Num(s) => s != "" && cfg.parseTime(s) == Some(t)
    case _ => false
  }

  ghost predicate Unreadable(cfg: Config, r: Record, name: string) { forall t :: !ReadsAs(cfg, r, name, t) }

  lemma {:induction false} FirstTimeIs(cfg: Config, r: Record, names: seq<string>) returns (i: nat)
    ensures i <= |names| && forall j :: 0 <= j < i ==> Unreadable(cfg, r, names[j])
    ensures i == |names| ==> FirstTime(cfg, r, names) == None
    ensures i < |names| ==> FirstTime(cfg, r, names).Some? && ReadsAs(cfg, r, names[i], FirstTime(cfg, r, names).value)
  {
    i := 0;
    if names != [] && ParseAnyTime(cfg, r, names[0]).None? {
      var n := FirstTimeIs(cfg, r, names[1..]);
      i := n + 1;
      forall j | 0 <= j < i ensures Unreadable(cfg, r, names[j]) { if j > 0 { assert names[j] == names[1..][j - 1]; } }
    }
  }

  datatype Verdict = Accepted(key: string, content: Content) | Rejected(key: string)

  /** Whether a record is stored, and as what. */
  function Classify(cfg: Config, item: Item): Verdict {
    var (keyType, rawKey) := ExtractRecordKey(item.entityType, item.record);
    var key := RecordKey(item.entityType, rawKey);
    if rawKey == "" then Rejected("")
    else if cfg.storeRaw && !Encodable(item.record) then Rejected(key)
    else Accepted(key, Content(
      item.entityType, keyType, ExtractString(item.record, SERIAL_NAMES), ExtractString(item.record, PLATE_NAMES),
      FirstTime(cfg, item.record, TIME_NAMES), item.source, item.database, item.sourceTable,
      if cfg.storeRaw then Some(item.record) else None))
  }

  /** When a record is accepted, under which key, and what of it and of the payload is stored. */
  lemma ClassifyIs(cfg: Config, item: Item)
    ensures var v, (keyType, rawKey), r := Classify(cfg, item), ExtractRecordKey(item.entityType, item.record), item.record;
      && (v.Accepted? <==> rawKey != "" && (cfg.storeRaw ==> forall name :: name in r ==> r[name] != Opaque(false)))
      && (v.Rejected? ==> v.key == if rawKey == "" then "" else item.entityType + (":" + rawKey))
      && (v.Accepted? ==>
            && v.key == item.entityType + (":" + rawKey)
            && v.content.entityType == item.entityType && v.content.keyType == keyType
            && v.content.serialNo == ExtractString(r, ["serialNo", "serial_no"])
            && v.content.plateNo == ExtractString(r, ["plateNo", "plate_no", "plateNumber", "plate_number"])
            && v.content.source == item.source && v.content.database == item.database
            && v.content.sourceTable == item.sourceTable
            && v.content.raw == if cfg.storeRaw then Some(r) else None)
  {
  }

  /** Its source time is the first of these members, in this order, that can be read, and there is
      none if and only if none of them can. */
  lemma SourceTimeIs(cfg: Config, item: Item) returns (i: nat)
    requires Classify(cfg, item).Accepted?
    ensures var names, time := ["updateTime", "secondTime", "firstTime", "tareTime", "grossTime", "measured_at", "measuredAt"],
                               Classify(cfg, item).content.sourceTime;
      && i <= 7 && (forall j :: 0 <= j < i ==> Unreadable(cfg, item.record, names[j]))
      && (time.None? <==> i == 7)
      && (i < 7 ==> ReadsAs(cfg, item.record, names[i], time.value))
  {
    i := FirstTimeIs(cfg, item.record, TIME_NAMES);
  }

  /** One row of the multi-row INSERT. */
  datatype Values = Values(key: string, content: Content, uploadedAt: Option<Instant>, now: Instant)

  /** INSERT ... ON CONFLICT(record_key) DO UPDATE: an existing row keeps its id and its
      ingestion time. */
  function UpsertOne(cfg: Config, t: Table, v: Values): Table {
    if v.key in t.rows then
      Table(t.rows[v.key := t.rows[v.key].(content := v.content, uploadedAt := v.uploadedAt, cloudUpdatedAt := v.now)],
            if cfg.skipOnConflict then t.nextId + 1 else t.nextId)
    else
      Table(t.rows[v.key := Row(t.nextId, v.content, v.uploadedAt, v.now, v.now)], t.nextId + 1)
  }

  /** Which id the row gets and what becomes of the counter: a new row takes the next value; a
      conflicting one keeps its id, and burns a value where the database does so. */
  lemma UpsertIdIs(cfg: Config, t: Table, v: Values)
    ensures var u := UpsertOne(cfg, t, v);
      && v.key in u.rows
      && (v.key !in t.rows ==> u.rows[v.key].id == t.nextId && u.nextId == t.nextId + 1)
      && (v.key in t.rows ==> u.rows[v.key].id == t.rows[v.key].id)
      && (v.key in t.rows ==> u.nextId == t.nextId + if cfg.skipOnConflict then 1 else 0)
  {
  }

  /** A multi-row INSERT applies its rows in order. */
  function ExecUpsert(cfg: Config, t: Table, values: seq<Values>): Table {
    if values == [] then t
    else UpsertOne(cfg, ExecUpsert(cfg, t, values[..|values| - 1]), values[|values| - 1])
  }

  function ApplyItem(cfg: Config, t: Table, item: Item): Table {
    match Classify(cfg, item)
    case Accepted(key, content) => UpsertOne(cfg, t, Values(key, content, item.uploadedAt, item.now))
    case Rejected(_) => t
  }

  /** The simple form: one upsert per record, in payload order. */
  function ApplyAll(cfg: Config, t: Table, items: seq<Item>): Table {
    if items == [] then t
    else ApplyItem(cfg, ApplyAll(cfg, t, items[..|items| - 1]), items[|items| - 1])
  }

  function AcceptedKeys(cfg: Config, items: seq<Item>): seq<string> {
    if items == [] then []
    else
      var rest := AcceptedKeys(cfg, items[..|items| - 1]);
      var v := Classify(cfg, items[|items| - 1]);
      if v.Accepted? then rest + [v.key] else rest
  }

  function FailedKeys(cfg: Config, items: seq<Item>): seq<string> {
    if items == [] then []
    else
      var rest := FailedKeys(cfg, items[..|items| - 1]);
      var v := Classify(cfg, items[|items| - 1]);
      if v.Rejected? then rest + [v.key] else rest
  }

  lemma {:induction false} ApplyAllConcat(cfg: Config, t: Table, a: seq<Item>, b: seq<Item>)
    ensures ApplyAll(cfg, t, a + b) == ApplyAll(cfg, ApplyAll(cfg, t, a), b)
    ensures AcceptedKeys(cfg, a + b) == AcceptedKeys(cfg, a) + AcceptedKeys(cfg, b)
    ensures FailedKeys(cfg, a + b) == FailedKeys(cfg, a) + FailedKeys(cfg, b)
  {
    if b == [] {
      assert a + b == a;
    } else {
      var c := b[..|b| - 1];
      assert (a + b)[..|a + b| - 1] == a + c;
      ApplyAllConcat(cfg, t, a, c);
    }
  }

  /** What one record contributes to the answer. */
  lemma OneAnswer(cfg: Config, item: Item)
    ensures AcceptedKeys(cfg, [item]) == if Classify(cfg, item).Accepted? then [Classify(cfg, item).key] else []
    ensures FailedKeys(cfg, [item]) == if Classify(cfg, item).Accepted? then [] else [Classify(cfg, item).key]
  {
    assert [item][..0] == [] && AcceptedKeys(cfg, []) == [] && FailedKeys(cfg, []) == [];
  }

  // ------------------------------------------------------------------ payload

  datatype Payload = Payload(
    source: string, database: string, uploadedAt: Option<Instant>,
    records: seq<Record>, weightInfo: seq<Record>, weightPhoto: seq<Record>)

  function Fallback(value: string, otherwise: string): string {
    if Trim(value) == "" then otherwise else Trim(value)
  }

  function NormalizedWeightInfo(p: Payload): seq<Record> {
    if |p.weightInfo| > 0 then p.weightInfo else p.records
  }

  datatype EntityBatch = EntityBatch(entityType: string, sourceTable: string, records: seq<Record>)

  function EntityRecords(p: Payload): seq<EntityBatch> {
    [EntityBatch(INFO, "tbl_weightInfo", NormalizedWeightInfo(p)),
     EntityBatch(PHOTO, "tbl_weightPhoto", p.weightPhoto)]
  }

  function RecordCount(p: Payload): nat { |NormalizedWeightInfo(p)| + |p.weightPhoto| }

  function BatchItems(p: Payload, b: EntityBatch, clock: seq<Instant>): (items: seq<Item>)
    requires |clock| == |b.records|
    ensures |items| == |clock|
  {
    seq(|clock|, i requires 0 <= i < |clock| =>
      Item(Fallback(p.source, "unknown"), Fallback(p.database, "unknown"), b.entityType, b.sourceTable,
           b.records[i], p.uploadedAt, clock[i]))
  }

  /** All records of a payload in handling order, information rows before photos;
      `clock` holds one reading per record. */
  function Items(p: Payload, clock: seq<Instant>): (items: seq<Item>)
    requires |clock| == RecordCount(p)
    ensures |items| == |clock|
  {
    var n := |NormalizedWeightInfo(p)|;
    BatchItems(p, EntityRecords(p)[0], clock[..n]) + BatchItems(p, EntityRecords(p)[1], clock[n..])
  }

  /** What the handler makes of the records: information rows first, `records` standing in when
      there are no others, then photos, each with the payload's origin and its own clock reading. */
  lemma ItemsAre(p: Payload, clock: seq<Instant>, i: nat)
    requires |clock| == RecordCount(p) && i < |clock|
    ensures var item, rows := Items(p, clock)[i], if p.weightInfo == [] then p.records else p.weightInfo;
      && |clock| == |rows| + |p.weightPhoto|
      && item.now == clock[i] && item.uploadedAt == p.uploadedAt
      && item.source == (if Trim(p.source) == "" then "unknown" else Trim(p.source))
      && item.database == (if Trim(p.database) == "" then "unknown" else Trim(p.database))
      && (i < |rows| ==>
            item.record == rows[i] && item.entityType == "weight_info" && item.sourceTable == "tbl_weightInfo")
      && (i >= |rows| ==>
            item.record == p.weightPhoto[i - |rows|] && item.entityType == "weight_photo" && item.sourceTable == "tbl_weightPhoto")
  {
    var batches, n := EntityRecords(p), |NormalizedWeightInfo(p)|;
    var b := if i < n then batches[0] else batches[1];
    assert Items(p, clock)[i] == Item(Fallback(p.source, "unknown"), Fallback(p.database, "unknown"), b.entityType, b.sourceTable,
                                      b.records[if i < n then i else i - n], p.uploadedAt, clock[i]);
  }

  lemma ChunkStep(cfg: Config, p: Payload, t: Table, b: EntityBatch, clock: seq<Instant>, start: nat, end: nat)
    requires |clock| == |b.records| && start <= end <= |clock|
    ensures var items, part := BatchItems(p, b, clock),
                               BatchItems(p, b.(records := b.records[start..end]), clock[start..end]);
      && ApplyAll(cfg, t, items[..end]) == ApplyAll(cfg, ApplyAll(cfg, t, items[..start]), part)
      && AcceptedKeys(cfg, items[..end]) == AcceptedKeys(cfg, items[..start]) + AcceptedKeys(cfg, part)
      && FailedKeys(cfg, items[..end]) == FailedKeys(cfg, items[..start]) + FailedKeys(cfg, part)
  {
    var items := BatchItems(p, b, clock);
    var part := BatchItems(p, b.(records := b.records[start..end]), clock[start..end]);
    assert items[..end] == items[..start] + part;
    ApplyAllConcat(cfg, t, items[..start], part);
  }

  datatype BatchRow = BatchRow(recordsCount: nat, acceptedCount: nat, failedCount: nat)

  datatype Outcome = Committed(accepted: seq<string>, failed: seq<string>) | Aborted

  class Server {
    var table: Table
    var batches: map<string, BatchRow>

    constructor ()
      ensures table == Table(map[], 1) && batches == map[]
    {
      table := Table(map[], 1);
      batches := map[];
    }

    /** One chunk: collect the accepted rows, then run one multi-row INSERT on the staged
        table; `fails` is the database refusing the statement. */
    static method UpsertRecords(cfg: Config, p: Payload, staged: Table, b: EntityBatch, clock: seq<Instant>, fails: bool)
      returns (next: Option<Table>, accepted: seq<string>, failed: seq<string>)
      requires |clock| == |b.records|
      ensures next.Some? ==>
                && next.value == ApplyAll(cfg, staged, BatchItems(p, b, clock))
                && accepted == AcceptedKeys(cfg, BatchItems(p, b, clock))
                && failed == FailedKeys(cfg, BatchItems(p, b, clock))
      ensures !fails ==> next.Some?
    {
      ghost var items := BatchItems(p, b, clock);
      var values: seq<Values> := [];
      accepted, failed := [], [];
      for i := 0 to |b.records|
        invariant ExecUpsert(cfg, staged, values) == ApplyAll(cfg, staged, items[..i])
        invariant accepted == AcceptedKeys(cfg, items[..i])
        invariant failed == FailedKeys(cfg, items[..i])
      {
        var item := Item(Fallback(p.source, "unknown"), Fallback(p.database, "unknown"), b.entityType, b.sourceTable,
                         b.records[i], p.uploadedAt, clock[i]);
        assert items[..i + 1][..i] == items[..i] && items[i] == item;
        match Classify(cfg, item) {
          case Accepted(key, content) =>
            var v := Values(key, content, item.uploadedAt, item.now);
            assert (values + [v])[..|values|] == values;
            values := values + [v];
            accepted := accepted + [key];
          case Rejected(key) =>
            failed := failed + [key];
        }
      }
      assert items[..|items|] == items;
      if values == [] {
        next := Some(staged);
      } else if fails {
        next, accepted, failed := None, [], [];
      } else {
        next := Some(ExecUpsert(cfg, staged, values));
      }
    }

    /** All chunks of one entity batch; `faults` numbers the statements the database refuses. */
    static method InsertBatch(cfg: Config, p: Payload, staged: Table, b: EntityBatch, clock: seq<Instant>,
                              chunk: nat, faults: set<nat>, statement: nat)
      returns (next: Option<Table>, accepted: seq<string>, failed: seq<string>, executed: nat)
      requires |clock| == |b.records| && chunk > 0
      ensures next.Some? ==>
                && next.value == ApplyAll(cfg, staged, BatchItems(p, b, clock))
                && accepted == AcceptedKeys(cfg, BatchItems(p, b, clock))
                && failed == FailedKeys(cfg, BatchItems(p, b, clock))
      ensures faults == {} ==> next.Some?
    {
      ghost var items := BatchItems(p, b, clock);
      var current := staged;
      accepted, failed, executed := [], [], statement;
      var start := 0;
      while start < |b.records|
        invariant 0 <= start <= |b.records|
        invariant current == ApplyAll(cfg, staged, items[..start])
        invariant accepted == AcceptedKeys(cfg, items[..start])
        invariant failed == FailedKeys(cfg, items[..start])
      {
        var end := if start + chunk > |b.records| then |b.records| else start + chunk;
        var part := b.(records := b.records[start..end]);
        var done, a, f := UpsertRecords(cfg, p, current, part, clock[start..end], executed in faults);
        executed := executed + 1;
        if done.None? {
          return None, [], [], executed;
        }
        ChunkStep(cfg, p, staged, b, clock, start, end);
        current, accepted, failed, start := done.value, accepted + a, failed + f, end;
      }
      assert items[..|items|] == items;
      next := Some(current);
    }

    /** The upload transaction. Whatever the chunk size, a commit leaves the table as the
        one-by-one form does and records the counts; any refused statement leaves every
        row as it was. */
    method InsertPayload(cfg: Config, requestId: string, p: Payload, clock: seq<Instant>, chunk: nat, faults: set<nat>)
      returns (outcome: Outcome)
      requires |clock| == RecordCount(p) && chunk > 0
      modifies this
      ensures faults == {} ==> outcome.Committed?
      ensures outcome.Committed? ==>
                && table == ApplyAll(cfg, old(table), Items(p, clock))
                && outcome.accepted == AcceptedKeys(cfg, Items(p, clock))
                && outcome.failed == FailedKeys(cfg, Items(p, clock))
                && RowsCommitted(cfg, old(table), Items(p, clock), table)
                && batches == old(batches)[requestId := BatchRow(RecordCount(p), |outcome.accepted|, |outcome.failed|)]
      ensures outcome.Aborted? ==>
                && table.rows == old(table).rows && batches == old(batches)
                && (!cfg.skipOnRollback ==> table == old(table))
      ensures table.nextId >= old(table).nextId
    {
      var staged := table;
      if 0 in faults { return Aborted; }
      var entities := EntityRecords(p);
      var n := |entities[0].records|;
      ghost var info := BatchItems(p, entities[0], clock[..n]);
      ghost var photo := BatchItems(p, entities[1], clock[n..]);
      ApplyAllConcat(cfg, table, info, photo);
      ApplyAllIds(cfg, table, info);
      ApplyAllIds(cfg, table, info + photo);

      var first, a1, f1, k1 := InsertBatch(cfg, p, staged, entities[0], clock[..n], chunk, faults, 1);
      if first.None? { return Aborted; }
      var second, a2, f2, k2 := InsertBatch(cfg, p, first.value, entities[1], clock[n..], chunk, faults, k1);
      if second.None? || k2 in faults || k2 + 1 in faults {
        var burned := if second.None? then first.value.nextId else second.value.nextId;
        table := Table(table.rows, if cfg.skipOnRollback then burned else table.nextId);
        return Aborted;
      }
      table := second.value;
      EveryRowCommitted(cfg, old(table), Items(p, clock));
      batches := batches[requestId := BatchRow(RecordCount(p), |a1 + a2|, |f1 + f2|)];
      outcome := Committed(a1 + a2, f1 + f2);
    }

    /** DELETE by id. Only a row with that id goes, and only when its effective time is before
        the cutoff plus one second; it does go when its whole second is before the cutoff's.
        All other rows stay as they are, and the answer says whether one went. */
    method DeleteRecord(id: nat, cutoff: Instant) returns (deleted: bool)
      modifies this`table
      ensures table == DeleteById(old(table), id, cutoff) && table.nextId == old(table).nextId
      ensures forall k :: k in table.rows ==> k in old(table).rows && table.rows[k] == old(table).rows[k]
      ensures forall k :: k in old(table).rows && k !in table.rows ==>
                old(table).rows[k].id == id && Effective(old(table).rows[k]) < cutoff + SECOND
      ensures forall k :: k in old(table).rows && old(table).rows[k].id == id && k in table.rows ==>
                Effective(old(table).rows[k]) / SECOND >= cutoff / SECOND
      ensures deleted <==> table.rows != old(table).rows
    {
      var before := table;
      table := DeleteById(before, id, cutoff);
      deleted := exists k :: k in before.rows && k !in table.rows;
      forall k | k in before.rows
        ensures k !in table.rows ==> before.rows[k].id == id && Effective(before.rows[k]) < cutoff + SECOND
        ensures before.rows[k].id == id && Effective(before.rows[k]) / SECOND < cutoff / SECOND ==> k !in table.rows
      {
        RetentionBound(before.rows[k], cutoff, 0);
      }
    }
  }

  // -------------------------------------------------------------- the reply

  datatype UploadResponse = UploadResponse(
    acceptedKeys: seq<string>, failedKeys: seq<string>, acceptedSerials: seq<string>, failedSerials: seq<string>)

  function AcceptedSerials(records: seq<Record>, accepted: seq<string>): seq<string> {
    if records == [] then []
    else
      var rest := AcceptedSerials(records[..|records| - 1], accepted);
      var r := records[|records| - 1];
      var serial := ExtractString(r, SERIAL_NAMES);
      if RecordKey(INFO, ExtractRecordKey(INFO, r).1) in accepted && serial != "" then rest + [serial] else rest
  }

  /** What the handler answers after a commit. */
  function Reply(cfg: Config, p: Payload, clock: seq<Instant>): UploadResponse
    requires |clock| == RecordCount(p)
  {
    var items := Items(p, clock);
    UploadResponse(AcceptedKeys(cfg, items), FailedKeys(cfg, items),
                   AcceptedSerials(NormalizedWeightInfo(p), AcceptedKeys(cfg, items)), [])
  }

  /** The serial numbers of the accepted information records, all of them and in order. */
  lemma {:induction false} SerialsListed(records: seq<Record>, accepted: seq<string>, r: Record)
    requires r in records && ExtractString(r, ["serialNo", "serial_no"]) != ""
    requires "weight_info:" + ExtractString(r, ["serialNo", "serial_no"]) in accepted
    ensures ExtractString(r, ["serialNo", "serial_no"]) in AcceptedSerials(records, accepted)
  {
    var n := |records| - 1;
    if r == records[n] {
      var serial := ExtractString(r, ["serialNo", "serial_no"]);
      ExtractRecordKeyIs(INFO, r);
      assert RecordKey(INFO, serial) == "weight_info:" + serial;
    } else {
      assert r in records[..n];
      SerialsListed(records[..n], accepted, r);
    }
  }

  lemma {:induction false} SerialsConcat(a: seq<Record>, b: seq<Record>, accepted: seq<string>)
    ensures AcceptedSerials(a + b, accepted) == AcceptedSerials(a, accepted) + AcceptedSerials(b, accepted)
  {
    if b == [] {
      assert a + b == a;
    } else {
      var c := b[..|b| - 1];
      assert (a + b)[..|a + b| - 1] == a + c;
      SerialsConcat(a, c, accepted);
    }
  }

  lemma {:induction false} SerialsAreAccepted(records: seq<Record>, accepted: seq<string>, serial: string)
    requires serial in AcceptedSerials(records, accepted)
    ensures RecordKey(INFO, serial) in accepted
  {
    var rest := records[..|records| - 1];
    var r := records[|records| - 1];
    if serial in AcceptedSerials(rest, accepted) {
      SerialsAreAccepted(rest, accepted, serial);
    } else {
      assert Candidates(INFO)[0] == ("serialNo", SERIAL_NAMES);
      assert ExtractRecordKey(INFO, r).1 == ExtractString(r, SERIAL_NAMES) == serial;
    }
  }

  /** The reply lists the serial number of every information record it accepts, and no failed ones. */
  lemma ReplyLists(cfg: Config, p: Payload, clock: seq<Instant>, r: Record)
    requires |clock| == RecordCount(p)
    ensures var response, serial := Reply(cfg, p, clock), ExtractString(r, ["serialNo", "serial_no"]);
      && response.failedSerials == []
      && ((r in (if p.weightInfo == [] then p.records else p.weightInfo) && serial != "" &&
           "weight_info:" + serial in response.acceptedKeys) ==> serial in response.acceptedSerials)
  {
    var response, serial := Reply(cfg, p, clock), ExtractString(r, ["serialNo", "serial_no"]);
    if r in NormalizedWeightInfo(p) && serial != "" && "weight_info:" + serial in response.acceptedKeys {
      SerialsListed(NormalizedWeightInfo(p), response.acceptedKeys, r);
    }
  }

  /** A reply names only keys the commit stored, answers every record, and is never empty
      for a payload that carries records. */
  lemma ReplyIsHonest(cfg: Config, t: Table, p: Payload, clock: seq<Instant>, key: string)
    requires |clock| == RecordCount(p)
    ensures var r := Reply(cfg, p, clock);
      && (key in r.acceptedKeys ==> key in ApplyAll(cfg, t, Items(p, clock)).rows)
      && (forall s :: s in r.acceptedSerials && key == RecordKey(INFO, s) ==> key in r.acceptedKeys)
      && |r.acceptedKeys| + |r.failedKeys| == RecordCount(p)
  {
    var r := Reply(cfg, p, clock);
    AllAnswered(cfg, Items(p, clock));
    AcceptedIsStored(cfg, Items(p, clock), key);
    ApplyAllRow(cfg, t, Items(p, clock), key);
    forall s | s in r.acceptedSerials && key == RecordKey(INFO, s) ensures key in r.acceptedKeys {
      SerialsAreAccepted(NormalizedWeightInfo(p), r.acceptedKeys, s);
    }
  }

  // ------------------------------------------------------- what upserts keep

  /** Row ids are unused counter values, one per row. */
  ghost predicate IdsSound(t: Table) {
    && (forall k :: k in t.rows ==> t.rows[k].id < t.nextId)
    && (forall j, k :: j in t.rows && k in t.rows && t.rows[j].id == t.rows[k].id ==> j == k)
  }

  lemma UpsertIds(cfg: Config, t: Table, v: Values)
    ensures t.nextId <= UpsertOne(cfg, t, v).nextId
    ensures IdsSound(t) ==> IdsSound(UpsertOne(cfg, t, v))
  {
    var u := UpsertOne(cfg, t, v);
    assert forall k :: k in u.rows && k in t.rows ==> u.rows[k].id == t.rows[k].id;
    assert forall k :: k in u.rows && k !in t.rows ==> u.rows[k].id == t.nextId && k == v.key;
  }

  lemma ApplyItemIds(cfg: Config, t: Table, item: Item)
    ensures t.nextId <= ApplyItem(cfg, t, item).nextId
    ensures IdsSound(t) ==> IdsSound(ApplyItem(cfg, t, item))
  {
    match Classify(cfg, item)
    case Accepted(key, content) => UpsertIds(cfg, t, Values(key, content, item.uploadedAt, item.now));
    case Rejected(_) =>
  }

  lemma {:induction false} ApplyAllIds(cfg: Config, t: Table, items: seq<Item>)
    ensures t.nextId <= ApplyAll(cfg, t, items).nextId
    ensures IdsSound(t) ==> IdsSound(ApplyAll(cfg, t, items))
  {
    if items != [] {
      ApplyAllIds(cfg, t, items[..|items| - 1]);
      ApplyItemIds(cfg, ApplyAll(cfg, t, items[..|items| - 1]), items[|items| - 1]);
    }
  }

  /** The content the last accepted record with this key carries. */
  function LastContent(cfg: Config, items: seq<Item>, key: string): Option<Content> {
    if items == [] then None
    else
      var v := Classify(cfg, items[|items| - 1]);
      if v.Accepted? && v.key == key then Some(v.content) else LastContent(cfg, items[..|items| - 1], key)
  }

  /** The row a payload leaves under a key: the last content wins, an existing row keeps
      its identity, a new row gets a fresh id, other rows stay as they were. */
  lemma {:induction false} ApplyAllRow(cfg: Config, t: Table, items: seq<Item>, key: string)
    ensures var after, last := ApplyAll(cfg, t, items), LastContent(cfg, items, key);
      && (key in after.rows <==> key in t.rows || last.Some?)
      && (last.Some? ==> after.rows[key].content == last.value)
      && (key in t.rows && last.None? ==> after.rows[key] == t.rows[key])
      && (key in t.rows ==> after.rows[key].id == t.rows[key].id && after.rows[key].ingestedAt == t.rows[key].ingestedAt)
      && (key !in t.rows && last.Some? ==> t.nextId <= after.rows[key].id < after.nextId)
      && t.nextId <= after.nextId
  {
    if items != [] { ApplyAllRow(cfg, t, items[..|items| - 1], key); }
  }

  lemma {:induction false} AcceptedIsStored(cfg: Config, items: seq<Item>, key: string)
    ensures key in AcceptedKeys(cfg, items) <==> LastContent(cfg, items, key).Some?
  {
    if items != [] { AcceptedIsStored(cfg, items[..|items| - 1], key); }
  }

  /** Every record is either accepted or failed. */
  lemma {:induction false} AllAnswered(cfg: Config, items: seq<Item>)
    ensures |AcceptedKeys(cfg, items)| + |FailedKeys(cfg, items)| == |items|
  {
    if items != [] { AllAnswered(cfg, items[..|items| - 1]); }
  }

  /** The record is stored under the key. */
  predicate Stores(cfg: Config, item: Item, key: string) { Classify(cfg, item).Accepted? && Classify(cfg, item).key == key }

  /** Record number `i` of a payload is the last that is stored under the key. */
  ghost predicate IsLast(cfg: Config, items: seq<Item>, key: string, i: int) {
    0 <= i < |items| && Stores(cfg, items[i], key) && forall j :: i < j < |items| ==> !Stores(cfg, items[j], key)
  }

  ghost predicate IsFirstOf(cfg: Config, items: seq<Item>, key: string, i: int) {
    0 <= i < |items| && Stores(cfg, items[i], key) && forall j :: 0 <= j < i ==> !Stores(cfg, items[j], key)
  }

  /** All of the last record under the key, and an ingestion time. */
  ghost predicate RowOf(cfg: Config, last: Item, ingested: Instant, row: Row)
    requires Classify(cfg, last).Accepted?
  {
    && row.content == Classify(cfg, last).content
    && row.uploadedAt == last.uploadedAt && row.cloudUpdatedAt == last.now && row.ingestedAt == ingested
  }

  /** What one record does to the row of a key. */
  ghost predicate ItemLeaves(cfg: Config, before: map<string, Row>, item: Item, key: string, after: map<string, Row>) {
    if Stores(cfg, item, key) then
      && key in after && after[key].content == Classify(cfg, item).content
      && after[key].uploadedAt == item.uploadedAt && after[key].cloudUpdatedAt == item.now
      && after[key].ingestedAt == if key in before then before[key].ingestedAt else item.now
    else
      (key in after <==> key in before) && (key in before ==> after[key] == before[key])
  }

  lemma ItemStep(cfg: Config, t: Table, items: seq<Item>, n: nat, key: string)
    requires 0 < n <= |items|
    ensures ItemLeaves(cfg, ApplyAll(cfg, t, items[..n - 1]).rows, items[n - 1], key, ApplyAll(cfg, t, items[..n]).rows)
  {
    assert items[..n][..n - 1] == items[..n - 1];
  }

  /** Records under other keys leave the row alone. */
  lemma {:induction false} RowStays(cfg: Config, t: Table, items: seq<Item>, m: nat, n: nat, key: string)
    requires m <= n <= |items| && forall i :: m <= i < n ==> !Stores(cfg, items[i], key)
    ensures var before, after := ApplyAll(cfg, t, items[..m]).rows, ApplyAll(cfg, t, items[..n]).rows;
      (key in after <==> key in before) && (key in before ==> after[key] == before[key])
    decreases n
  {
    if m < n {
      RowStays(cfg, t, items, m, n - 1, key);
      ItemStep(cfg, t, items, n, key);
    }
  }

  /** The ingestion time never changes once the row is there. */
  ghost predicate IngestedAt(rows: map<string, Row>, key: string, at: Instant) { key in rows ==> rows[key].ingestedAt == at }

  lemma {:induction false} IngestionStays(cfg: Config, t: Table, items: seq<Item>, m: nat, n: nat, key: string)
    requires m <= n <= |items| && key in ApplyAll(cfg, t, items[..m]).rows
    ensures key in ApplyAll(cfg, t, items[..n]).rows
    ensures IngestedAt(ApplyAll(cfg, t, items[..n]).rows, key, ApplyAll(cfg, t, items[..m]).rows[key].ingestedAt)
    decreases n
  {
    if m < n {
      IngestionStays(cfg, t, items, m, n - 1, key);
      ItemStep(cfg, t, items, n, key);
    }
  }

  lemma WholeAndNone(cfg: Config, t: Table, items: seq<Item>)
    ensures ApplyAll(cfg, t, items[..0]) == t && ApplyAll(cfg, t, items[..|items|]) == ApplyAll(cfg, t, items)
  {
    assert items[..|items|] == items;
  }

  lemma FirstIngests(cfg: Config, t: Table, items: seq<Item>, key: string, first: nat, n: nat)
    requires IsFirstOf(cfg, items, key, first) && first < n <= |items|
    ensures key in ApplyAll(cfg, t, items[..n]).rows
    ensures IngestedAt(ApplyAll(cfg, t, items[..n]).rows, key, if key in t.rows then t.rows[key].ingestedAt else items[first].now)
  {
    WholeAndNone(cfg, t, items);
    RowStays(cfg, t, items, 0, first, key);
    ItemStep(cfg, t, items, first + 1, key);
    IngestionStays(cfg, t, items, first + 1, n, key);
  }

  lemma LastLeaves(cfg: Config, t: Table, items: seq<Item>, key: string, last: nat)
    requires last < |items| && Stores(cfg, items[last], key)
    ensures var rows := ApplyAll(cfg, t, items[..last + 1]).rows;
      && key in rows && rows[key].content == Classify(cfg, items[last]).content
      && rows[key].uploadedAt == items[last].uploadedAt && rows[key].cloudUpdatedAt == items[last].now
  {
    ItemStep(cfg, t, items, last + 1, key);
  }

  /** What the last record under a key leaves, to the end of the payload. */
  lemma LastStays(cfg: Config, t: Table, items: seq<Item>, key: string, last: nat)
    requires IsLast(cfg, items, key, last)
    ensures var rows := ApplyAll(cfg, t, items[..|items|]).rows;
      && key in rows && rows[key].content == Classify(cfg, items[last]).content
      && rows[key].uploadedAt == items[last].uploadedAt && rows[key].cloudUpdatedAt == items[last].now
  {
    LastLeaves(cfg, t, items, key, last);
    RowStays(cfg, t, items, last + 1, |items|, key);
  }

  /** The row a payload leaves: all of the last record under its key, and the ingestion time of the
      row that was there, or else of the first such record. */
  lemma CommittedRow(cfg: Config, t: Table, items: seq<Item>, key: string, first: nat, last: nat)
    requires IsFirstOf(cfg, items, key, first) && IsLast(cfg, items, key, last)
    ensures key in ApplyAll(cfg, t, items).rows
    ensures RowOf(cfg, items[last], if key in t.rows then t.rows[key].ingestedAt else items[first].now,
                  ApplyAll(cfg, t, items).rows[key])
  {
    WholeAndNone(cfg, t, items);
    LastStays(cfg, t, items, key, last);
    FirstIngests(cfg, t, items, key, first, |items|);
  }

  /** Every key of the payload has the row of its last record; every other row is as it was. */
  ghost predicate RowsCommitted(cfg: Config, t: Table, items: seq<Item>, after: Table) {
    KeysCommitted(cfg, t, items, after.rows) && OthersKept(cfg, t, items, after.rows)
  }

  ghost predicate KeysCommitted(cfg: Config, t: Table, items: seq<Item>, after: map<string, Row>) {
    forall key, first, last :: KeyCommitted(cfg, t, items, after, key, first, last)
  }

  ghost predicate KeyCommitted(cfg: Config, t: Table, items: seq<Item>, after: map<string, Row>, key: string, first: int, last: int) {
    IsFirstOf(cfg, items, key, first) && IsLast(cfg, items, key, last) ==>
      && key in after
      && RowOf(cfg, items[last], if key in t.rows then t.rows[key].ingestedAt else items[first].now, after[key])
  }

  ghost predicate OthersKept(cfg: Config, t: Table, items: seq<Item>, after: map<string, Row>) {
    forall key :: NoneStores(cfg, items, key) ==>
      (key in after <==> key in t.rows) && (key in t.rows ==> after[key] == t.rows[key])
  }

  ghost predicate NoneStores(cfg: Config, items: seq<Item>, key: string) {
    forall i :: 0 <= i < |items| ==> !Stores(cfg, items[i], key)
  }

  lemma EveryRowCommitted(cfg: Config, t: Table, items: seq<Item>)
    ensures RowsCommitted(cfg, t, items, ApplyAll(cfg, t, items))
  {
    EveryKeyCommitted(cfg, t, items);
    var after := ApplyAll(cfg, t, items).rows;
    forall key | NoneStores(cfg, items, key)
      ensures (key in after <==> key in t.rows) && (key in t.rows ==> after[key] == t.rows[key])
    {
      OthersStay(cfg, t, items, key);
    }
  }

  lemma EveryKeyCommitted(cfg: Config, t: Table, items: seq<Item>)
    ensures KeysCommitted(cfg, t, items, ApplyAll(cfg, t, items).rows)
  {
    var after := ApplyAll(cfg, t, items).rows;
    forall key, first, last ensures KeyCommitted(cfg, t, items, after, key, first, last) {
      if IsFirstOf(cfg, items, key, first) && IsLast(cfg, items, key, last) { CommittedRow(cfg, t, items, key, first, last); }
    }
  }

  lemma OthersStay(cfg: Config, t: Table, items: seq<Item>, key: string)
    requires NoneStores(cfg, items, key)
    ensures var after := ApplyAll(cfg, t, items).rows;
      (key in after <==> key in t.rows) && (key in t.rows ==> after[key] == t.rows[key])
  {
    WholeAndNone(cfg, t, items);
    RowStays(cfg, t, items, 0, |items|, key);
  }

  /** So the time by which a committed row is ordered and expires is the source time of the last
      record under its key, and its ingestion time when that record has none. */
  lemma CommittedTime(cfg: Config, t: Table, items: seq<Item>, key: string, first: nat, last: nat) returns (i: nat)
    requires IsFirstOf(cfg, items, key, first) && IsLast(cfg, items, key, last)
    ensures key in ApplyAll(cfg, t, items).rows && i <= 7
    ensures var names, row := ["updateTime", "secondTime", "firstTime", "tareTime", "grossTime", "measured_at", "measuredAt"],
                              ApplyAll(cfg, t, items).rows[key];
      && (forall j :: 0 <= j < i ==> Unreadable(cfg, items[last].record, names[j]))
      && (i < 7 ==> ReadsAs(cfg, items[last].record, names[i], Effective(row)))
      && (i == 7 ==> Effective(row) == if key in t.rows then t.rows[key].ingestedAt else items[first].now)
  {
    CommittedRow(cfg, t, items, key, first, last);
    i := SourceTimeIs(cfg, items[last]);
  }

  // ------------------------------------------------------------- redelivery

  /** The same records again, perhaps at other times. */
  ghost predicate SameRecords(a: seq<Item>, b: seq<Item>) {
    |a| == |b| && forall i :: 0 <= i < |a| ==> b[i] == a[i].(uploadedAt := b[i].uploadedAt, now := b[i].now)
  }

  lemma {:induction false} SameLastContent(cfg: Config, a: seq<Item>, b: seq<Item>, key: string)
    requires SameRecords(a, b)
    ensures LastContent(cfg, a, key) == LastContent(cfg, b, key)
  {
    if a != [] { SameLastContent(cfg, a[..|a| - 1], b[..|b| - 1], key); }
  }

  /** Same keys, and under each key the same id, content and ingestion time. */
  ghost predicate SameUpToTouch(t: Table, u: Table) {
    && t.rows.Keys == u.rows.Keys
    && forall k :: k in t.rows ==>
         u.rows[k] == t.rows[k].(uploadedAt := u.rows[k].uploadedAt, cloudUpdatedAt := u.rows[k].cloudUpdatedAt)
  }

  function DeliverAll(cfg: Config, t: Table, deliveries: seq<seq<Item>>): Table {
    if deliveries == [] then t
    else ApplyAll(cfg, DeliverAll(cfg, t, deliveries[..|deliveries| - 1]), deliveries[|deliveries| - 1])
  }

  /** Deliveries take effect one after the other. */
  lemma OneMoreDelivery(cfg: Config, t: Table, deliveries: seq<seq<Item>>, items: seq<Item>)
    ensures DeliverAll(cfg, t, []) == t
    ensures DeliverAll(cfg, t, deliveries + [items]) == ApplyAll(cfg, DeliverAll(cfg, t, deliveries), items)
  {
    assert (deliveries + [items])[..|deliveries|] == deliveries;
  }

  /** The same payload at other times, and with another upload time, is the same records. */
  lemma SamePayload(p: Payload, uploadedAt: Option<Instant>, clock: seq<Instant>, later: seq<Instant>)
    requires |clock| == RecordCount(p) == |later|
    ensures RecordCount(p.(uploadedAt := uploadedAt)) == |later|
    ensures SameRecords(Items(p, clock), Items(p.(uploadedAt := uploadedAt), later))
  {
    var q := p.(uploadedAt := uploadedAt);
    forall i | 0 <= i < |clock|
      ensures Items(q, later)[i] == Items(p, clock)[i].(uploadedAt := Items(q, later)[i].uploadedAt, now := Items(q, later)[i].now)
    {
      ItemsAre(p, clock, i);
      ItemsAre(q, later, i);
    }
  }

  /** Delivering a payload any further number of times adds and removes no row, and touches nothing
      in one but `uploaded_at` and `cloud_updated_at`. */
  lemma {:induction false} RedeliveryIdempotent(cfg: Config, t: Table, items: seq<Item>, again: seq<seq<Item>>)
    requires forall i :: 0 <= i < |again| ==> SameRecords(items, again[i])
    ensures var once, more := ApplyAll(cfg, t, items).rows, DeliverAll(cfg, ApplyAll(cfg, t, items), again).rows;
      && (forall k :: k in once <==> k in more)
      && forall k :: k in once ==>
           more[k].id == once[k].id && more[k].content == once[k].content && more[k].ingestedAt == once[k].ingestedAt
  {
    Redelivered(cfg, t, items, again);
  }

  lemma {:induction false} Redelivered(cfg: Config, t: Table, items: seq<Item>, again: seq<seq<Item>>)
    requires forall i :: 0 <= i < |again| ==> SameRecords(items, again[i])
    ensures SameUpToTouch(ApplyAll(cfg, t, items), DeliverAll(cfg, ApplyAll(cfg, t, items), again))
  {
    if again != [] {
      var once := ApplyAll(cfg, t, items);
      var before := DeliverAll(cfg, once, again[..|again| - 1]);
      var last := again[|again| - 1];
      Redelivered(cfg, t, items, again[..|again| - 1]);
      assert SameUpToTouch(before, ApplyAll(cfg, before, last)) by {
        forall key: string ensures
            && (key in before.rows <==> key in ApplyAll(cfg, before, last).rows)
            && (key in before.rows ==> SameRow(before.rows[key], ApplyAll(cfg, before, last).rows[key]))
        {
          OneRedelivery(cfg, t, items, before, last, key);
        }
      }
    }
  }

  ghost predicate SameRow(r: Row, s: Row) {
    s == r.(uploadedAt := s.uploadedAt, cloudUpdatedAt := s.cloudUpdatedAt)
  }

  lemma OneRedelivery(cfg: Config, t: Table, items: seq<Item>, before: Table, last: seq<Item>, key: string)
    requires SameRecords(items, last) && SameUpToTouch(ApplyAll(cfg, t, items), before)
    ensures key in before.rows <==> key in ApplyAll(cfg, before, last).rows
    ensures key in before.rows ==> SameRow(before.rows[key], ApplyAll(cfg, before, last).rows[key])
  {
    SameLastContent(cfg, items, last, key);
    ApplyAllRow(cfg, t, items, key);
    ApplyAllRow(cfg, before, last, key);
  }

  // ---------------------------------------------------------- query, delete

  /** COALESCE(source_time, ingested_at). */
  function Effective(r: Row): Instant {
    if r.content.sourceTime.Some? then r.content.sourceTime.value else r.ingestedAt
  }

  function EffectiveText(r: Row): string { TimeString(Effective(r)) }

  /** ORDER BY COALESCE(source_time, ingested_at) DESC, record_key DESC, on the texts. */
  predicate After(x: string, j: string, y: string, k: string) {
    Less(y, x) || (y == x && Less(k, j))
  }

  lemma AfterOrder(x: string, i: string, y: string, j: string, z: string, k: string)
    ensures !After(x, i, x, i)
    ensures After(x, i, y, j) && After(y, j, z, k) ==> After(x, i, z, k)
    ensures i != j ==> After(x, i, y, j) || After(y, j, x, i)
  {
    LessIrreflexive(x);
    LessIrreflexive(i);
    LessTotal(x, y);
    LessTotal(i, j);
    if Less(z, y) && Less(y, x) { LessTransitive(z, y, x); }
    if Less(k, j) && Less(j, i) { LessTransitive(k, j, i); }
  }

  predicate NewerThan(t: Table, j: string, k: string) {
    j in t.rows && k in t.rows && After(EffectiveText(t.rows[j]), j, EffectiveText(t.rows[k]), k)
  }

  function Newer(t: Table): (string, string) -> bool { (j, k) => NewerThan(t, j, k) }

  lemma NewerOrder(t: Table, i: string, j: string, k: string)
    ensures !NewerThan(t, i, i)
    ensures NewerThan(t, i, j) && NewerThan(t, j, k) ==> NewerThan(t, i, k)
    ensures i in t.rows && j in t.rows && i != j ==> NewerThan(t, i, j) || NewerThan(t, j, i)
  {
    if i in t.rows && j in t.rows {
      var x, y := EffectiveText(t.rows[i]), EffectiveText(t.rows[j]);
      AfterOrder(x, i, y, j, if k in t.rows then EffectiveText(t.rows[k]) else "", k);
    } else if i in t.rows {
      AfterOrder(EffectiveText(t.rows[i]), i, "", j, "", k);
    }
  }

  lemma NewerIsStrictOrder(t: Table)
    ensures StrictOrder(Newer(t)) && Total(Newer(t), t.rows.Keys)
  {
    forall i, j, k ensures
        && !NewerThan(t, i, i)
        && (NewerThan(t, i, j) && NewerThan(t, j, k) ==> NewerThan(t, i, k))
        && (i in t.rows && j in t.rows && i != j ==> NewerThan(t, i, j) || NewerThan(t, j, i))
    {
      NewerOrder(t, i, j, k);
    }
  }

  /** `keys` is what an unfiltered query with this limit answers. */
  ghost predicate QueryAnswer(t: Table, limit: nat, keys: seq<string>) {
    IsFirst(t.rows.Keys, Newer(t), limit, keys)
  }

  /** What the order of an answer is: the texts of the effective times never grow, rows of one
      text come by key downwards, and no row left out has a greater text than one answered, or
      the same with a greater key. So the whole seconds never grow either. */
  lemma QueryOrder(t: Table, limit: nat, keys: seq<string>)
    requires QueryAnswer(t, limit, keys)
    ensures |keys| == Min(limit, |t.rows|) && Distinct(keys) && forall k :: k in keys ==> k in t.rows
    ensures forall i, j :: 0 <= i < j < |keys| ==>
              var x, y := TimeString(Effective(t.rows[keys[i]])), TimeString(Effective(t.rows[keys[j]]));
              !Less(x, y) && (x == y ==> Less(keys[j], keys[i]))
    ensures forall i, k :: 0 <= i < |keys| && k in t.rows && k !in keys ==>
              var x, y := TimeString(Effective(t.rows[keys[i]])), TimeString(Effective(t.rows[k]));
              !Less(x, y) && (x == y ==> Less(k, keys[i]))
    ensures forall i, j :: 0 <= i < j < |keys| ==>
              Effective(t.rows[keys[i]]) / SECOND >= Effective(t.rows[keys[j]]) / SECOND
  {
    assert |t.rows| == |t.rows.Keys|;
    forall k | k in keys ensures k in t.rows { assert k in Elements(keys); }
    forall i, j | 0 <= i < j < |keys|
      ensures NoLater(t, keys[i], keys[j])
      ensures Effective(t.rows[keys[i]]) / SECOND >= Effective(t.rows[keys[j]]) / SECOND
    {
      assert !Newer(t)(keys[j], keys[i]);
      OrderIs(t, keys[i], keys[j]);
      SecondsFall(t.rows[keys[i]], t.rows[keys[j]]);
    }
    forall i, k | 0 <= i < |keys| && k in t.rows && k !in keys ensures NoLater(t, keys[i], k) {
      assert !Newer(t)(k, keys[i]);
      OrderIs(t, keys[i], k);
    }
  }

  lemma SecondsFall(r: Row, s: Row)
    requires !Less(TimeString(Effective(r)), TimeString(Effective(s)))
    ensures Effective(r) / SECOND >= Effective(s) / SECOND
  {
    TimeStringOrder(Effective(r), Effective(s));
    SecondOrder(Effective(r), Effective(s));
  }

  /** Row `k` may follow row `j` in an answer. */
  predicate NoLater(t: Table, j: string, k: string)
    requires j in t.rows && k in t.rows
  {
    var x, y := TimeString(Effective(t.rows[j])), TimeString(Effective(t.rows[k]));
    !Less(x, y) && (x == y ==> Less(k, j))
  }

  lemma OrderIs(t: Table, j: string, k: string)
    requires j in t.rows && k in t.rows && j != k && !Newer(t)(k, j)
    ensures NoLater(t, j, k)
  {
    LessTotal(EffectiveText(t.rows[j]), EffectiveText(t.rows[k]));
    LessTotal(j, k);
    LessIrreflexive(EffectiveText(t.rows[j]));
  }

  /** Every query has exactly one answer. */
  lemma QueryDetermined(t: Table, limit: nat, u: seq<string>, v: seq<string>)
    requires QueryAnswer(t, limit, u) && QueryAnswer(t, limit, v)
    ensures u == v
  {
    NewerIsStrictOrder(t);
    FirstUnique(t.rows.Keys, Newer(t), limit, u, v);
  }

  lemma QueryAnswered(t: Table, limit: nat) returns (keys: seq<string>)
    ensures QueryAnswer(t, limit, keys)
  {
    NewerIsStrictOrder(t);
    keys := FirstExists(t.rows.Keys, Newer(t), limit);
  }

  /** The guard of DELETE: the effective time's text sorts before the cutoff's. The
      handler's cutoff is the current time less `minDeleteAge`. */
  predicate Expired(r: Row, cutoff: Instant) { Less(TimeString(Effective(r)), TimeString(cutoff)) }

  function DeleteById(t: Table, id: nat, cutoff: Instant): Table {
    t.(rows := map k | k in t.rows && !(t.rows[k].id == id && Expired(t.rows[k], cutoff)) :: t.rows[k])
  }

  function DeleteByKey(t: Table, key: string, cutoff: Instant): Table {
    t.(rows := map k | k in t.rows && !(k == key && Expired(t.rows[k], cutoff)) :: t.rows[k])
  }

  lemma WholeSecondsApart(e: nat, c: nat)
    ensures e / SECOND <= c / SECOND ==> e < c + SECOND
    ensures e < c ==> e / SECOND <= c / SECOND
  {
    SecondOrder(e, c);
  }

  /** Retention under string comparison: a deleted row is older than the minimum age less
      one second, and every row whose whole second is before the cutoff's is deleted. */
  lemma RetentionBound(r: Row, cutoff: Instant, minDeleteAge: nat)
    ensures Expired(r, cutoff) ==> Effective(r) / SECOND <= cutoff / SECOND
    ensures Expired(r, cutoff) ==> (cutoff + minDeleteAge) - Effective(r) > minDeleteAge - SECOND
    ensures Effective(r) / SECOND < cutoff / SECOND ==> Expired(r, cutoff)
  {
    TimeStringOrder(Effective(r), cutoff);
    WholeSecondsApart(Effective(r), cutoff);
    WholeSecondsApart(cutoff, Effective(r));
  }

  /** When the guard is exact: it deletes just the rows older than the minimum age if and
      only if, in the cutoff's own second, neither printed fraction extends the other. */
  lemma RetentionExact(r: Row, cutoff: Instant)
    ensures (Expired(r, cutoff) <==> Effective(r) < cutoff) <==>
            !(Effective(r) / SECOND == cutoff / SECOND && Nested(GoDigits(Effective(r)), GoDigits(cutoff)))
  {
    StringOrderIsTimeOrder(Effective(r), cutoff);
  }

  /** It does delete a row younger than the minimum age: any instant of the cutoff's
      second when the cutoff falls on a whole second. */
  lemma RetentionOvershoots(r: Row, cutoff: Instant)
    requires cutoff % SECOND == 0
    requires cutoff < Effective(r) && Effective(r) / SECOND == cutoff / SECOND
    ensures Expired(r, cutoff)
  {
    WholeSecondSortsLast(cutoff, Effective(r));
  }
}
