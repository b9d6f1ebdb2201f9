/** A, the uploader: source rows and their keys, the reading of C's reply, and the
    append-only confirmation log. */
module Uploader {
  import opened Text
  import opened Timestamps
  import opened Ordering
  import opened Records
  import opened Receiver

  // ------------------------------------------------------------ source rows

  /** A SQL Server cell after conversion for JSON. */
  datatype Cell = NullCell | TextCell(s: string) | IntCell(n: int) | BoolCell(b: bool) | OtherCell

  type SourceData = map<string, Cell>

  function StringValue(c: Cell): string {
    match c
    case TextCell(s) => Trim(s)
    case IntCell(n) => IntText(n)
    case BoolCell(b) => if b then "true" else "false"
    case _ => ""
  }

  function ColumnText(data: SourceData, column: string): string {
    if column in data then StringValue(data[column]) else ""
  }

  /** The cell as C decodes it from the JSON body. */
  function Wire(c: Cell): Value {
    match c
    case NullCell => Null
    case TextCell(s) => Str(s)
    case IntCell(n) => Num(IntText(n))
    case BoolCell(b) => Bool(b)
    case OtherCell => Opaque(true)
  }

  function WireRecord(data: SourceData): Record { map k | k in data :: Wire(data[k]) }

  datatype SourceRecord = SourceRecord(entityType: string, pk: string, recordKey: string, serial: string, data: SourceData)

  function PrimaryKey(entityType: string): string { if entityType == PHOTO then "id" else "serialNo" }

  /** A record as the uploader builds it from a complete row. */
  predicate Genuine(r: SourceRecord) {
    && r.entityType in {INFO, PHOTO}
    && r.pk == ColumnText(r.data, PrimaryKey(r.entityType)) != ""
    && r.serial == ColumnText(r.data, "serialNo") != ""
    && r.recordKey == RecordKey(r.entityType, r.pk)
  }

  /** Both the primary key and the serial number have text. */
  predicate Complete(entityType: string, row: SourceData) {
    ColumnText(row, PrimaryKey(entityType)) != "" && ColumnText(row, "serialNo") != ""
  }

  function MakeRecord(entityType: string, row: SourceData): (r: SourceRecord)
    ensures entityType in {INFO, PHOTO} && Complete(entityType, row) ==> Genuine(r)
  {
    var pk := ColumnText(row, PrimaryKey(entityType));
    SourceRecord(entityType, pk, RecordKey(entityType, pk), ColumnText(row, "serialNo"), row)
  }

  /** The record made of a row: every column, and the keys taken from it. */
  predicate MadeFrom(r: SourceRecord, entityType: string, row: SourceData) {
    && r.data == row && r.entityType == entityType && r.serial == ColumnText(row, "serialNo")
    && r.pk == ColumnText(row, if entityType == "weight_photo" then "id" else "serialNo")
    && r.recordKey == entityType + (":" + r.pk)
  }

  /** Reads one table's rows in order; one row without a primary key or a serial number fails the
      whole read. */
  method FetchEntity(entityType: string, rows: seq<SourceData>) returns (records: Option<seq<SourceRecord>>)
    ensures records.Some? <==>
            forall i :: 0 <= i < |rows| ==>
              ColumnText(rows[i], "serialNo") != "" && (entityType == "weight_photo" ==> ColumnText(rows[i], "id") != "")
    ensures records.Some? ==> |records.value| == |rows|
    ensures records.Some? ==> forall i :: 0 <= i < |rows| ==> MadeFrom(records.value[i], entityType, rows[i])
    ensures records.Some? && entityType in {INFO, PHOTO} ==> forall i :: 0 <= i < |rows| ==> Genuine(records.value[i])
  {
    var out: seq<SourceRecord> := [];
    for i := 0 to |rows|
      invariant |out| == i
      invariant forall j :: 0 <= j < i ==> MadeFrom(out[j], entityType, rows[j]) && Complete(entityType, rows[j])
      invariant entityType in {INFO, PHOTO} ==> forall j :: 0 <= j < i ==> Genuine(out[j])
    {
      if !Complete(entityType, rows[i]) { return None; }
      out := out + [MakeRecord(entityType, rows[i])];
    }
    records := Some(out);
  }

  /** What goes over the wire: every column, texts as they are, integers in digits. */
  lemma WireRecordIs(data: SourceData)
    ensures WireRecord(data).Keys == data.Keys
    ensures forall column :: column in data ==>
              match data[column]
              case NullCell => WireRecord(data)[column] == Null
              case TextCell(s) => WireRecord(data)[column] == Str(s)
              case IntCell(n) => WireRecord(data)[column] == Num(IntText(n))
              case BoolCell(b) => WireRecord(data)[column] == Bool(b)
              case OtherCell => WireRecord(data)[column].Opaque?
  {
  }

  /** A takes for a column's text just what C extracts from it. */
  lemma SameText(data: SourceData, column: string)
    ensures ColumnText(data, column) == ExtractString(WireRecord(data), [column])
  {
    assert [column][1..] == [] && ExtractString(WireRecord(data), []) == "";
  }

  lemma WireText(data: SourceData, names: seq<string>)
    requires names != [] && ColumnText(data, names[0]) != ""
    ensures ExtractString(WireRecord(data), names) == ColumnText(data, names[0])
  {
  }

  /** A and C compute the same key for every record A sends, and C stores the record. */
  lemma KeysAgree(cfg: Config, r: SourceRecord, item: Item)
    requires Genuine(r) && item.entityType == r.entityType && item.record == WireRecord(r.data)
    ensures Classify(cfg, item).Accepted? && Classify(cfg, item).key == r.recordKey
  {
    var first := Candidates(r.entityType)[0];
    assert first.1[0] == PrimaryKey(r.entityType);
    WireText(r.data, first.1);
    assert ExtractRecordKey(r.entityType, item.record) == (first.0, r.pk);
    assert Encodable(item.record);
  }

  /** The document C stores for a record A sends has every column of the source row. */
  lemma DocumentIsWhole(cfg: Config, r: SourceRecord, item: Item)
    requires Genuine(r) && item.entityType == r.entityType && item.record == WireRecord(r.data) && cfg.storeRaw
    ensures var v := Classify(cfg, item);
      v.Accepted? && v.content.raw == Some(WireRecord(r.data)) && v.content.raw.value.Keys == r.data.Keys
  {
    KeysAgree(cfg, r, item);
  }

  // ---------------------------------------------------------------- payload

  function DataOf(records: seq<SourceRecord>, entityType: string): seq<Record> {
    if records == [] then []
    else
      var rest := DataOf(records[..|records| - 1], entityType);
      var r := records[|records| - 1];
      if r.entityType == entityType then rest + [WireRecord(r.data)] else rest
  }

  function PayloadOf(source: string, database: string, uploadedAt: Instant, batch: seq<SourceRecord>): Payload {
    Payload(source, database, Some(uploadedAt), [], DataOf(batch, INFO), DataOf(batch, PHOTO))
  }

  /** The payload A posts: the rows of each entity in order, and nothing else. */
  lemma PayloadIs(source: string, database: string, uploadedAt: Instant, batch: seq<SourceRecord>) returns (infos: seq<int>, photos: seq<int>)
    ensures var p := PayloadOf(source, database, uploadedAt, batch);
      && p.source == source && p.database == database && p.uploadedAt == Some(uploadedAt) && p.records == []
      && Places(batch, "weight_info", infos, p.weightInfo) && Places(batch, "weight_photo", photos, p.weightPhoto)
  {
    infos := DataPlaces(batch, INFO);
    photos := DataPlaces(batch, PHOTO);
  }

  /** `rows` are the wire forms of the records of one entity, in order; `at` are their places. */
  ghost predicate Places(batch: seq<SourceRecord>, entityType: string, at: seq<int>, rows: seq<Record>) {
    && |at| == |rows| && (forall i :: 0 <= i < |at| ==> 0 <= at[i] < |batch| && rows[i] == WireRecord(batch[at[i]].data))
    && (forall i, j :: 0 <= i < j < |at| ==> at[i] < at[j])
    && (forall p :: 0 <= p < |batch| ==> (batch[p].entityType == entityType <==> p in at))
  }

  lemma PlacesSnoc(batch: seq<SourceRecord>, entityType: string, at: seq<int>, rows: seq<Record>, r: SourceRecord)
    requires Places(batch, entityType, at, rows)
    ensures r.entityType == entityType ==> Places(batch + [r], entityType, at + [|batch|], rows + [WireRecord(r.data)])
    ensures r.entityType != entityType ==> Places(batch + [r], entityType, at, rows)
  {
    assert forall p :: p in at ==> p < |batch|;
  }

  lemma {:induction false} DataPlaces(batch: seq<SourceRecord>, entityType: string) returns (at: seq<int>)
    ensures Places(batch, entityType, at, DataOf(batch, entityType))
  {
    at := [];
    if batch != [] {
      var init, r := batch[..|batch| - 1], batch[|batch| - 1];
      at := DataPlaces(init, entityType);
      PlacesSnoc(init, entityType, at, DataOf(init, entityType), r);
      assert batch == init + [r];
      if r.entityType == entityType { at := at + [|init|]; }
    }
  }

  lemma {:induction false} DataCount(batch: seq<SourceRecord>)
    requires forall r :: r in batch ==> r.entityType in {INFO, PHOTO}
    ensures |DataOf(batch, INFO)| + |DataOf(batch, PHOTO)| == |batch|
  {
    if batch != [] { DataCount(batch[..|batch| - 1]); }
  }

  lemma {:induction false} DataHolds(batch: seq<SourceRecord>, r: SourceRecord)
    requires r in batch
    ensures WireRecord(r.data) in DataOf(batch, r.entityType)
  {
    if r != batch[|batch| - 1] {
      assert r in batch[..|batch| - 1];
      DataHolds(batch[..|batch| - 1], r);
    }
  }

  lemma {:induction false} DataSource(batch: seq<SourceRecord>, entityType: string, x: Record) returns (r: SourceRecord)
    requires x in DataOf(batch, entityType)
    ensures r in batch && r.entityType == entityType && WireRecord(r.data) == x
  {
    var rest := batch[..|batch| - 1];
    if x in DataOf(rest, entityType) {
      r := DataSource(rest, entityType, x);
    } else {
      r := batch[|batch| - 1];
    }
  }

  // ------------------------------------------------------------ C's answer

  predicate AllEmpty(response: UploadResponse) {
    response.acceptedKeys == [] && response.failedKeys == [] && response.acceptedSerials == [] && response.failedSerials == []
  }

  /** The keys a reply confirms. */
  function Confirmed(response: UploadResponse): set<string> {
    (set k | k in response.acceptedKeys) + (set s | s in response.acceptedSerials :: RecordKey(INFO, s))
  }

  function Keyed(records: seq<SourceRecord>, keys: set<string>): seq<SourceRecord> {
    if records == [] then []
    else
      var rest := Keyed(records[..|records| - 1], keys);
      if LookupKey(records[|records| - 1]) in keys then rest + [records[|records| - 1]] else rest
  }

  function LookupKey(r: SourceRecord): string {
    if r.recordKey != "" then r.recordKey
    else RecordKey(if r.entityType == "" then INFO else r.entityType, r.serial)
  }

  function Acknowledgement(records: seq<SourceRecord>, response: UploadResponse): seq<SourceRecord> {
    if AllEmpty(response) then records else Keyed(records, Confirmed(response))
  }

  /** The reply confirms this record: by its key, or as an information row by its serial number. */
  predicate IsConfirmed(response: UploadResponse, r: SourceRecord) {
    var entity := if r.entityType == "" then "weight_info" else r.entityType;
    var key := if r.recordKey != "" then r.recordKey else entity + (":" + r.serial);
    key in response.acceptedKeys ||
    exists i :: 0 <= i < |response.acceptedSerials| && key == "weight_info" + (":" + response.acceptedSerials[i])
  }

  function ConfirmedBy(response: UploadResponse): SourceRecord -> bool { r => IsConfirmed(response, r) }

  lemma ConfirmedIs(response: UploadResponse, r: SourceRecord)
    ensures LookupKey(r) in Confirmed(response) <==> IsConfirmed(response, r)
  {
    var key, serials := LookupKey(r), response.acceptedSerials;
    forall i | 0 <= i < |serials| && key == "weight_info" + (":" + serials[i]) ensures key in Confirmed(response) {
      assert serials[i] in serials && RecordKey(INFO, serials[i]) == key;
    }
    if key in Confirmed(response) && key !in response.acceptedKeys {
      var serial :| serial in serials && RecordKey(INFO, serial) == key;
      var i :| 0 <= i < |serials| && serials[i] == serial;
      assert key == "weight_info" + (":" + serials[i]);
    }
  }

  lemma {:induction false} KeyedPicks(records: seq<SourceRecord>, response: UploadResponse) returns (at: seq<int>)
    ensures Picks(records, ConfirmedBy(response), at, Keyed(records, Confirmed(response)))
  {
    at := [];
    if records != [] {
      var init, r := records[..|records| - 1], records[|records| - 1];
      at := KeyedPicks(init, response);
      ConfirmedIs(response, r);
      PicksSnoc(init, ConfirmedBy(response), at, Keyed(init, Confirmed(response)), r);
      assert records == init + [r];
      if IsConfirmed(response, r) { at := at + [|init|]; }
    }
  }

  /** `acknowledged`: an answer that names nobody confirms all; any other just the records it
      confirms, in order. */
  method Acknowledged(records: seq<SourceRecord>, response: UploadResponse) returns (result: seq<SourceRecord>)
    ensures result == Acknowledgement(records, response)
    ensures response == UploadResponse([], [], [], []) ==> result == records
    ensures response != UploadResponse([], [], [], []) ==> exists at :: Picks(records, ConfirmedBy(response), at, result)
  {
    if AllEmpty(response) { return records; }
    var keys: set<string> := {};
    for i := 0 to |response.acceptedKeys|
      invariant keys == set k | k in response.acceptedKeys[..i]
    {
      keys := keys + {response.acceptedKeys[i]};
    }
    assert response.acceptedKeys[..|response.acceptedKeys|] == response.acceptedKeys;
    ghost var accepted := keys;
    for i := 0 to |response.acceptedSerials|
      invariant keys == accepted + set s | s in response.acceptedSerials[..i] :: RecordKey(INFO, s)
    {
      assert response.acceptedSerials[..i + 1] == response.acceptedSerials[..i] + [response.acceptedSerials[i]];
      keys := keys + {RecordKey(INFO, response.acceptedSerials[i])};
    }
    assert response.acceptedSerials[..|response.acceptedSerials|] == response.acceptedSerials;
    result := [];
    for i := 0 to |records|
      invariant result == Keyed(records[..i], keys)
    {
      assert records[..i + 1][..i] == records[..i];
      if LookupKey(records[i]) in keys { result := result + [records[i]]; }
    }
    assert records[..|records|] == records && keys == Confirmed(response);
    ghost var at := KeyedPicks(records, response);
    assert Picks(records, ConfirmedBy(response), at, result);
  }

  lemma {:induction false} KeyedMember(records: seq<SourceRecord>, keys: set<string>, r: SourceRecord)
    ensures r in Keyed(records, keys) <==> r in records && LookupKey(r) in keys
  {
    if records != [] {
      KeyedMember(records[..|records| - 1], keys, r);
      assert records == records[..|records| - 1] + [records[|records| - 1]];
    }
  }

  lemma {:induction false} KeyedAll(records: seq<SourceRecord>, keys: set<string>)
    requires forall r :: r in records ==> LookupKey(r) in keys
    ensures Keyed(records, keys) == records
  {
    if records != [] {
      KeyedAll(records[..|records| - 1], keys);
      assert records == records[..|records| - 1] + [records[|records| - 1]];
    }
  }

  lemma {:induction false} AcceptedMember(cfg: Config, items: seq<Item>, i: nat)
    requires i < |items| && Classify(cfg, items[i]).Accepted?
    ensures Classify(cfg, items[i]).key in AcceptedKeys(cfg, items)
  {
    if i < |items| - 1 { AcceptedMember(cfg, items[..|items| - 1], i); }
  }

  lemma {:induction false} NoneFailed(cfg: Config, items: seq<Item>)
    requires forall i :: 0 <= i < |items| ==> Classify(cfg, items[i]).Accepted?
    ensures FailedKeys(cfg, items) == []
  {
    if items != [] { NoneFailed(cfg, items[..|items| - 1]); }
  }

  /** Every item C makes of A's payload is some record of the batch. */
  lemma ItemIsGenuine(cfg: Config, p: Payload, batch: seq<SourceRecord>, clock: seq<Instant>, i: nat)
    requires forall r :: r in batch ==> Genuine(r)
    requires p.records == [] && p.weightInfo == DataOf(batch, INFO) && p.weightPhoto == DataOf(batch, PHOTO)
    requires |clock| == RecordCount(p) && i < |clock|
    ensures Classify(cfg, Items(p, clock)[i]).Accepted?
  {
    var item := Items(p, clock)[i];
    var r := DataSource(batch, item.entityType, item.record);
    KeysAgree(cfg, r, item);
  }

  lemma RecordIsItem(cfg: Config, p: Payload, batch: seq<SourceRecord>, clock: seq<Instant>, r: SourceRecord)
    requires r in batch && Genuine(r)
    requires p.records == [] && p.weightInfo == DataOf(batch, INFO) && p.weightPhoto == DataOf(batch, PHOTO)
    requires |clock| == RecordCount(p)
    ensures r.recordKey in AcceptedKeys(cfg, Items(p, clock))
  {
    DataHolds(batch, r);
    var n := |DataOf(batch, INFO)|;
    var items := Items(p, clock);
    assert NormalizedWeightInfo(p) == DataOf(batch, INFO);
    var j :| 0 <= j < |DataOf(batch, r.entityType)| && DataOf(batch, r.entityType)[j] == WireRecord(r.data);
    var i := if r.entityType == INFO then j else n + j;
    assert items[i].entityType == r.entityType && items[i].record == WireRecord(r.data);
    KeysAgree(cfg, r, items[i]);
    AcceptedMember(cfg, items, i);
  }

  /** Honest acknowledgement: for every batch A posts, C answers one verdict per record, the
      empty-reply fallback is not reached, and what A reads as acknowledged is exactly, and
      in order, the records that C has just stored: all of them. */
  lemma HonestAcknowledgement(cfg: Config, t: Table, source: string, database: string, uploadedAt: Instant,
                              batch: seq<SourceRecord>, clock: seq<Instant>)
    requires batch != [] && forall r :: r in batch ==> Genuine(r)
    requires |clock| == |batch|
    ensures RecordCount(PayloadOf(source, database, uploadedAt, batch)) == |batch|
    ensures var p := PayloadOf(source, database, uploadedAt, batch);
      var response := Reply(cfg, p, clock);
      && |response.acceptedKeys| == |batch| && response.failedKeys == []
      && !AllEmpty(response)
      && Acknowledgement(batch, response) == batch
      && forall r :: r in batch ==> r.recordKey in ApplyAll(cfg, t, Items(p, clock)).rows
  {
    var p := PayloadOf(source, database, uploadedAt, batch);
    DataCount(batch);
    var items, response := Items(p, clock), Reply(cfg, p, clock);
    forall i | 0 <= i < |items| ensures Classify(cfg, items[i]).Accepted? { ItemIsGenuine(cfg, p, batch, clock, i); }
    NoneFailed(cfg, items);
    AllAnswered(cfg, items);
    forall r | r in batch ensures LookupKey(r) in Confirmed(response) && r.recordKey in ApplyAll(cfg, t, items).rows {
      KeyShape(r.entityType, r.pk);
      RecordIsItem(cfg, p, batch, clock, r);
      ReplyIsHonest(cfg, t, p, clock, r.recordKey);
    }
    KeyedAll(batch, Confirmed(response));
  }

  // --------------------------------------------------------- confirmation log

  datatype Entry = Entry(entityType: string, primaryKey: string, recordKey: string, serialNo: string, acceptedAt: Instant)

  function StateKey(entityType: string, primaryKey: string): string {
    (if entityType == "" then INFO else entityType) + ("\0" + primaryKey)
  }

  /** An entry without an entity type counts as an information row. */
  lemma StateKeyDefault(primaryKey: string)
    ensures StateKey("", primaryKey) == StateKey("weight_info", primaryKey)
  {
  }

  function EntryKey(e: Entry): string { StateKey(e.entityType, e.primaryKey) }

  lemma StateKeyInjective(e: string, f: string, x: string, y: string)
    requires e in {INFO, PHOTO} && f in {INFO, PHOTO} && StateKey(e, x) == StateKey(f, y)
    ensures e == f && x == y
  {
    assert StateKey(e, x)[7] == e[7] && StateKey(f, y)[7] == f[7];
    assert INFO[7] == 'i' && PHOTO[7] == 'p';
    assert x == StateKey(e, x)[|e| + 1..] && y == StateKey(f, y)[|f| + 1..];
  }

  /** The keys a log file decodes to. */
  function Replay(file: seq<Entry>): set<string> { set e | e in file :: EntryKey(e) }

  /** Appending skips entries that are already in the log. */
  function AppendEntries(file: seq<Entry>, entries: seq<Entry>): seq<Entry> {
    if entries == [] then file
    else
      var before := AppendEntries(file, entries[..|entries| - 1]);
      var e := entries[|entries| - 1];
      if EntryKey(e) in Replay(before) then before else before + [e]
  }

  ghost predicate NoRepeats(file: seq<Entry>) {
    forall i, j :: 0 <= i < j < |file| ==> EntryKey(file[i]) != EntryKey(file[j])
  }

  lemma ReplaySnoc(file: seq<Entry>, e: Entry)
    ensures Replay(file + [e]) == Replay(file) + {EntryKey(e)}
  {
  }

  lemma {:induction false} AppendReplay(file: seq<Entry>, entries: seq<Entry>)
    ensures Replay(AppendEntries(file, entries)) == Replay(file) + Replay(entries)
  {
    if entries != [] {
      var init, e := entries[..|entries| - 1], entries[|entries| - 1];
      AppendReplay(file, init);
      assert entries == init + [e];
      ReplaySnoc(init, e);
      ReplaySnoc(AppendEntries(file, init), e);
    }
  }

  lemma AppendSnoc(file: seq<Entry>, entries: seq<Entry>, n: nat)
    requires n < |entries|
    ensures var before := AppendEntries(file, entries[..n]);
      AppendEntries(file, entries[..n + 1]) == if EntryKey(entries[n]) in Replay(before) then before else before + [entries[n]]
  {
    assert entries[..n + 1][..n] == entries[..n];
  }

  /** The log only grows, by entries that were to be appended, and no key is written twice. */
  lemma {:induction false} AppendKeeps(file: seq<Entry>, entries: seq<Entry>)
    ensures file <= AppendEntries(file, entries)
    ensures NoRepeats(file) ==> NoRepeats(AppendEntries(file, entries))
    ensures forall e :: e in AppendEntries(file, entries) ==> e in file || e in entries
  {
    if entries != [] {
      var init, e := entries[..|entries| - 1], entries[|entries| - 1];
      AppendKeeps(file, init);
      assert entries == init + [e];
    }
  }

  /** A crash that keeps only a prefix of the log forgets confirmations and invents none. */
  lemma PrefixReplay(file: seq<Entry>, keep: nat)
    requires keep <= |file|
    ensures Replay(file[..keep]) <= Replay(file)
    ensures NoRepeats(file) ==> NoRepeats(file[..keep])
  {
  }

  function EntriesOf(records: seq<SourceRecord>, now: Instant): (entries: seq<Entry>)
    ensures |entries| == |records|
    ensures forall i :: 0 <= i < |records| ==>
              entries[i] == Entry(records[i].entityType, records[i].pk, records[i].recordKey, records[i].serial, now)
  {
    seq(|records|, i requires 0 <= i < |records| =>
      Entry(records[i].entityType, records[i].pk, records[i].recordKey, records[i].serial, now))
  }

  function Unconfirmed(done: set<string>, records: seq<SourceRecord>): seq<SourceRecord> {
    if records == [] then []
    else
      var rest := Unconfirmed(done, records[..|records| - 1]);
      var r := records[|records| - 1];
      if StateKey(r.entityType, r.pk) in done then rest else rest + [r]
  }

  lemma {:induction false} UnconfirmedMember(done: set<string>, records: seq<SourceRecord>, r: SourceRecord)
    ensures r in Unconfirmed(done, records) <==> r in records && StateKey(r.entityType, r.pk) !in done
  {
    if records != [] {
      UnconfirmedMember(done, records[..|records| - 1], r);
      assert records == records[..|records| - 1] + [records[|records| - 1]];
    }
  }

  /** The log keys of records. */
  function StateKeys(records: seq<SourceRecord>): set<string> { set r | r in records :: StateKey(r.entityType, r.pk) }

  lemma LogsAll(file: seq<Entry>, records: seq<SourceRecord>, now: Instant)
    ensures Replay(AppendEntries(file, EntriesOf(records, now))) == Replay(file) + StateKeys(records)
  {
    var entries := EntriesOf(records, now);
    AppendReplay(file, entries);
    forall k ensures k in Replay(entries) <==> k in StateKeys(records) {
      if k in StateKeys(records) {
        var r :| r in records && StateKey(r.entityType, r.pk) == k;
        var i :| 0 <= i < |records| && records[i] == r;
        assert entries[i] in entries;
      }
      if k in Replay(entries) {
        var e :| e in entries && EntryKey(e) == k;
        var i :| 0 <= i < |entries| && entries[i] == e;
        assert records[i] in records;
      }
    }
  }

  lemma {:induction false} AcknowledgedFits(records: seq<SourceRecord>, response: UploadResponse)
    ensures |Acknowledgement(records, response)| <= |records|
  {
    KeyedFits(records, Confirmed(response));
  }

  lemma {:induction false} KeyedFits(records: seq<SourceRecord>, keys: set<string>)
    ensures |Keyed(records, keys)| <= |records|
  {
    if records != [] { KeyedFits(records[..|records| - 1], keys); }
  }

  function NotIn(done: set<string>): SourceRecord -> bool { (r: SourceRecord) => StateKey(r.entityType, r.pk) !in done }

  /** The rows that are posted, in order: those the log does not confirm. */
  lemma {:induction false} UnconfirmedPicks(done: set<string>, records: seq<SourceRecord>) returns (at: seq<int>)
    ensures Picks(records, NotIn(done), at, Unconfirmed(done, records))
  {
    at := [];
    if records != [] {
      var init, r := records[..|records| - 1], records[|records| - 1];
      at := UnconfirmedPicks(done, init);
      PicksSnoc(init, NotIn(done), at, Unconfirmed(done, init), r);
      assert records == init + [r];
      if StateKey(r.entityType, r.pk) !in done { at := at + [|init|]; }
    }
  }

  /** A line of the log file. */
  datatype Line = Whole(entry: Entry) | Torn

  predicate Sound(line: Line) { line.Whole? && line.entry.primaryKey != "" }

  /** The store keeps the file and the set it decodes to in step. */
  class StateStore {
    var file: seq<Entry>
    var done: set<string>

    ghost predicate Valid()
      reads this
    {
      done == Replay(file)
    }

    constructor (contents: seq<Entry>, keys: set<string>)
      ensures file == contents && done == keys
    {
      file, done := contents, keys;
    }

    /** Opens a log, decoding its lines one by one; a line that does not decode, as a torn write
        leaves it, and an empty primary key are errors. */
    static method Load(lines: seq<Line>) returns (store: StateStore?)
      ensures store == null <==> exists i :: 0 <= i < |lines| && (lines[i].Torn? || lines[i].entry.primaryKey == "")
      ensures store != null ==> fresh(store) && store.Valid() && |store.file| == |lines|
      ensures store != null ==> forall i :: 0 <= i < |lines| ==> lines[i] == Whole(store.file[i])
    {
      var keys: set<string> := {};
      var contents: seq<Entry> := [];
      for i := 0 to |lines|
        invariant |contents| == i && keys == Replay(contents)
        invariant forall j :: 0 <= j < i ==> Sound(lines[j]) && lines[j] == Whole(contents[j])
      {
        if !Sound(lines[i]) { return null; }
        ReplaySnoc(contents, lines[i].entry);
        keys := keys + {EntryKey(lines[i].entry)};
        contents := contents + [lines[i].entry];
      }
      store := new StateStore(contents, keys);
    }

    method Contains(entityType: string, pk: string) returns (b: bool)
      requires Valid()
      ensures b <==> StateKey(entityType, pk) in Replay(file)
    {
      b := StateKey(entityType, pk) in done;
    }

    /** Writes the new entries; `writable` is how many writes the disk accepts before it
        fails. Whatever happens, file and set agree and no key is written twice. */
    method Append(entries: seq<Entry>, writable: nat) returns (handled: nat)
      requires Valid()
      modifies this
      ensures Valid() && (NoRepeats(old(file)) ==> NoRepeats(file))
      ensures handled <= |entries| && file == AppendEntries(old(file), entries[..handled])
      ensures writable >= |entries| ==> handled == |entries|
    {
      var written := 0;
      handled := 0;
      while handled < |entries|
        invariant handled <= |entries| && written <= handled
        invariant Valid() && file == AppendEntries(old(file), entries[..handled])
      {
        var e := entries[handled];
        AppendSnoc(old(file), entries, handled);
        if EntryKey(e) !in done {
          if written == writable {
            AppendKeeps(old(file), entries[..handled]);
            return;
          }
          ReplaySnoc(file, e);
          file, done, written := file + [e], done + {EntryKey(e)}, written + 1;
        }
        handled := handled + 1;
      }
      AppendKeeps(old(file), entries[..handled]);
    }

    /** One cycle: drop what the log confirms, post the rest, log what C confirmed.
        `reply` is None when the request or its answer was lost. */
    method SyncOnce(fetched: seq<SourceRecord>, reply: Option<UploadResponse>, now: Instant, writable: nat)
      returns (posted: seq<SourceRecord>, handled: nat)
      requires Valid()
      modifies this
      ensures Valid()
      ensures posted == Unconfirmed(old(Replay(file)), fetched)
      ensures forall r :: r in posted <==> r in fetched && StateKey(r.entityType, r.pk) !in old(Replay(file))
      ensures posted == [] || reply.None? ==> file == old(file)
      ensures posted != [] && reply.Some? && writable >= |posted| ==>
                Replay(file) == old(Replay(file)) + StateKeys(Acknowledgement(posted, reply.value))
      ensures posted != [] && reply.Some? ==>
                var entries := EntriesOf(Acknowledgement(posted, reply.value), now);
                handled <= |entries| && file == AppendEntries(old(file), entries[..handled])
    {
      posted, handled := [], 0;
      for i := 0 to |fetched|
        invariant posted == Unconfirmed(done, fetched[..i])
        invariant file == old(file) && done == old(done)
      {
        assert fetched[..i + 1][..i] == fetched[..i];
        var known := Contains(fetched[i].entityType, fetched[i].pk);
        if !known { posted := posted + [fetched[i]]; }
      }
      assert fetched[..|fetched|] == fetched;
      forall r ensures r in posted <==> r in fetched && StateKey(r.entityType, r.pk) !in done { UnconfirmedMember(done, fetched, r); }
      if posted == [] || reply.None? { return; }
      var accepted := Acknowledged(posted, reply.value);
      if accepted == [] {
        assert AppendEntries(file, []) == file;
        return;
      }
      LogsAll(file, accepted, now);
      AcknowledgedFits(posted, reply.value);
      handled := Append(EntriesOf(accepted, now), writable);
      assert EntriesOf(accepted, now)[..|accepted|] == EntriesOf(accepted, now);
    }
  }
}
