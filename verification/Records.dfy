/** Weighing records as JSON objects, and the business key the receiver derives from one. */
module Records {
  import opened Text

  /** A decoded JSON member. Numbers keep their text; arrays and objects stay opaque, and
      `encodable` says whether marshalling the value again would succeed. */
  datatype Value = Null | Str(text: string) | Num(text: string) | Bool(b: bool) | Opaque(encodable: bool)

  type Record = map<string, Value>

  const INFO := "weight_info"
  const PHOTO := "weight_photo"

  predicate Encodable(r: Record) { forall k :: k in r ==> r[k] != Opaque(false) }

  /** The first listed member that holds a scalar, as trimmed text. */
  function ExtractString(r: Record, names: seq<string>): string {
    if names == [] then ""
    else if names[0] !in r then ExtractString(r, names[1..])
    else match r[names[0]]
      case Str(s) => Trim(s)
      case Num(s) => s
      case Bool(b) => if b then "true" else "false"
      case _ => ExtractString(r, names[1..])
  }

  const SERIAL_NAMES := ["serialNo", "serial_no"]

  function Candidates(entityType: string): seq<(string, seq<string>)> {
    if entityType == PHOTO then [("id", ["id"]), ("serialNo", SERIAL_NAMES)]
    else [("serialNo", SERIAL_NAMES), ("id", ["id"]), ("ticket_no", ["ticket_no", "ticketNo"])]
  }

  function FirstCandidate(r: Record, candidates: seq<(string, seq<string>)>): (string, string) {
    if candidates == [] then ("", "")
    else
      var value := ExtractString(r, candidates[0].1);
      if value != "" then (candidates[0].0, value) else FirstCandidate(r, candidates[1..])
  }

  /** Key type and raw key of a record; both empty when no candidate holds a value. */
  function ExtractRecordKey(entityType: string, r: Record): (string, string) {
    FirstCandidate(r, Candidates(entityType))
  }

  function RecordKey(entityType: string, rawKey: string): string { entityType + (":" + rawKey) }

  /** The text of a scalar member; arrays, objects and null have none. */
  predicate IsScalar(v: Value) { v.Str? || v.Num? || v.Bool? }

  /** The first listed member that is a scalar is taken, as it is but trimmed if it is a string;
      with none the text is empty. */
  lemma {:induction false} ExtractStringIs(r: Record, names: seq<string>, i: nat)
    requires i <= |names| && forall j :: 0 <= j < i ==> names[j] in r ==> !IsScalar(r[names[j]])
    ensures i == |names| ==> ExtractString(r, names) == ""
    ensures i < |names| && names[i] in r && IsScalar(r[names[i]]) ==>
              match r[names[i]]
              case Str(s) => ExtractString(r, names) == Trim(s)
              case Num(s) => ExtractString(r, names) == s
              case Bool(b) => ExtractString(r, names) == if b then "true" else "false"
              case _ => true
  {
    if i > 0 {
      assert names[1..][i - 1..] == names[i..];
      forall j | 0 <= j < i - 1 ensures names[1..][j] in r ==> !IsScalar(r[names[1..][j]]) { assert names[1..][j] == names[j + 1]; }
      ExtractStringIs(r, names[1..], i - 1);
    }
  }

  /** Which members give the key: for a photo `id`, then the serial number; else the serial
      number, `id`, then the ticket number; the first that is not empty. */
  lemma ExtractRecordKeyIs(entityType: string, r: Record)
    ensures var serial, id, ticket := ExtractString(r, ["serialNo", "serial_no"]), ExtractString(r, ["id"]),
                                      ExtractString(r, ["ticket_no", "ticketNo"]);
      ExtractRecordKey(entityType, r) ==
        if entityType == "weight_photo" then
          if id != "" then ("id", id) else if serial != "" then ("serialNo", serial) else ("", "")
        else
          if serial != "" then ("serialNo", serial) else if id != "" then ("id", id)
          else if ticket != "" then ("ticket_no", ticket) else ("", "")
  {
    var c := Candidates(entityType);
    if entityType == "weight_photo" {
      TwoCandidates(r, c[0], c[1]);
    } else {
      assert c[1..] == [c[1], c[2]];
      TwoCandidates(r, c[1], c[2]);
    }
  }

  lemma TwoCandidates(r: Record, a: (string, seq<string>), b: (string, seq<string>))
    ensures FirstCandidate(r, [a, b]) ==
            if ExtractString(r, a.1) != "" then (a.0, ExtractString(r, a.1))
            else if ExtractString(r, b.1) != "" then (b.0, ExtractString(r, b.1)) else ("", "")
  {
    assert [a, b][1..] == [b] && [b][1..] == [] && FirstCandidate(r, []) == ("", "");
    assert FirstCandidate(r, [b]) == if ExtractString(r, b.1) != "" then (b.0, ExtractString(r, b.1)) else ("", "");
  }

  predicate IsPhotoKey(key: string) { |key| > 7 && key[7] == 'p' }

  /** The key decides the entity, and within one entity the raw key. */
  lemma RecordKeyInjective(e: string, f: string, x: string, y: string)
    requires e in {INFO, PHOTO} && f in {INFO, PHOTO}
    requires RecordKey(e, x) == RecordKey(f, y)
    ensures e == f && x == y
  {
    KeyShape(e, x);
    KeyShape(f, y);
    assert x == RecordKey(e, x)[|e| + 1..] && y == RecordKey(f, y)[|f| + 1..];
  }

  lemma KeyShape(e: string, x: string)
    requires e in {INFO, PHOTO}
    ensures IsPhotoKey(RecordKey(e, x)) <==> e == PHOTO
    ensures RecordKey(e, x) != "" && RecordKey(e, x)[0] == 'w'
  {
    assert RecordKey(e, x)[7] == e[7] && RecordKey(e, x)[0] == e[0];
    assert INFO[7] == 'i' && PHOTO[7] == 'p' && INFO[0] == PHOTO[0] == 'w';
  }

  function Drop(s: string, n: nat): string { if n <= |s| then s[n..] else "" }

  /** A record key as B's tables compare it: their collation takes some raw keys for equal, and
      `fold` picks one of each such class. */
  function Folded(fold: string -> string, key: string): string {
    if IsPhotoKey(key) then RecordKey(PHOTO, fold(Drop(key, |PHOTO| + 1)))
    else RecordKey(INFO, fold(Drop(key, |INFO| + 1)))
  }

  lemma FoldedShape(fold: string -> string, key: string)
    ensures IsPhotoKey(Folded(fold, key)) <==> IsPhotoKey(key)
    ensures Folded(fold, key) != "" && Folded(fold, key)[0] == 'w'
  {
    KeyShape(PHOTO, fold(Drop(key, |PHOTO| + 1)));
    KeyShape(INFO, fold(Drop(key, |INFO| + 1)));
  }

  lemma FoldedOf(fold: string -> string, e: string, x: string)
    requires e in {INFO, PHOTO}
    ensures Folded(fold, RecordKey(e, x)) == RecordKey(e, fold(x))
  {
    KeyShape(e, x);
    assert Drop(RecordKey(e, x), |e| + 1) == x;
  }

  /** Keys fall together just when their entities agree and their raw keys do. */
  lemma FoldedIff(fold: string -> string, e: string, f: string, x: string, y: string)
    requires e in {INFO, PHOTO} && f in {INFO, PHOTO}
    ensures Folded(fold, RecordKey(e, x)) == Folded(fold, RecordKey(f, y)) <==> e == f && fold(x) == fold(y)
  {
    FoldedOf(fold, e, x);
    FoldedOf(fold, f, y);
    if RecordKey(e, fold(x)) == RecordKey(f, fold(y)) { RecordKeyInjective(e, f, fold(x), fold(y)); }
  }
}
