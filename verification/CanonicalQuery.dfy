/** The query text that clients and the receiver sign: parameters without the signature, sorted
    and percent-encoded (section 2.1 of RFC 3986, with `+` for a space). Strings are bytes. */
module CanonicalQuery {
  import opened Text
  import opened Ordering

  type Byte = c: char | c as int < 256 witness 'a'
  type Bytes = seq<Byte>
  type Pair = (Bytes, Bytes)

  /** `url.Values`. */
  type Params = map<Bytes, seq<Bytes>>

  // --------------------------------------------------------------- escaping

  predicate Unreserved(c: char) {
    'a' <= c <= 'z' || 'A' <= c <= 'Z' || '0' <= c <= '9' || c in {'-', '_', '.', '~'}
  }

  function HexDigit(n: nat): char
    requires n < 16
  {
    if n < 10 then '0' + n as char else 'A' + (n - 10) as char
  }

  function HexValue(c: char): Option<nat> {
    if '0' <= c <= '9' then Some((c - '0') as nat)
    else if 'A' <= c <= 'F' then Some((c - 'A') as nat + 10)
    else if 'a' <= c <= 'f' then Some((c - 'a') as nat + 10)
    else None
  }

  function EscapeByte(c: Byte): string {
    if Unreserved(c) then [c]
    else if c == ' ' then "+"
    else ['%', HexDigit(c as nat / 16), HexDigit(c as nat % 16)]
  }

  function Escape(s: Bytes): string {
    if s == [] then "" else EscapeByte(s[0]) + Escape(s[1..])
  }

  /** None when a percent sign is not followed by two hex digits. */
  function Unescape(s: string): Option<Bytes> {
    if s == "" then Some([])
    else if s[0] == '%' then
      if |s| < 3 || HexValue(s[1]).None? || HexValue(s[2]).None? then None
      else
        var rest := Unescape(s[3..]);
        if rest.None? then None
        else Some([HexByte(HexValue(s[1]).value, HexValue(s[2]).value)] + rest.value)
    else
      var rest := Unescape(s[1..]);
      if rest.None? || s[0] as int >= 256 then None
      else Some([if s[0] == '+' then ' ' else s[0]] + rest.value)
  }

  function HexByte(hi: nat, lo: nat): Byte {
    if hi < 16 && lo < 16 then (hi * 16 + lo) as char else ' '
  }

  lemma {:induction false} EscapeRoundTrip(s: Bytes)
    ensures Unescape(Escape(s)) == Some(s)
  {
    if s != [] {
      EscapeRoundTrip(s[1..]);
      var c, rest := s[0], Escape(s[1..]);
      var e := EscapeByte(c) + rest;
      assert s == [c] + s[1..] && Escape(s) == e;
      if Unreserved(c) {
        assert e[0] == c && e[1..] == rest;
      } else if c == ' ' {
        assert e[0] == '+' && e[1..] == rest;
      } else {
        HexRoundTrip(c);
        assert e[3..] == rest;
      }
    }
  }

  lemma HexRoundTrip(c: Byte)
    ensures var hi, lo := c as nat / 16, c as nat % 16;
      hi < 16 && HexValue(HexDigit(hi)) == Some(hi) && HexValue(HexDigit(lo)) == Some(lo) && HexByte(hi, lo) == c
  {
  }

  /** How each byte is written: letters, digits and `-_.~` as they are, a space as `+`, any other as
      a percent sign and two upper-case hex digits. */
  lemma EscapeByteIs(c: Byte)
    ensures var n, hex := c as int, "0123456789ABCDEF";
      EscapeByte(c) ==
        if 65 <= n <= 90 || 97 <= n <= 122 || 48 <= n <= 57 || n == 45 || n == 95 || n == 46 || n == 126 then [c]
        else if n == 32 then "+"
        else ['%', hex[n / 16], hex[n % 16]]
  {
    HexDigitIs(c as nat / 16);
    HexDigitIs(c as nat % 16);
  }

  lemma HexDigitIs(n: nat)
    requires n < 16
    ensures HexDigit(n) == "0123456789ABCDEF"[n]
  {
  }

  /** How text is read: `+` is a space, percent and two hex digits of either case a byte, and a
      percent sign without them makes the text unreadable. */
  lemma UnescapeIs(s: string, rest: string)
    ensures Unescape("+" + rest) == if Unescape(rest).None? then None else Some([' '] + Unescape(rest).value)
    ensures |s| == 2 ==> (Unescape("%" + s + rest) ==
              var hi, lo := HexOf(s[0]), HexOf(s[1]);
              if hi >= 16 || lo >= 16 || Unescape(rest).None? then None else Some([(hi * 16 + lo) as char] + Unescape(rest).value))
    ensures |s| < 2 ==> Unescape("%" + s) == None
  {
    assert ("+" + rest)[1..] == rest;
    if |s| == 2 {
      HexValueIs(s[0]);
      HexValueIs(s[1]);
      assert ("%" + s + rest)[3..] == rest && ("%" + s + rest)[1] == s[0] && ("%" + s + rest)[2] == s[1];
    }
  }

  /** The value of a hex digit of either case, 16 for any other character. */
  function HexOf(c: char): nat {
    var n := c as int;
    if 48 <= n <= 57 then n - 48 else if 65 <= n <= 70 then n - 55 else if 97 <= n <= 102 then n - 87 else 16
  }

  lemma HexValueIs(c: char)
    ensures HexValue(c) == if HexOf(c) < 16 then Some(HexOf(c)) else None
  {
  }

  /** Escaped text holds none of the separators. */
  predicate Plain(s: string) { forall i :: 0 <= i < |s| ==> s[i] !in {'&', '=', ';'} }

  lemma {:induction false} EscapePlain(s: Bytes)
    ensures Plain(Escape(s))
  {
    if s != [] { EscapePlain(s[1..]); }
  }

  // ------------------------------------------------------- pairs and queries

  function EncodePair(p: Pair): string { Escape(p.0) + ("=" + Escape(p.1)) }

  /** `key=value` joined by `&`. */
  function EncodePairs(ps: seq<Pair>): string {
    if ps == [] then ""
    else if |ps| == 1 then EncodePair(ps[0])
    else EncodePair(ps[0]) + ("&" + EncodePairs(ps[1..]))
  }

  function AfterCut(s: string, i: nat): (rest: string)
    requires i <= |s|
    ensures s != "" ==> |rest| < |s|
  {
    if i < |s| then s[i + 1..] else ""
  }

  /** One segment; empty and malformed ones yield nothing. */
  function ParseSegment(s: string): seq<Pair> {
    if s == "" || ';' in s then []
    else
      var i := Find(s, '=');
      var key, value := Unescape(s[..i]), Unescape(AfterCut(s, i));
      if key.None? || value.None? then [] else [(key.value, value.value)]
  }

  function ParsePairs(s: string): seq<Pair>
    decreases |s|
  {
    if s == "" then []
    else
      var i := Find(s, '&');
      ParseSegment(s[..i]) + ParsePairs(AfterCut(s, i))
  }

  lemma SegmentRoundTrip(p: Pair)
    ensures EncodePair(p) != "" && '&' !in EncodePair(p)
    ensures ParseSegment(EncodePair(p)) == [p]
  {
    EscapePlain(p.0);
    EscapePlain(p.1);
    EscapeRoundTrip(p.0);
    EscapeRoundTrip(p.1);
    CutAtSign(Escape(p.0), Escape(p.1));
  }

  lemma CutAtSign(k: string, v: string)
    requires Plain(k) && Plain(v)
    ensures var s := k + ("=" + v);
      && s != "" && '&' !in s && ';' !in s
      && Find(s, '=') == |k| && s[..|k|] == k && AfterCut(s, |k|) == v
  {
    FindAfter(k, '=', v);
    assert (k + ("=" + v))[|k| + 1..] == v;
  }

  /** A segment without `=` has the empty value; one with a semicolon, or that cannot be read, is
      dropped. */
  lemma SegmentIs(key: string, value: string)
    requires '=' !in key
    ensures ParseSegment(key + ("=" + value)) ==
            if ';' in key || ';' in value || Unescape(key).None? || Unescape(value).None? then []
            else [(Unescape(key).value, Unescape(value).value)]
    ensures ParseSegment(key) == if key == "" || ';' in key || Unescape(key).None? then [] else [(Unescape(key).value, [])]
  {
    FindAfter(key, '=', value);
    var s := key + ("=" + value);
    assert s[..|key|] == key && s[|key| + 1..] == value && key[..|key|] == key;
    assert ';' in s <==> ';' in key || ';' in value;
  }

  lemma ParseJoined(head: string, rest: string)
    requires head != "" && '&' !in head
    ensures ParsePairs(head) == ParseSegment(head)
    ensures ParsePairs(head + ("&" + rest)) == ParseSegment(head) + ParsePairs(rest)
  {
    FindAfter(head, '&', rest);
    assert head[..|head|] == head && ParsePairs("") == [];
    var s := head + ("&" + rest);
    assert s[..|head|] == head && s[|head| + 1..] == rest;
  }

  /** Decoding an encoded list gives the list back, repeated and empty keys included. */
  lemma {:induction false} PairsRoundTrip(ps: seq<Pair>)
    ensures ParsePairs(EncodePairs(ps)) == ps
  {
    if ps != [] {
      SegmentRoundTrip(ps[0]);
      ParseJoined(EncodePair(ps[0]), EncodePairs(ps[1..]));
      PairsRoundTrip(ps[1..]);
      assert ps == [ps[0]] + ps[1..];
    }
  }

  /** How often a pair occurs among the parameters. */
  function Count(q: Params, p: Pair): nat {
    if p.0 in q then multiset(q[p.0])[p.1] else 0
  }

  /** The parameters a list of pairs denotes, as `ParseQuery` groups them. */
  function Group(ps: seq<Pair>): Params {
    if ps == [] then map[]
    else
      var q, p := Group(ps[..|ps| - 1]), ps[|ps| - 1];
      q[p.0 := (if p.0 in q then q[p.0] else []) + [p.1]]
  }

  lemma {:induction false} GroupCount(ps: seq<Pair>, p: Pair)
    ensures Count(Group(ps), p) == multiset(ps)[p]
  {
    if ps != [] {
      var init, last := ps[..|ps| - 1], ps[|ps| - 1];
      GroupCount(init, p);
      assert ps == init + [last];
      assert multiset(ps) == multiset(init) + multiset{last};
    }
  }

  // ----------------------------------------------------------- canonical form

  const SIGNATURE: set<Bytes> := {"signature", "sign"}

  /** How often a pair counts for the signature. */
  function SignedCount(q: Params, p: Pair): nat { if p.0 in SIGNATURE then 0 else Count(q, p) }

  ghost predicate SameParameters(q: Params, r: Params) { forall p: Pair :: SignedCount(q, p) == SignedCount(r, p) }

  predicate PairLess(p: Pair, q: Pair) { Less(p.0, q.0) || (p.0 == q.0 && Less(p.1, q.1)) }

  function PairOrder(): (Pair, Pair) -> bool { (p, q) => PairLess(p, q) }

  /** The sorted listing of the signed pairs. */
  ghost predicate IsCanonicalList(q: Params, ps: seq<Pair>) {
    SortedBy(PairOrder(), ps) && forall p: Pair :: multiset(ps)[p] == SignedCount(q, p)
  }

  lemma CanonicalListUnique(q: Params, r: Params, ps: seq<Pair>, qs: seq<Pair>)
    requires SameParameters(q, r) && IsCanonicalList(q, ps) && IsCanonicalList(r, qs)
    ensures ps == qs
  {
    forall x: Pair, y: Pair | x != y ensures PairLess(x, y) || PairLess(y, x) {
      LessTotal(x.0, y.0);
      LessTotal(x.1, y.1);
    }
    assert multiset(ps) == multiset(qs) by {
      forall p: Pair ensures multiset(ps)[p] == multiset(qs)[p] {
        assert SignedCount(q, p) == SignedCount(r, p);
      }
    }
    SortedUnique(PairOrder(), ps, qs);
  }

  /** Two canonical texts are equal exactly when the parameters apart from the signature are,
      key by key as multisets. */
  lemma CanonicalTextIff(q: Params, r: Params, ps: seq<Pair>, qs: seq<Pair>)
    requires IsCanonicalList(q, ps) && IsCanonicalList(r, qs)
    ensures EncodePairs(ps) == EncodePairs(qs) <==> SameParameters(q, r)
  {
    PairsRoundTrip(ps);
    PairsRoundTrip(qs);
    if SameParameters(q, r) { CanonicalListUnique(q, r, ps, qs); }
    if ps == qs {
      forall p: Pair ensures SignedCount(q, p) == SignedCount(r, p) { assert multiset(ps)[p] == multiset(qs)[p]; }
    }
  }

  /** Decoding a canonical text and canonicalising again changes nothing. */
  lemma CanonicalTwice(q: Params, ps: seq<Pair>)
    requires IsCanonicalList(q, ps)
    ensures IsCanonicalList(Group(ParsePairs(EncodePairs(ps))), ps)
  {
    PairsRoundTrip(ps);
    forall p: Pair ensures multiset(ps)[p] == SignedCount(Group(ps), p) {
      GroupCount(ps, p);
      assert multiset(ps)[p] == SignedCount(q, p);
    }
  }

  /** A client that sends its parameters encoded in any order, with or without a signature, and a
      receiver that decodes them sign the same text. */
  lemma BothSidesSignTheSame(q: Params, sent: seq<Pair>, client: seq<Pair>, receiver: seq<Pair>)
    requires forall p: Pair :: p.0 !in SIGNATURE ==> multiset(sent)[p] == Count(q, p)
    requires IsCanonicalList(q, client)
    requires IsCanonicalList(Group(ParsePairs(EncodePairs(sent))), receiver)
    ensures EncodePairs(client) == EncodePairs(receiver)
  {
    PairsRoundTrip(sent);
    forall p: Pair ensures SignedCount(q, p) == SignedCount(Group(sent), p) { GroupCount(sent, p); }
    CanonicalTextIff(q, Group(sent), client, receiver);
  }

  // -------------------------------------------------------- computing it

  function Insert(x: Bytes, s: seq<Bytes>): seq<Bytes> {
    if s == [] || !Less(s[0], x) then [x] + s else [s[0]] + Insert(x, s[1..])
  }

  /** `sort.Strings`. */
  function SortStrings(s: seq<Bytes>): seq<Bytes> {
    if s == [] then [] else Insert(s[0], SortStrings(s[1..]))
  }

  function StringOrder(): (Bytes, Bytes) -> bool { (a, b) => Less(a, b) }

  ghost predicate Sorted(s: seq<Bytes>) { SortedBy(StringOrder(), s) }

  lemma {:induction false} InsertSorted(x: Bytes, s: seq<Bytes>)
    requires Sorted(s)
    ensures Sorted(Insert(x, s)) && multiset(Insert(x, s)) == multiset{x} + multiset(s)
  {
    if s != [] {
      assert s == [s[0]] + s[1..];
      if Less(s[0], x) {
        SortedTail(s);
        InsertSorted(x, s[1..]);
        var t := Insert(x, s[1..]);
        LessTotal(s[0], x);
        NoneLess(s[0], x, s[1..], t);
        SortedCons(s[0], t);
      } else {
        forall j | 0 <= j < |s| ensures !Less(s[j], x) {
          NotLessChain(x, s[0], s[j]);
          if j > 0 { assert !Less(s[j], s[0]); }
        }
        SortedCons(x, s);
      }
    }
  }

  lemma SortedTail(s: seq<Bytes>)
    requires Sorted(s) && s != []
    ensures Sorted(s[1..]) && forall j :: 0 <= j < |s| - 1 ==> !Less(s[1..][j], s[0])
  {
  }

  lemma NoneLess(y: Bytes, x: Bytes, s: seq<Bytes>, t: seq<Bytes>)
    requires !Less(x, y) && (forall j :: 0 <= j < |s| ==> !Less(s[j], y)) && multiset(t) == multiset{x} + multiset(s)
    ensures forall j :: 0 <= j < |t| ==> !Less(t[j], y)
  {
    forall j | 0 <= j < |t| ensures !Less(t[j], y) {
      assert t[j] in multiset(t);
      assert t[j] == x || t[j] in s;
    }
  }

  lemma SortedCons(x: Bytes, s: seq<Bytes>)
    requires Sorted(s) && forall j :: 0 <= j < |s| ==> !Less(s[j], x)
    ensures Sorted([x] + s)
  {
  }

  lemma NotLessChain(x: Bytes, y: Bytes, z: Bytes)
    requires !Less(y, x)
    ensures !Less(z, y) ==> !Less(z, x)
  {
    LessTotal(x, y);
    LessTotal(y, z);
    if Less(z, x) {
      if x != y { LessTransitive(z, x, y); }
    }
  }

  lemma {:induction false} SortStringsSorts(s: seq<Bytes>)
    ensures Sorted(SortStrings(s)) && multiset(SortStrings(s)) == multiset(s)
  {
    if s != [] {
      SortStringsSorts(s[1..]);
      InsertSorted(s[0], SortStrings(s[1..]));
      assert s == [s[0]] + s[1..];
    }
  }

  lemma {:induction false} InsertDistinct(x: Bytes, s: seq<Bytes>)
    requires Distinct(s) && x !in s
    ensures Distinct(Insert(x, s)) && Elements(Insert(x, s)) == {x} + Elements(s)
  {
    if s != [] {
      assert s == [s[0]] + s[1..];
      if Less(s[0], x) {
        InsertDistinct(x, s[1..]);
        var t := Insert(x, s[1..]);
        assert forall y :: y in t ==> y in Elements(t);
        assert s[0] !in t;
        assert Elements([s[0]] + t) == {s[0]} + Elements(t);
      }
    }
  }

  lemma {:induction false} SortDistinct(s: seq<Bytes>)
    requires Distinct(s)
    ensures Distinct(SortStrings(s)) && Elements(SortStrings(s)) == Elements(s)
  {
    if s != [] {
      SortDistinct(s[1..]);
      assert s[0] !in s[1..];
      assert s[0] !in Elements(SortStrings(s[1..]));
      InsertDistinct(s[0], SortStrings(s[1..]));
      assert Elements(s) == {s[0]} + Elements(s[1..]) by { assert s == [s[0]] + s[1..]; }
    }
  }

  function PairsOf(k: Bytes, vs: seq<Bytes>): seq<Pair> {
    if vs == [] then [] else PairsOf(k, vs[..|vs| - 1]) + [(k, vs[|vs| - 1])]
  }

  lemma {:induction false} PairsOfList(k: Bytes, vs: seq<Bytes>)
    ensures |PairsOf(k, vs)| == |vs| && forall i :: 0 <= i < |vs| ==> PairsOf(k, vs)[i] == (k, vs[i])
  {
    if vs != [] { PairsOfList(k, vs[..|vs| - 1]); }
  }

  lemma {:induction false} PairsOfCount(k: Bytes, vs: seq<Bytes>, p: Pair)
    ensures multiset(PairsOf(k, vs))[p] == if p.0 == k then multiset(vs)[p.1] else 0
  {
    if vs != [] {
      PairsOfCount(k, vs[..|vs| - 1], p);
      assert vs == vs[..|vs| - 1] + [vs[|vs| - 1]];
    }
  }

  /** `url.Values.Encode` lists the pairs key by key. */
  function Flat(q: Params, keys: seq<Bytes>): seq<Pair>
    requires forall i :: 0 <= i < |keys| ==> keys[i] in q
  {
    if keys == [] then []
    else Flat(q, keys[..|keys| - 1]) + PairsOf(keys[|keys| - 1], q[keys[|keys| - 1]])
  }

  lemma {:induction false} FlatCount(q: Params, keys: seq<Bytes>, p: Pair)
    requires Distinct(keys) && forall i :: 0 <= i < |keys| ==> keys[i] in q
    ensures multiset(Flat(q, keys))[p] == if p.0 in keys then multiset(q[p.0])[p.1] else 0
  {
    if keys != [] {
      var init, last := keys[..|keys| - 1], keys[|keys| - 1];
      FlatCount(q, init, p);
      PairsOfCount(last, q[last], p);
      assert keys == init + [last];
      assert last !in init;
    }
  }

  lemma {:induction false} FlatKeys(q: Params, keys: seq<Bytes>, i: nat)
    requires forall i :: 0 <= i < |keys| ==> keys[i] in q
    requires i < |Flat(q, keys)|
    ensures Flat(q, keys)[i].0 in keys
  {
    var n := |keys| - 1;
    var before := Flat(q, keys[..n]);
    PairsOfList(keys[n], q[keys[n]]);
    if i < |before| { FlatKeys(q, keys[..n], i); }
  }

  lemma {:induction false} FlatSorted(q: Params, keys: seq<Bytes>)
    requires Sorted(keys) && Distinct(keys) && forall i :: 0 <= i < |keys| ==> keys[i] in q && Sorted(q[keys[i]])
    ensures SortedBy(PairOrder(), Flat(q, keys))
  {
    if keys != [] {
      var n := |keys| - 1;
      var a, b := Flat(q, keys[..n]), PairsOf(keys[n], q[keys[n]]);
      FlatSorted(q, keys[..n]);
      PairsOfList(keys[n], q[keys[n]]);
      LessIrreflexive(keys[n]);
      forall i, j | 0 <= i < j < |a + b| ensures !PairLess((a + b)[j], (a + b)[i]) {
        if j < |a| {
          assert !PairOrder()(a[j], a[i]);
        } else if i < |a| {
          FlatKeys(q, keys[..n], i);
          var m :| 0 <= m < n && keys[m] == a[i].0;
          assert !Less(keys[n], keys[m]) && keys[n] != keys[m];
        }
      }
    }
  }

  /** `clone` and `keys` hold the parameters outside `left`, without the signature. */
  ghost predicate Cloned(values: Params, left: set<Bytes>, clone: Params, keys: seq<Bytes>) {
    && (forall k :: k in clone <==> k in values && k !in left && k !in SIGNATURE)
    && (forall k :: k in clone ==> clone[k] == SortStrings(values[k]))
    && Distinct(keys) && (forall k :: k in clone <==> k in keys)
  }

  lemma CloneStep(values: Params, left: set<Bytes>, clone: Params, keys: seq<Bytes>, k: Bytes)
    requires Cloned(values, left, clone, keys) && k in left && k in values
    ensures k in SIGNATURE ==> Cloned(values, left - {k}, clone, keys)
    ensures k !in SIGNATURE ==> Cloned(values, left - {k}, clone[k := SortStrings(values[k])], keys + [k])
  {
  }

  /** Clones the parameters without the signature, each key's values sorted. */
  method CloneSorted(values: Params) returns (clone: Params, keys: seq<Bytes>)
    ensures Cloned(values, {}, clone, keys)
  {
    var left := values.Keys;
    clone, keys := map[], [];
    while left != {}
      invariant left <= values.Keys && Cloned(values, left, clone, keys)
      decreases |left|
    {
      var k :| k in left;
      CloneStep(values, left, clone, keys, k);
      left := left - {k};
      if k !in SIGNATURE {
        clone, keys := clone[k := SortStrings(values[k])], keys + [k];
      }
    }
  }

  method List(q: Params, keys: seq<Bytes>) returns (pairs: seq<Pair>)
    requires forall i :: 0 <= i < |keys| ==> keys[i] in q
    ensures pairs == Flat(q, keys)
  {
    pairs := [];
    for i := 0 to |keys|
      invariant pairs == Flat(q, keys[..i])
    {
      assert keys[..i + 1][..i] == keys[..i];
      pairs := pairs + PairsOf(keys[i], q[keys[i]]);
    }
    assert keys[..|keys|] == keys;
  }

  /** The three `canonicalQuery` functions: clone without the signature, sort each key's values,
      list by sorted keys, encode. */
  method Canonicalize(values: Params) returns (text: string, pairs: seq<Pair>)
    ensures forall i, j :: 0 <= i < j < |pairs| ==>
              !Less(pairs[j].0, pairs[i].0) && (pairs[i].0 == pairs[j].0 ==> !Less(pairs[j].1, pairs[i].1))
    ensures forall p: Pair :: multiset(pairs)[p] ==
              if p.0 == "signature" || p.0 == "sign" || p.0 !in values then 0 else multiset(values[p.0])[p.1]
    ensures IsCanonicalList(values, pairs) && text == EncodePairs(pairs)
  {
    var clone, keys := CloneSorted(values);
    SortStringsSorts(keys);
    SortDistinct(keys);
    var sorted := SortStrings(keys);
    assert forall k :: k in keys <==> k in Elements(keys);
    assert forall k :: k in sorted <==> k in Elements(sorted);
    FlatIsCanonical(values, clone, sorted);
    pairs := List(clone, sorted);
    text := EncodePairs(pairs);
    ListIs(values, pairs);
  }

  lemma ListIs(q: Params, pairs: seq<Pair>)
    requires IsCanonicalList(q, pairs)
    ensures forall i, j :: 0 <= i < j < |pairs| ==>
              !Less(pairs[j].0, pairs[i].0) && (pairs[i].0 == pairs[j].0 ==> !Less(pairs[j].1, pairs[i].1))
    ensures forall p: Pair :: multiset(pairs)[p] ==
              if p.0 == "signature" || p.0 == "sign" || p.0 !in q then 0 else multiset(q[p.0])[p.1]
  {
    forall i, j | 0 <= i < j < |pairs|
      ensures !Less(pairs[j].0, pairs[i].0) && (pairs[i].0 == pairs[j].0 ==> !Less(pairs[j].1, pairs[i].1))
    {
      assert !PairOrder()(pairs[j], pairs[i]);
    }
    forall p: Pair ensures multiset(pairs)[p] == if p.0 == "signature" || p.0 == "sign" || p.0 !in q then 0 else multiset(q[p.0])[p.1] {
      assert multiset(pairs)[p] == SignedCount(q, p);
    }
  }

  lemma FlatIsCanonical(values: Params, clone: Params, keys: seq<Bytes>)
    requires Cloned(values, {}, clone, keys) && Sorted(keys)
    ensures forall i :: 0 <= i < |keys| ==> keys[i] in clone
    ensures IsCanonicalList(values, Flat(clone, keys))
  {
    forall i | 0 <= i < |keys| ensures Sorted(clone[keys[i]]) { SortStringsSorts(values[keys[i]]); }
    FlatSorted(clone, keys);
    forall p: Pair ensures multiset(Flat(clone, keys))[p] == SignedCount(values, p) {
      FlatCount(clone, keys, p);
      if p.0 in clone { SortStringsSorts(values[p.0]); }
    }
  }
}
