/** Character strings as the databases compare them, and decimal digit strings.

    SQLite's BINARY collation compares UTF-8 bytes, which orders texts exactly as
    comparing code points one by one does, so `Less` is defined on characters. */
module Text {

  datatype Option<+T> = None | Some(value: T)

  function Min(a: int, b: int): int { if a <= b then a else b }

  function Max(a: int, b: int): int { if a <= b then b else a }

  /** Lexicographic order, shorter first on a common prefix. */
  predicate Less(a: string, b: string) {
    if b == "" then false
    else if a == "" then true
    else a[0] < b[0] || (a[0] == b[0] && Less(a[1..], b[1..]))
  }

  /** The texts part at the first place where they differ or the left one ends. */
  ghost predicate PartsAt(a: string, b: string, i: nat) {
    i <= |a| && i < |b| && a[..i] == b[..i] && (i == |a| || a[i] < b[i])
  }

  /** Lexicographic order as it is usually put. */
  lemma {:induction false} LessIs(a: string, b: string)
    ensures Less(a, b) <==> exists i: nat :: PartsAt(a, b, i)
  {
    if a != "" && b != "" && a[0] == b[0] {
      LessIs(a[1..], b[1..]);
      assert a == [a[0]] + a[1..] && b == [b[0]] + b[1..];
      if Less(a, b) {
        var i: nat :| PartsAt(a[1..], b[1..], i);
        assert PartsAt(a, b, i + 1);
      }
      forall i: nat | PartsAt(a, b, i) ensures Less(a, b) {
        assert i > 0;
        assert a[1..][..i - 1] == a[..i][1..] && b[1..][..i - 1] == b[..i][1..];
        assert PartsAt(a[1..], b[1..], i - 1);
      }
    } else if Less(a, b) {
      assert PartsAt(a, b, 0);
    } else {
      forall i: nat | PartsAt(a, b, i) ensures i == 0 { if i > 0 { SameFirst(a, b, i); } }
    }
  }

  lemma SameFirst(a: string, b: string, i: nat)
    requires PartsAt(a, b, i) && i > 0
    ensures a != "" && b != "" && a[0] == b[0]
  {
    assert a[..i][0] == a[0] && b[..i][0] == b[0];
  }

  lemma {:induction false} LessIrreflexive(a: string)
    ensures !Less(a, a)
  {
    if a != "" { LessIrreflexive(a[1..]); }
  }

  lemma {:induction false} LessTransitive(a: string, b: string, c: string)
    requires Less(a, b) && Less(b, c)
    ensures Less(a, c)
  {
    if a != "" && a[0] == b[0] && b[0] == c[0] { LessTransitive(a[1..], b[1..], c[1..]); }
  }

  lemma {:induction false} LessTotal(a: string, b: string)
    ensures a == b || Less(a, b) || Less(b, a)
    ensures !(Less(a, b) && Less(b, a))
  {
    if a != "" && b != "" && a[0] == b[0] {
      LessTotal(a[1..], b[1..]);
      if a[1..] == b[1..] {
        assert a == [a[0]] + a[1..];
        assert b == [b[0]] + b[1..];
      }
    }
  }

  lemma {:induction false} LessAfterPrefix(p: string, a: string, b: string)
    ensures Less(p + a, p + b) <==> Less(a, b)
  {
    if p == "" {
      assert p + a == a && p + b == b;
    } else {
      assert (p + a)[1..] == p[1..] + a && (p + b)[1..] == p[1..] + b;
      LessAfterPrefix(p[1..], a, b);
    }
  }

  lemma Associate(a: string, b: string, c: string, d: string)
    ensures (a + (b + c)) + d == a + (b + (c + d))
  {
  }

  // ---------------------------------------------------------------- digits

  function Pow10(n: nat): (r: nat)
    ensures r > 0
  {
    if n == 0 then 1 else 10 * Pow10(n - 1)
  }

  function DigitChar(d: nat): char
    requires d < 10
  {
    '0' + d as char
  }

  predicate IsDigit(c: char) { '0' <= c <= '9' }

  predicate AllDigits(s: string) { forall i :: 0 <= i < |s| ==> IsDigit(s[i]) }

  /** `n` in exactly `width` digits, zero-padded, most significant first. */
  function Fixed(n: nat, width: nat): (s: string)
    requires n < Pow10(width)
    ensures |s| == width && AllDigits(s)
    decreases width
  {
    if width == 0 then ""
    else
      var p := Pow10(width - 1);
      assert n / p < 10 by { QuotientBelow(n, p, 10); }
      [DigitChar(n / p)] + Fixed(n % p, width - 1)
  }

  lemma QuotientBelow(n: nat, p: nat, k: nat)
    requires p > 0 && n < k * p
    ensures 0 <= n / p < k
  {
  }

  lemma LessCons(c: char, d: char, u: string, v: string)
    ensures Less([c] + u, [d] + v) <==> c < d || (c == d && Less(u, v))
  {
    assert ([c] + u)[1..] == u && ([d] + v)[1..] == v;
  }

  lemma FixedCons(n: nat, width: nat, x: string) returns (q: nat, r: nat)
    requires width > 0 && n < Pow10(width)
    ensures q < 10 && r < Pow10(width - 1)
    ensures q == n / Pow10(width - 1) && r == n % Pow10(width - 1)
    ensures n == q * Pow10(width - 1) + r
    ensures Fixed(n, width) + x == [DigitChar(q)] + (Fixed(r, width - 1) + x)
  {
    var p := Pow10(width - 1);
    QuotientBelow(n, p, 10);
    DivMod(n, p);
    q, r := n / p, n % p;
    assert Fixed(n, width) == [DigitChar(q)] + Fixed(r, width - 1);
    assert ([DigitChar(q)] + Fixed(r, width - 1)) + x == [DigitChar(q)] + (Fixed(r, width - 1) + x);
  }

  /** Two padded numbers of the same width compare as the numbers do; on a tie what
      follows them decides. */
  lemma {:induction false} FixedOrder(m: nat, n: nat, width: nat, x: string, y: string)
    requires m < Pow10(width) && n < Pow10(width)
    ensures Less(Fixed(m, width) + x, Fixed(n, width) + y) <==> m < n || (m == n && Less(x, y))
    decreases width
  {
    if width == 0 {
      assert Fixed(m, width) + x == x && Fixed(n, width) + y == y;
    } else {
      var q1, r1 := FixedCons(m, width, x);
      var q2, r2 := FixedCons(n, width, y);
      LessCons(DigitChar(q1), DigitChar(q2), Fixed(r1, width - 1) + x, Fixed(r2, width - 1) + y);
      FixedOrder(r1, r2, width - 1, x, y);
      BlockOrder(q1, r1, q2, r2, Pow10(width - 1));
    }
  }

  lemma BlockOrder(a: nat, r: nat, b: nat, s: nat, p: nat)
    requires r < p && s < p
    ensures a * p + r < b * p + s <==> a < b || (a == b && r < s)
    ensures a * p + r == b * p + s <==> a == b && r == s
  {
    if a < b { BlocksApart(a, b, p); }
    if b < a { BlocksApart(b, a, p); }
  }

  lemma DivMod(n: nat, p: nat)
    requires p > 0
    ensures n == (n / p) * p + n % p && 0 <= n % p < p
  {
  }

  lemma {:induction false} BlocksApart(a: nat, b: nat, p: nat)
    requires a < b
    ensures a * p + p <= b * p
    decreases b
  {
    assert b * p == (b - 1) * p + p;
    if a < b - 1 { BlocksApart(a, b - 1, p); }
  }

  /** The number a digit string denotes. */
  function ParseDigits(s: string): nat
    requires AllDigits(s)
  {
    if s == "" then 0
    else ParseDigits(s[..|s| - 1]) * 10 + (s[|s| - 1] - '0') as nat
  }

  lemma ParseSnoc(s: string, c: char)
    requires AllDigits(s) && IsDigit(c)
    ensures AllDigits(s + [c]) && ParseDigits(s + [c]) == ParseDigits(s) * 10 + (c - '0') as nat
  {
    assert (s + [c])[..|s|] == s;
  }

  lemma Scale(a: nat, p: nat, b: nat, d: nat)
    ensures (a * p + b) * 10 + d == a * (10 * p) + (b * 10 + d)
  {
    assert a * (10 * p) == (a * p) * 10;
  }

  lemma {:induction false} ParseConcat(a: string, b: string)
    requires AllDigits(a) && AllDigits(b)
    ensures AllDigits(a + b)
    ensures ParseDigits(a + b) == ParseDigits(a) * Pow10(|b|) + ParseDigits(b)
  {
    if b == "" {
      assert a + b == a;
    } else {
      var c, d := b[..|b| - 1], b[|b| - 1];
      assert a + b == (a + c) + [d] && b == c + [d];
      ParseConcat(a, c);
      ParseSnoc(a + c, d);
      Scale(ParseDigits(a), Pow10(|c|), ParseDigits(c), (d - '0') as nat);
    }
  }

  lemma ParseCons(d: nat, s: string)
    requires d < 10 && AllDigits(s)
    ensures AllDigits([DigitChar(d)] + s)
    ensures ParseDigits([DigitChar(d)] + s) == d * Pow10(|s|) + ParseDigits(s)
  {
    var c := [DigitChar(d)];
    ParseSnoc("", DigitChar(d));
    assert "" + c == c;
    assert ParseDigits(c) == d;
    ParseConcat(c, s);
  }

  lemma {:induction false} ParseFixed(n: nat, width: nat)
    requires n < Pow10(width)
    ensures ParseDigits(Fixed(n, width)) == n
    decreases width
  {
    if width > 0 {
      var q, r := FixedCons(n, width, "");
      var rest := Fixed(r, width - 1);
      ParseFixed(r, width - 1);
      ParseCons(q, rest);
      assert Fixed(n, width) == [DigitChar(q)] + rest by {
        assert Fixed(n, width) + "" == Fixed(n, width) && rest + "" == rest;
      }
    }
  }

  /** Digit strings of one length that denote the same number are the same. */
  lemma {:induction false} SameDigits(s: string, t: string)
    requires AllDigits(s) && AllDigits(t) && |s| == |t| && ParseDigits(s) == ParseDigits(t)
    ensures s == t
  {
    if s != "" {
      var n := |s| - 1;
      SameDigits(s[..n], t[..n]);
      assert s == s[..n] + [s[n]] && t == t[..n] + [t[n]];
    }
  }

  /** A natural number without leading zeros. */
  function Decimal(n: nat): (s: string)
    ensures s != "" && AllDigits(s)
  {
    if n < 10 then [DigitChar(n)] else Decimal(n / 10) + [DigitChar(n % 10)]
  }

  lemma {:induction false} ParseDecimal(n: nat)
    ensures ParseDigits(Decimal(n)) == n
  {
    var s := Decimal(n);
    if n < 10 {
      assert s[..0] == "";
    } else {
      ParseDecimal(n / 10);
      assert s[..|s| - 1] == Decimal(n / 10);
    }
  }

  /** No leading zero but in "0" itself. */
  lemma {:induction false} DecimalLeads(n: nat)
    ensures Decimal(n)[0] == '0' <==> n == 0
    ensures n == 0 ==> Decimal(n) == "0"
  {
    if n >= 10 {
      DecimalLeads(n / 10);
      assert n / 10 > 0;
    }
  }

  /** An integer is printed with a minus sign exactly when it is negative, then its digits without
      leading zeros. */
  lemma IntTextIs(n: int)
    ensures var digits := if n < 0 then IntText(n)[1..] else IntText(n);
      && (n < 0 ==> IntText(n)[0] == '-')
      && digits != "" && AllDigits(digits) && (digits[0] == '0' ==> digits == "0")
      && ParseDigits(digits) == if n < 0 then -n else n
  {
    var m: nat := if n < 0 then -n else n;
    ParseDecimal(m);
    DecimalLeads(m);
    assert n < 0 ==> IntText(n)[1..] == Decimal(m);
  }

  function IntText(n: int): string { if n < 0 then "-" + Decimal(-n) else Decimal(n) }

  // ---------------------------------------------------------------- search

  /** Position of the first `c`, or the length. */
  function Find(s: string, c: char): (i: nat)
    ensures i <= |s| && (i < |s| ==> s[i] == c)
  {
    if s == "" || s[0] == c then 0 else 1 + Find(s[1..], c)
  }

  lemma {:induction false} FindAfter(a: string, c: char, rest: string)
    requires c !in a
    ensures Find(a + ([c] + rest), c) == |a| && Find(a, c) == |a|
  {
    if a == "" {
      assert a + ([c] + rest) == [c] + rest;
    } else {
      assert (a + ([c] + rest))[1..] == a[1..] + ([c] + rest);
      FindAfter(a[1..], c, rest);
    }
  }

  // ------------------------------------------------------------------ trim

  /** Unicode white space, as Go's `strings.TrimSpace` removes it. */
  predicate IsSpace(c: char) {
    var n := c as int;
    9 <= n <= 13 || n == 32 || n == 0x85 || n == 0xA0 || n == 0x1680 || 0x2000 <= n <= 0x200A ||
    0x2028 <= n <= 0x2029 || n == 0x202F || n == 0x205F || n == 0x3000
  }

  function TrimLeft(s: string): string {
    if s != "" && IsSpace(s[0]) then TrimLeft(s[1..]) else s
  }

  function TrimRight(s: string): string {
    if s != "" && IsSpace(s[|s| - 1]) then TrimRight(s[..|s| - 1]) else s
  }

  function Trim(s: string): string { TrimRight(TrimLeft(s)) }

  lemma {:induction false} TrimRightKeeps(s: string)
    requires s != "" && !IsSpace(s[0])
    ensures TrimRight(s) != ""
  {
    if |s| > 1 { TrimRightKeeps(s[..|s| - 1]); }
  }

  /** Trimming cuts white space off both ends and nothing else. */
  lemma TrimIs(s: string) returns (i: nat, j: nat)
    ensures i <= j <= |s| && Trim(s) == s[i..j]
    ensures forall k :: 0 <= k < i || j <= k < |s| ==> IsSpace(s[k])
    ensures Trim(s) != "" ==> !IsSpace(s[i]) && !IsSpace(s[j - 1])
  {
    i := TrimLeftIs(s);
    var n := TrimRightIs(s[i..]);
    j := i + n;
    assert s[i..][..n] == s[i..j];
    forall k | j <= k < |s| ensures IsSpace(s[k]) { assert s[k] == s[i..][k - i]; }
  }

  lemma {:induction false} TrimLeftIs(s: string) returns (i: nat)
    ensures i <= |s| && TrimLeft(s) == s[i..] && (i < |s| ==> !IsSpace(s[i]))
    ensures forall k :: 0 <= k < i ==> IsSpace(s[k])
  {
    i := 0;
    if s != "" && IsSpace(s[0]) {
      var n := TrimLeftIs(s[1..]);
      i := n + 1;
      assert s[1..][n..] == s[i..];
      forall k | 0 <= k < i ensures IsSpace(s[k]) { if k > 0 { assert s[k] == s[1..][k - 1]; } }
    }
  }

  lemma {:induction false} TrimRightIs(s: string) returns (n: nat)
    ensures n <= |s| && TrimRight(s) == s[..n] && (n > 0 ==> !IsSpace(s[n - 1]))
    ensures forall k :: n <= k < |s| ==> IsSpace(s[k])
  {
    n := |s|;
    if s != "" && IsSpace(s[|s| - 1]) {
      n := TrimRightIs(s[..|s| - 1]);
      assert s[..|s| - 1][..n] == s[..n];
      forall k | n <= k < |s| ensures IsSpace(s[k]) { if k < |s| - 1 { assert s[k] == s[..|s| - 1][k]; } }
    }
  }

  /** The code points with the Unicode property White_Space. */
  const WHITE_SPACE: seq<int> :=
    [0x9, 0xA, 0xB, 0xC, 0xD, 0x20, 0x85, 0xA0, 0x1680, 0x2000, 0x2001, 0x2002, 0x2003, 0x2004, 0x2005, 0x2006,
     0x2007, 0x2008, 0x2009, 0x200A, 0x2028, 0x2029, 0x202F, 0x205F, 0x3000]

  lemma SpacesAre(c: char)
    ensures IsSpace(c) <==> c as int in WHITE_SPACE
  {
    var n := c as int;
    if IsSpace(c) {
      if 9 <= n <= 13 {
        assert WHITE_SPACE[n - 9] == n;
      } else if 0x2000 <= n <= 0x200A {
        assert WHITE_SPACE[n - 0x2000 + 9] == n;
      } else {
        assert WHITE_SPACE[5] == 0x20 && WHITE_SPACE[6] == 0x85 && WHITE_SPACE[7] == 0xA0 && WHITE_SPACE[8] == 0x1680;
        assert WHITE_SPACE[20] == 0x2028 && WHITE_SPACE[21] == 0x2029 && WHITE_SPACE[22] == 0x202F;
        assert WHITE_SPACE[23] == 0x205F && WHITE_SPACE[24] == 0x3000;
      }
    }
  }
}
