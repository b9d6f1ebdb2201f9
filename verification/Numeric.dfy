/** Exact decimal printing of SQL Server numerics, in the source's 128-bit arithmetic. */
module Numeric {
  import opened Text

  /** The range of a Rust `i128`. */
  const I128_MAX: int := 0x7FFF_FFFF_FFFF_FFFF_FFFF_FFFF_FFFF_FFFF
  const I128_MIN: int := -I128_MAX - 1

  type I128 = n: int | I128_MIN <= n <= I128_MAX

  lemma {:induction false} PowersGrow(a: nat, b: nat)
    requires a <= b
    ensures Pow10(a) <= Pow10(b)
    decreases b
  {
    if a < b { PowersGrow(a, b - 1); }
  }

  lemma {:induction false} PowersMultiply(a: nat, b: nat)
    ensures Pow10(a + b) == Pow10(a) * Pow10(b)
  {
    if b > 0 {
      PowersMultiply(a, b - 1);
      TenTimes(Pow10(a), Pow10(b - 1));
    }
  }

  lemma TenTimes(p: nat, q: nat)
    ensures p * (10 * q) == 10 * (p * q)
  {
  }

  lemma PowersFit()
    ensures Pow10(38) == 100_000_000_000_000_000_000_000_000_000_000_000_000 <= I128_MAX
  {
    assert Pow10(1) == 10;
    assert Pow10(2) == 100 by { PowersMultiply(1, 1); }
    assert Pow10(4) == 10_000 by { PowersMultiply(2, 2); }
    assert Pow10(8) == 100_000_000 by { PowersMultiply(4, 4); }
    assert Pow10(16) == 10_000_000_000_000_000 by { PowersMultiply(8, 8); }
    assert Pow10(32) == 100_000_000_000_000_000_000_000_000_000_000 by { PowersMultiply(16, 16); }
    PowersMultiply(32, 4);
    PowersMultiply(36, 2);
  }

  /** A value the driver delivers: fewer than 38 fraction digits, at most 38 digits in all. */
  predicate Deliverable(raw: int, scale: nat) { scale <= 37 && raw < Pow10(38) && -raw < Pow10(38) }

  /** `format_numeric`, with every intermediate value in its 128-bit type: that this is well
      formed says that none of them overflows. */
  function FormatNumeric(raw: int, scale: nat): string
    requires Deliverable(raw, scale)
  {
    PowersFit();
    PowersGrow(scale, 37);
    assert Pow10(38) == 10 * Pow10(37);
    if scale == 0 then IntText(raw)
    else
      var abs: I128 := if raw < 0 then -raw else raw;
      var factor: I128 := Pow10(scale);
      DivideBounds(abs, factor);
      var integer: I128 := abs / factor;
      var fraction: I128 := abs % factor;
      (if raw < 0 then "-" else "") + (Decimal(integer) + ("." + Fixed(fraction, scale)))
  }

  lemma DivideBounds(a: nat, d: nat)
    requires d > 0
    ensures 0 <= a / d <= a && 0 <= a % d < d && a == (a / d) * d + a % d
  {
    DivMod(a, d);
    AtLeastOnce(a / d, d);
  }

  lemma {:induction false} AtLeastOnce(q: nat, d: nat)
    requires d > 0
    ensures q <= q * d
  {
    if q > 0 {
      AtLeastOnce(q - 1, d);
      assert q * d == (q - 1) * d + d;
    }
  }

  // -------------------------------------------------------------- read back

  /** A printed number as sign, digits before the point and digits after it. */
  datatype Printed = Printed(negative: bool, whole: string, fraction: string)

  function Read(s: string): Printed {
    if s != "" && s[0] == '-' then ReadDigits(true, s[1..]) else ReadDigits(false, s)
  }

  function ReadDigits(negative: bool, s: string): Printed {
    var p := Find(s, '.');
    Printed(negative, s[..p], if p < |s| then s[p + 1..] else "")
  }

  /** Printing is exact: the text has exactly `scale` fraction digits and its sign, and reading
      its digits back as an integer gives the raw value, for every deliverable value. */
  lemma FormatNumericExact(raw: int, scale: nat)
    requires scale <= 37 && raw < Pow10(38) && -raw < Pow10(38)
    ensures var r := Read(FormatNumeric(raw, scale));
      && r.negative == (raw < 0)
      && r.whole != "" && AllDigits(r.whole) && AllDigits(r.fraction)
      && |r.fraction| == scale && (r.whole[0] == '0' ==> r.whole == "0")
      && ParseDigits(r.whole + r.fraction) == (if raw < 0 then -raw else raw)
  {
    var abs: nat := if raw < 0 then -raw else raw;
    var factor := Pow10(scale);
    DivideBounds(abs, factor);
    var q: nat, r: nat := abs / factor, abs % factor;
    FormatText(raw, scale, q, r);
    DecimalLeads(q);
    Joined(q, r, scale);
    ReadBack(raw < 0, Decimal(q), Fixed(r, scale), scale > 0);
  }

  lemma FormatText(raw: int, scale: nat, q: nat, r: nat)
    requires Deliverable(raw, scale) && r < Pow10(scale)
    requires var abs := if raw < 0 then -raw else raw; q == abs / Pow10(scale) && r == abs % Pow10(scale)
    ensures FormatNumeric(raw, scale) ==
            (if raw < 0 then "-" else "") + (if scale > 0 then Decimal(q) + ("." + Fixed(r, scale)) else Decimal(q))
  {
  }

  /** The digits before and after the point together are the digits of the number. */
  lemma Joined(q: nat, r: nat, scale: nat)
    requires r < Pow10(scale)
    ensures AllDigits(Decimal(q) + Fixed(r, scale))
    ensures ParseDigits(Decimal(q) + Fixed(r, scale)) == q * Pow10(scale) + r
  {
    ParseDecimal(q);
    ParseFixed(r, scale);
    ParseConcat(Decimal(q), Fixed(r, scale));
  }

  lemma ReadBack(negative: bool, whole: string, fraction: string, pointed: bool)
    requires whole != "" && AllDigits(whole) && (!pointed ==> fraction == "")
    ensures var body := if pointed then whole + ("." + fraction) else whole;
      Read((if negative then "-" else "") + body) == Printed(negative, whole, fraction)
  {
    var body := if pointed then whole + ("." + fraction) else whole;
    PointSplits(negative, whole, fraction, pointed);
    assert body[0] == whole[0] != '-';
    SignSplits(negative, body);
  }

  lemma SignSplits(negative: bool, body: string)
    requires body != "" && body[0] != '-'
    ensures Read((if negative then "-" else "") + body) == ReadDigits(negative, body)
  {
    assert ("-" + body)[1..] == body && "" + body == body;
  }

  lemma PointSplits(negative: bool, whole: string, fraction: string, pointed: bool)
    requires AllDigits(whole) && (!pointed ==> fraction == "")
    ensures ReadDigits(negative, if pointed then whole + ("." + fraction) else whole) == Printed(negative, whole, fraction)
  {
    FindAfter(whole, '.', fraction);
    assert (whole + ("." + fraction))[..|whole|] == whole && (whole + ("." + fraction))[|whole| + 1..] == fraction;
  }
}
