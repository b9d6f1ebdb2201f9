/** The two timestamp texts the system compares as strings: Go's RFC3339Nano in UTC
    (receiver) and chrono's `to_rfc3339` in UTC (local cache).

    An instant is a number of nanoseconds since 0000-01-01T00:00:00Z in the proleptic
    Gregorian calendar; texts exist for the years 0 to 9999. */
module Timestamps {
  import opened Text

  const SECOND: nat := 1_000_000_000

  lemma SecondOrder(a: nat, b: nat)
    ensures a < b <==> a / SECOND < b / SECOND || (a / SECOND == b / SECOND && a % SECOND < b % SECOND)
    ensures a == b <==> a / SECOND == b / SECOND && a % SECOND == b % SECOND
  {
  }

  // ------------------------------------------------------------- calendar

  predicate IsLeap(y: nat) { y % 4 == 0 && (y % 100 != 0 || y % 400 == 0) }

  function YearDays(y: nat): nat { if IsLeap(y) then 366 else 365 }

  function YearStart(y: nat): nat {
    if y == 0 then 0 else YearStart(y - 1) + YearDays(y - 1)
  }

  const MONTH_STARTS: seq<nat> := [0, 31, 59, 90, 120, 151, 181, 212, 243, 273, 304, 334, 365]

  /** Days of year `y` before month `m`; month 13 closes the year. */
  function MonthStart(y: nat, m: nat): nat
    requires 1 <= m <= 13
  {
    MONTH_STARTS[m - 1] + if m > 2 && IsLeap(y) then 1 else 0
  }

  /** The year `y` or later that holds the day `d` days after the start of `y`. */
  function YearOf(d: nat, y: nat): (r: (nat, nat))
    ensures r.1 < YearDays(r.0) && YearStart(r.0) + r.1 == YearStart(y) + d
    decreases d
  {
    if d < YearDays(y) then (y, d) else YearOf(d - YearDays(y), y + 1)
  }

  /** The last month not after `m` that starts on or before day `d` of the year. */
  function MonthOf(y: nat, d: nat, m: nat): (r: nat)
    requires 1 <= m <= 12 && d < MonthStart(y, m + 1)
    ensures 1 <= r <= 12 && MonthStart(y, r) <= d < MonthStart(y, r + 1)
    decreases m
  {
    if MonthStart(y, m) <= d then m else MonthOf(y, d, m - 1)
  }

  /** Year, month, day, hour, minute and second of a whole second. */
  function Fields(second: nat): (f: seq<nat>)
    ensures |f| == 6
  {
    var (y, d) := YearOf(second / 86400, 0);
    var m := MonthOf(y, d, 12);
    var r := second % 86400;
    [y, m, d - MonthStart(y, m) + 1, r / 3600, r % 3600 / 60, r % 60]
  }

  lemma {:induction false} YearStartsGrow(a: nat, b: nat)
    requires a < b
    ensures YearStart(a) + YearDays(a) <= YearStart(b)
    decreases b
  {
    if a < b - 1 { YearStartsGrow(a, b - 1); }
  }

  lemma MonthStartsGrow(y: nat, m: nat, n: nat)
    requires 1 <= m < n <= 13
    ensures MonthStart(y, m + 1) <= MonthStart(y, n)
  {
  }

  lemma MonthLength(y: nat, m: nat)
    requires 1 <= m <= 12
    ensures MonthStart(y, m + 1) - MonthStart(y, m) <= 31
  {
    assert MONTH_STARTS[m] - MONTH_STARTS[m - 1] <= 31;
  }

  /** The Gregorian rule in closed form: days before a year, and the lengths of its months. */
  lemma {:induction false} GregorianYears(y: nat)
    ensures YearStart(y) == 365 * y + (y + 3) / 4 - (y + 99) / 100 + (y + 399) / 400
  {
    if y > 0 {
      GregorianYears(y - 1);
      YearGrows(y - 1);
    }
  }

  lemma YearGrows(y: nat)
    ensures (365 * (y + 1) + (y + 4) / 4 - (y + 100) / 100 + (y + 400) / 400) -
            (365 * y + (y + 3) / 4 - (y + 99) / 100 + (y + 399) / 400) == YearDays(y)
  {
    By4(y);
    By100(y);
    By400(y);
  }

  lemma By4(y: nat)
    ensures (y + 4) / 4 - (y + 3) / 4 == if y % 4 == 0 then 1 else 0
  {
  }

  lemma By100(y: nat)
    ensures (y + 100) / 100 - (y + 99) / 100 == if y % 100 == 0 then 1 else 0
    ensures y % 100 == 0 ==> y % 4 == 0
  {
    var q := y / 100;
    if y % 100 == 0 { assert y == 4 * (25 * q); }
  }

  lemma By400(y: nat)
    ensures (y + 400) / 400 - (y + 399) / 400 == if y % 400 == 0 then 1 else 0
    ensures y % 400 == 0 ==> y % 100 == 0
  {
    var q := y / 400;
    if y % 400 == 0 { assert y == 100 * (4 * q); }
  }

  lemma GregorianMonths(y: nat, m: nat)
    requires 1 <= m <= 12
    ensures var leap := y % 4 == 0 && (y % 100 != 0 || y % 400 == 0);
      MonthStart(y, m + 1) - MonthStart(y, m) == [31, if leap then 29 else 28, 31, 30, 31, 30, 31, 31, 30, 31, 30, 31][m - 1]
    ensures MonthStart(y, 1) == 0
  {
  }

  predicate LexLess(f: seq<nat>, g: seq<nat>)
    requires |f| == |g|
  {
    f != [] && (f[0] < g[0] || (f[0] == g[0] && LexLess(f[1..], g[1..])))
  }

  lemma Lex3(f: seq<nat>, g: seq<nat>)
    requires |f| == |g| == 3
    ensures LexLess(f, g) <==>
            f[0] < g[0] || (f[0] == g[0] && (f[1] < g[1] || (f[1] == g[1] && f[2] < g[2])))
  {
    assert f[1..][1..] == [f[2]] && g[1..][1..] == [g[2]];
    assert LexLess([f[2]], [g[2]]) <==> f[2] < g[2];
  }

  lemma {:induction false} LexSplit(f: seq<nat>, g: seq<nat>, u: seq<nat>, v: seq<nat>)
    requires |f| == |g| && |u| == |v|
    ensures LexLess(f + u, g + v) <==> LexLess(f, g) || (f == g && LexLess(u, v))
  {
    if f == [] {
      assert f + u == u && g + v == v;
    } else {
      assert (f + u)[1..] == f[1..] + u && (g + v)[1..] == g[1..] + v;
      LexSplit(f[1..], g[1..], u, v);
      assert f == [f[0]] + f[1..] && g == [g[0]] + g[1..];
    }
  }

  /** Year, month and day of the month are the date of a day number. */
  predicate IsDate(day: nat, y: nat, m: nat, d: nat) {
    && 1 <= m <= 12 && 1 <= d && MonthStart(y, m) + d <= MonthStart(y, m + 1)
    && day + 1 == YearStart(y) + MonthStart(y, m) + d
  }

  lemma DateOfFields(a: nat)
    ensures IsDate(a / 86400, Fields(a)[0], Fields(a)[1], Fields(a)[2])
  {
  }

  /** Hour, minute and second of the day. */
  lemma ClockOfFields(a: nat)
    ensures var f := Fields(a);
      f[3] < 24 && f[4] < 60 && f[5] < 60 && f[3] * 3600 + f[4] * 60 + f[5] == a % 86400
  {
  }

  lemma MonthsFillYear(y: nat, m: nat)
    requires 1 <= m <= 12
    ensures MonthStart(y, m + 1) <= YearDays(y)
  {
    if m < 12 { MonthStartsGrow(y, m, 13); }
    MonthStartsGrow(y, 12, 13);
  }

  lemma DateBefore(a: nat, y: nat, m: nat, d: nat, b: nat, y': nat, m': nat, d': nat)
    requires IsDate(a, y, m, d) && IsDate(b, y', m', d')
    requires y < y' || (y == y' && (m < m' || (m == m' && d < d')))
    ensures a < b
  {
    MonthsFillYear(y, m);
    if y < y' {
      YearStartsGrow(y, y');
    } else if m < m' {
      MonthStartsGrow(y, m, m');
    }
  }

  /** Calendar dates are ordered as day numbers are. */
  lemma DateOrder(a: nat, b: nat)
    ensures LexLess(Fields(a)[..3], Fields(b)[..3]) <==> a / 86400 < b / 86400
    ensures Fields(a)[..3] == Fields(b)[..3] <==> a / 86400 == b / 86400
  {
    var f, g := Fields(a)[..3], Fields(b)[..3];
    Lex3(f, g);
    Lex3(g, f);
    assert f == [f[0], f[1], f[2]] && g == [g[0], g[1], g[2]];
    DateOfFields(a);
    DateOfFields(b);
    if LexLess(f, g) {
      DateBefore(a / 86400, f[0], f[1], f[2], b / 86400, g[0], g[1], g[2]);
    } else if LexLess(g, f) {
      DateBefore(b / 86400, g[0], g[1], g[2], a / 86400, f[0], f[1], f[2]);
    }
  }

  lemma ClockOrder(a: nat, b: nat)
    ensures LexLess(Fields(a)[3..], Fields(b)[3..]) <==> a % 86400 < b % 86400
    ensures Fields(a)[3..] == Fields(b)[3..] <==> a % 86400 == b % 86400
  {
    var f, g := Fields(a)[3..], Fields(b)[3..];
    Lex3(f, g);
    assert f == [f[0], f[1], f[2]] && g == [g[0], g[1], g[2]];
    var r, s := a % 86400, b % 86400;
    assert r == f[0] * 3600 + f[1] * 60 + f[2] && s == g[0] * 3600 + g[1] * 60 + g[2];
  }

  /** The printed fields determine the second and order as seconds do. */
  lemma FieldsOrder(a: nat, b: nat)
    ensures LexLess(Fields(a), Fields(b)) <==> a < b
    ensures Fields(a) == Fields(b) <==> a == b
  {
    var f, g := Fields(a), Fields(b);
    assert f == f[..3] + f[3..] && g == g[..3] + g[3..];
    LexSplit(f[..3], g[..3], f[3..], g[3..]);
    DateOrder(a, b);
    ClockOrder(a, b);
  }

  // ------------------------------------------------------------- printing

  const WIDTHS: seq<nat> := [4, 2, 2, 2, 2, 2]
  const MARKS: seq<string> := ["", "-", "-", "T", ":", ":"]

  ghost predicate Fits(f: seq<nat>, widths: seq<nat>) {
    |f| == |widths| && forall i :: 0 <= i < |f| ==> f[i] < Pow10(widths[i])
  }

  /** Zero-padded fields, each after its separator. */
  function Render(f: seq<nat>, widths: seq<nat>, marks: seq<string>): string
    requires Fits(f, widths) && |marks| == |f|
  {
    if f == [] then ""
    else marks[0] + (Fixed(f[0], widths[0]) + Render(f[1..], widths[1..], marks[1..]))
  }

  lemma RenderCons(f: seq<nat>, widths: seq<nat>, marks: seq<string>, x: string)
    requires Fits(f, widths) && |marks| == |f| && f != []
    ensures f[0] < Pow10(widths[0]) && Fits(f[1..], widths[1..])
    ensures Render(f, widths, marks) + x ==
            marks[0] + (Fixed(f[0], widths[0]) + (Render(f[1..], widths[1..], marks[1..]) + x))
  {
    Associate(marks[0], Fixed(f[0], widths[0]), Render(f[1..], widths[1..], marks[1..]), x);
  }

  lemma FieldsCons(f: seq<nat>, g: seq<nat>)
    requires f != [] && g != []
    ensures f == g <==> f[0] == g[0] && f[1..] == g[1..]
  {
    assert f == [f[0]] + f[1..] && g == [g[0]] + g[1..];
  }

  lemma {:induction false} RenderOrder(f: seq<nat>, g: seq<nat>, widths: seq<nat>, marks: seq<string>, x: string, y: string)
    requires Fits(f, widths) && Fits(g, widths) && |marks| == |f|
    ensures Less(Render(f, widths, marks) + x, Render(g, widths, marks) + y) <==>
            LexLess(f, g) || (f == g && Less(x, y))
  {
    if f == [] {
      assert Render(f, widths, marks) + x == x && Render(g, widths, marks) + y == y;
    } else {
      RenderCons(f, widths, marks, x);
      RenderCons(g, widths, marks, y);
      FieldsCons(f, g);
      var u, v := Render(f[1..], widths[1..], marks[1..]) + x, Render(g[1..], widths[1..], marks[1..]) + y;
      LessAfterPrefix(marks[0], Fixed(f[0], widths[0]) + u, Fixed(g[0], widths[0]) + v);
      FixedOrder(f[0], g[0], widths[0], u, v);
      RenderOrder(f[1..], g[1..], widths[1..], marks[1..], x, y);
    }
  }

  /** The first instant of the year 10000. */
  const LIMIT: nat := YearStart(10000) * 86400 * SECOND

  type Instant = t: nat | t < LIMIT

  lemma InstantYear(t: Instant)
    ensures Fields(t / SECOND)[0] < 10000
  {
    var day := t / SECOND / 86400;
    assert day < YearStart(10000);
    var (y, d) := YearOf(day, 0);
    if y > 10000 { YearStartsGrow(10000, y); }
  }

  lemma InstantFits(t: Instant)
    ensures Fits(Fields(t / SECOND), WIDTHS)
  {
    assert Pow10(2) == 100 && Pow10(4) == 10000 by {
      assert Pow10(1) == 10;
      assert Pow10(3) == 1000;
    }
    InstantYear(t);
    var f := Fields(t / SECOND);
    MonthLength(f[0], f[1]);
  }

  /** The 19 characters `YYYY-MM-DDThh:mm:ss`. */
  function WholeSecond(t: Instant): string
  {
    InstantFits(t);
    Render(Fields(t / SECOND), WIDTHS, MARKS)
  }

  lemma WholeSecondOrder(a: Instant, b: Instant, x: string, y: string)
    ensures Less(WholeSecond(a) + x, WholeSecond(b) + y) <==>
            a / SECOND < b / SECOND || (a / SECOND == b / SECOND && Less(x, y))
  {
    InstantFits(a);
    InstantFits(b);
    RenderOrder(Fields(a / SECOND), Fields(b / SECOND), WIDTHS, MARKS, x, y);
    FieldsOrder(a / SECOND, b / SECOND);
  }

  /** The text of a whole second is `YYYY-MM-DDThh:mm:ss`, zero-padded. */
  lemma WholeSecondIs(t: Instant)
    ensures var f := Fields(t / SECOND);
      && f[0] < Pow10(4) && f[1] < Pow10(2) && f[2] < Pow10(2) && f[3] < Pow10(2) && f[4] < Pow10(2) && f[5] < Pow10(2)
      && WholeSecond(t) == Fixed(f[0], 4) + ("-" + (Fixed(f[1], 2) + ("-" + (Fixed(f[2], 2) +
                           ("T" + (Fixed(f[3], 2) + (":" + (Fixed(f[4], 2) + (":" + Fixed(f[5], 2))))))))))
  {
    InstantFits(t);
    var f := Fields(t / SECOND);
    FieldBounds(f);
    RenderIs(f[0], f[1], f[2], f[3], f[4], f[5]);
    assert f == [f[0], f[1], f[2], f[3], f[4], f[5]];
  }

  lemma FieldBounds(f: seq<nat>)
    requires |f| == 6 && Fits(f, WIDTHS)
    ensures f[0] < Pow10(4) && f[1] < Pow10(2) && f[2] < Pow10(2) && f[3] < Pow10(2) && f[4] < Pow10(2) && f[5] < Pow10(2)
  {
    assert f[0] < Pow10(WIDTHS[0]) && f[1] < Pow10(WIDTHS[1]) && f[2] < Pow10(WIDTHS[2]);
    assert f[3] < Pow10(WIDTHS[3]) && f[4] < Pow10(WIDTHS[4]) && f[5] < Pow10(WIDTHS[5]);
  }

  /** The rendering of a list is known. */
  ghost predicate Renders(f: seq<nat>, widths: seq<nat>, marks: seq<string>, text: string) {
    Fits(f, widths) && |marks| == |f| && Render(f, widths, marks) == text
  }

  lemma RenderFront(h: nat, w: nat, m: string, f: seq<nat>, widths: seq<nat>, marks: seq<string>, text: string)
    requires h < Pow10(w) && Renders(f, widths, marks, text)
    ensures Renders([h] + f, [w] + widths, [m] + marks, m + (Fixed(h, w) + text))
  {
    assert ([h] + f)[1..] == f && ([w] + widths)[1..] == widths && ([m] + marks)[1..] == marks;
  }

  lemma RenderIs(year: nat, month: nat, day: nat, hour: nat, minute: nat, second: nat)
    requires year < Pow10(4) && month < Pow10(2) && day < Pow10(2) && hour < Pow10(2) && minute < Pow10(2) && second < Pow10(2)
    ensures Renders([year, month, day, hour, minute, second], WIDTHS, MARKS,
                    Fixed(year, 4) + ("-" + (Fixed(month, 2) + ("-" + (Fixed(day, 2) + ("T" +
                    (Fixed(hour, 2) + (":" + (Fixed(minute, 2) + (":" + Fixed(second, 2)))))))))))
  {
    var clock := ClockText(hour, minute, second);
    var rest := DateText(month, day, hour, minute, second, clock);
    YearText(year, [month, day, hour, minute, second], rest);
    assert [year] + [month, day, hour, minute, second] == [year, month, day, hour, minute, second];
  }

  lemma YearText(year: nat, f: seq<nat>, rest: string)
    requires year < Pow10(4) && Renders(f, [2, 2, 2, 2, 2], ["-", "-", "T", ":", ":"], rest)
    ensures Renders([year] + f, WIDTHS, MARKS, Fixed(year, 4) + rest)
  {
    RenderFront(year, 4, "", f, [2, 2, 2, 2, 2], ["-", "-", "T", ":", ":"], rest);
    assert [4] + [2, 2, 2, 2, 2] == WIDTHS && [""] + ["-", "-", "T", ":", ":"] == MARKS;
    assert "" + (Fixed(year, 4) + rest) == Fixed(year, 4) + rest;
  }

  lemma DateText(month: nat, day: nat, hour: nat, minute: nat, second: nat, clock: string) returns (text: string)
    requires month < Pow10(2) && day < Pow10(2) && Renders([hour, minute, second], [2, 2, 2], ["T", ":", ":"], clock)
    ensures Renders([month, day, hour, minute, second], [2, 2, 2, 2, 2], ["-", "-", "T", ":", ":"], text)
    ensures text == "-" + (Fixed(month, 2) + ("-" + (Fixed(day, 2) + clock)))
  {
    var rest := DayText(day, hour, minute, second, clock);
    RenderFront(month, 2, "-", [day, hour, minute, second], [2, 2, 2, 2], ["-", "T", ":", ":"], rest);
    assert [month] + [day, hour, minute, second] == [month, day, hour, minute, second];
    assert [2] + [2, 2, 2, 2] == [2, 2, 2, 2, 2] && ["-"] + ["-", "T", ":", ":"] == ["-", "-", "T", ":", ":"];
    text := "-" + (Fixed(month, 2) + rest);
  }

  lemma DayText(day: nat, hour: nat, minute: nat, second: nat, clock: string) returns (text: string)
    requires day < Pow10(2) && Renders([hour, minute, second], [2, 2, 2], ["T", ":", ":"], clock)
    ensures Renders([day, hour, minute, second], [2, 2, 2, 2], ["-", "T", ":", ":"], text)
    ensures text == "-" + (Fixed(day, 2) + clock)
  {
    RenderFront(day, 2, "-", [hour, minute, second], [2, 2, 2], ["T", ":", ":"], clock);
    assert [day] + [hour, minute, second] == [day, hour, minute, second];
    assert [2] + [2, 2, 2] == [2, 2, 2, 2] && ["-"] + ["T", ":", ":"] == ["-", "T", ":", ":"];
    text := "-" + (Fixed(day, 2) + clock);
  }

  lemma ClockText(hour: nat, minute: nat, second: nat) returns (text: string)
    requires hour < Pow10(2) && minute < Pow10(2) && second < Pow10(2)
    ensures Renders([hour, minute, second], [2, 2, 2], ["T", ":", ":"], text)
    ensures text == "T" + (Fixed(hour, 2) + (":" + (Fixed(minute, 2) + (":" + Fixed(second, 2)))))
  {
    RenderFront(second, 2, ":", [], [], [], "");
    assert [second] + [] == [second] && [2] + [] == [2] && [":"] + [] == [":"] && Fixed(second, 2) + "" == Fixed(second, 2);
    RenderFront(minute, 2, ":", [second], [2], [":"], ":" + Fixed(second, 2));
    assert [minute] + [second] == [minute, second] && [2] + [2] == [2, 2] && [":"] + [":"] == [":", ":"];
    RenderFront(hour, 2, "T", [minute, second], [2, 2], [":", ":"], ":" + (Fixed(minute, 2) + (":" + Fixed(second, 2))));
    assert [hour] + [minute, second] == [hour, minute, second] && [2] + [2, 2] == [2, 2, 2] && ["T"] + [":", ":"] == ["T", ":", ":"];
    text := "T" + (Fixed(hour, 2) + (":" + (Fixed(minute, 2) + (":" + Fixed(second, 2)))));
  }

  // ------------------------------------------------ RFC3339Nano (receiver)

  /** A digit string without its trailing zeros. */
  function TrimZeros(p: string): string {
    if p == "" then ""
    else
      var rest := TrimZeros(p[1..]);
      if p[0] == '0' && rest == "" then "" else [p[0]] + rest
  }

  lemma Billion()
    ensures Pow10(9) == SECOND
  {
    assert Pow10(3) == 1000 by { assert Pow10(1) == 10; }
    assert Pow10(6) == 1000000 by { assert Pow10(4) == 10000; assert Pow10(5) == 100000; }
    assert Pow10(8) == 100000000 by { assert Pow10(7) == 10000000; }
  }

  /** The fraction digits Go prints: nine digits, trailing zeros removed. */
  function GoDigits(t: nat): string {
    Billion();
    TrimZeros(Fixed(t % SECOND, 9))
  }

  function GoFraction(t: nat): string {
    if GoDigits(t) == "" then "Z" else "." + (GoDigits(t) + "Z")
  }

  /** `timeString`: RFC3339Nano in UTC. */
  function TimeString(t: Instant): string
  {
    WholeSecond(t) + GoFraction(t)
  }

  lemma {:induction false} TrimZerosIs(p: string)
    requires AllDigits(p)
    ensures var d := TrimZeros(p);
      && |d| <= |p| && p[..|d|] == d && (forall k :: |d| <= k < |p| ==> p[k] == '0')
      && (d != "" ==> d[|d| - 1] != '0')
  {
    if p != "" {
      TrimZerosIs(p[1..]);
      var d, rest := TrimZeros(p), TrimZeros(p[1..]);
      assert p == [p[0]] + p[1..];
      if d != "" { assert d == [p[0]] + rest; }
      forall k | |d| <= k < |p| ensures p[k] == '0' { if k > 0 { assert p[k] == p[1..][k - 1]; } }
    }
  }

  lemma {:induction false} ParseZeros(z: string)
    requires forall k :: 0 <= k < |z| ==> z[k] == '0'
    ensures AllDigits(z) && ParseDigits(z) == 0
  {
    if z != "" { ParseZeros(z[..|z| - 1]); }
  }

  /** Without the zeros at its end a digit string denotes the number that these scale up. */
  lemma TrimmedAre(p: string)
    requires AllDigits(p)
    ensures var d := TrimZeros(p);
      && AllDigits(d) && |d| <= |p| && (d != "" ==> d[|d| - 1] != '0')
      && ParseDigits(d) * Pow10(|p| - |d|) == ParseDigits(p)
  {
    var d := TrimZeros(p);
    TrimZerosIs(p);
    TrimZerosDigits(p);
    ParseZeros(p[|d|..]);
    ParseConcat(d, p[|d|..]);
    assert p == d + p[|d|..];
  }

  /** The printed fraction is the nanoseconds as nine digits without the zeros at their end. */
  lemma GoDigitsAre(t: nat)
    ensures var d := GoDigits(t);
      && AllDigits(d) && |d| <= 9 && (d != "" ==> d[|d| - 1] != '0')
      && ParseDigits(d) * Pow10(9 - |d|) == t % 1_000_000_000
  {
    Billion();
    ParseFixed(t % SECOND, 9);
    TrimmedAre(Fixed(t % SECOND, 9));
  }

  lemma Positive(d: string, p: nat)
    requires AllDigits(d) && p > 0 && (d != "" ==> d[|d| - 1] != '0')
    ensures ParseDigits(d) * p == 0 <==> d == ""
  {
    if d != "" { BlocksApart(0, ParseDigits(d), p); }
  }

  /** The whole text: the second, the fraction after a point if there is one, and `Z`. */
  lemma TimeStringIs(t: Instant)
    ensures TimeString(t) == WholeSecond(t) + if t % 1_000_000_000 == 0 then "Z" else "." + (GoDigits(t) + "Z")
  {
    GoDigitsAre(t);
    Positive(GoDigits(t), Pow10(9 - |GoDigits(t)|));
  }

  /** One text is a proper prefix of the other. */
  predicate Nested(p: string, q: string) { p != q && (p <= q || q <= p) }

  lemma NestedCons(c: char, p: string, q: string)
    ensures Nested([c] + p, [c] + q) <==> Nested(p, q)
  {
    assert ([c] + p)[1..] == p && ([c] + q)[1..] == q;
    assert p <= q ==> [c] + p <= [c] + q;
    assert q <= p ==> [c] + q <= [c] + p;
    if [c] + p <= [c] + q { assert p == ([c] + p)[1..] <= ([c] + q)[1..] == q; }
    if [c] + q <= [c] + p { assert q == ([c] + q)[1..] <= ([c] + p)[1..] == p; }
  }

  lemma {:induction false} TrimZerosDigits(p: string)
    requires AllDigits(p)
    ensures AllDigits(TrimZeros(p))
    ensures TrimZeros(p) == "" <==> forall i :: 0 <= i < |p| ==> p[i] == '0'
  {
    if p != "" {
      TrimZerosDigits(p[1..]);
      if p[0] == '0' && TrimZeros(p[1..]) == "" {
        forall i | 0 <= i < |p| ensures p[i] == '0' { if i > 0 { assert p[1..][i - 1] == '0'; } }
      } else if p[0] == '0' {
        var i :| 0 <= i < |p[1..]| && p[1..][i] != '0';
        assert p[i + 1] != '0';
      }
    }
  }

  lemma {:induction false} ZerosLeast(p: string, q: string)
    requires |p| == |q| && AllDigits(p) && AllDigits(q) && p != q
    requires forall i :: 0 <= i < |p| ==> p[i] == '0'
    ensures Less(p, q) && !Less(q, p)
  {
    assert p == [p[0]] + p[1..] && q == [q[0]] + q[1..];
    if q[0] == '0' { ZerosLeast(p[1..], q[1..]); }
  }

  /** Trimmed digits closed by `Z` sort as the numbers do, except that a proper prefix
      sorts after its extensions. */
  lemma {:induction false} TrimmedOrder(p: string, q: string)
    requires |p| == |q| && AllDigits(p) && AllDigits(q)
    ensures p != q ==> TrimZeros(p) != TrimZeros(q)
    ensures Less(TrimZeros(p) + "Z", TrimZeros(q) + "Z") <==>
            p != q && (Less(p, q) <==> !Nested(TrimZeros(p), TrimZeros(q)))
  {
    var u, v := TrimZeros(p), TrimZeros(q);
    TrimZerosDigits(p);
    TrimZerosDigits(q);
    if p == q {
      LessIrreflexive(u + "Z");
    } else if u == "" {
      assert u + "Z" == "Z";
      ZerosLeast(p, q);
      if v != "" { assert (v + "Z")[0] == v[0] < 'Z'; }
    } else if v == "" {
      assert v + "Z" == "Z";
      ZerosLeast(q, p);
      assert (u + "Z")[0] == u[0] < 'Z';
    } else {
      var a, b := TrimZeros(p[1..]), TrimZeros(q[1..]);
      assert u == [p[0]] + a && v == [q[0]] + b;
      assert u + "Z" == [p[0]] + (a + "Z") && v + "Z" == [q[0]] + (b + "Z");
      LessCons(p[0], q[0], a + "Z", b + "Z");
      assert p == [p[0]] + p[1..] && q == [q[0]] + q[1..];
      if p[0] == q[0] {
        TrimmedOrder(p[1..], q[1..]);
        assert u[1..] == a && v[1..] == b;
        NestedCons(p[0], a, b);
      } else {
        assert !Nested(u, v);
      }
    }
  }

  lemma PaddedOrder(m: nat, n: nat, w: nat)
    requires m < Pow10(w) && n < Pow10(w)
    ensures Less(Fixed(m, w), Fixed(n, w)) <==> m < n
    ensures Fixed(m, w) == Fixed(n, w) <==> m == n
  {
    FixedOrder(m, n, w, "", "");
    assert Fixed(m, w) + "" == Fixed(m, w) && Fixed(n, w) + "" == Fixed(n, w);
    ParseFixed(m, w);
    ParseFixed(n, w);
  }

  lemma GoFractionOrder(a: nat, b: nat)
    ensures Less(GoFraction(a), GoFraction(b)) <==>
            a % SECOND != b % SECOND && (a % SECOND < b % SECOND <==> !Nested(GoDigits(a), GoDigits(b)))
  {
    Billion();
    var p, q := Fixed(a % SECOND, 9), Fixed(b % SECOND, 9);
    PaddedOrder(a % SECOND, b % SECOND, 9);
    TrimmedOrder(p, q);
    TrimZerosDigits(p);
    TrimZerosDigits(q);
    FractionOrder(TrimZeros(p), TrimZeros(q));
  }

  /** How two RFC3339Nano texts compare, exactly. */
  lemma TimeStringOrder(a: Instant, b: Instant)
    ensures Less(TimeString(a), TimeString(b)) <==>
            if a / SECOND == b / SECOND then a != b && (a < b <==> !Nested(GoDigits(a), GoDigits(b)))
            else a < b
  {
    WholeSecondOrder(a, b, GoFraction(a), GoFraction(b));
    SecondOrder(a, b);
    GoFractionOrder(a, b);
  }

  /** The leading dot changes nothing: `Z` alone sorts after every fraction, as it does
      after every digit. */
  lemma FractionOrder(u: string, v: string)
    requires AllDigits(u) && AllDigits(v)
    ensures Less(if u == "" then "Z" else "." + (u + "Z"), if v == "" then "Z" else "." + (v + "Z")) <==>
            Less(u + "Z", v + "Z")
  {
    assert "" + "Z" == "Z";
    if u != "" && v != "" {
      LessAfterPrefix(".", u + "Z", v + "Z");
    } else if u != "" {
      assert (u + "Z")[0] == u[0] < 'Z';
    } else if v != "" {
      assert (v + "Z")[0] == v[0] < 'Z';
    }
  }

  /** String order agrees with time order exactly when, within one whole second, neither
      fraction is a proper prefix of the other. */
  lemma StringOrderIsTimeOrder(a: Instant, b: Instant)
    ensures (Less(TimeString(a), TimeString(b)) <==> a < b) <==>
            !(a / SECOND == b / SECOND && Nested(GoDigits(a), GoDigits(b)))
  {
    TimeStringOrder(a, b);
  }

  /** The order is reversed inside every second: the text of the whole second sorts
      after the text of every later instant of that second. */
  lemma WholeSecondSortsLast(a: Instant, b: Instant)
    requires a < b
    requires a % SECOND == 0 && a / SECOND == b / SECOND
    ensures Less(TimeString(b), TimeString(a)) && !Less(TimeString(a), TimeString(b))
  {
    TimeStringOrder(a, b);
    TimeStringOrder(b, a);
    SecondOrder(a, b);
    EmptyFraction(a, b);
  }

  lemma EmptyFraction(a: nat, b: nat)
    requires a % SECOND == 0 != b % SECOND
    ensures Nested(GoDigits(a), GoDigits(b)) && Nested(GoDigits(b), GoDigits(a))
  {
    Billion();
    ZeroDigits(9);
    PaddedOrder(0, b % SECOND, 9);
    TrimmedOrder(Fixed(0, 9), Fixed(b % SECOND, 9));
  }

  lemma {:induction false} ZeroDigits(w: nat)
    ensures TrimZeros(Fixed(0, w)) == ""
  {
    if w > 0 {
      ZeroDigits(w - 1);
      assert Fixed(0, w)[1..] == Fixed(0, w - 1);
    }
  }

  // --------------------------------------------- to_rfc3339 (local cache)

  function Tail(z: nat): string
    requires z < 1000
  {
    Thousand();
    if z == 0 then "+00:00" else Fixed(z, 3) + "+00:00"
  }

  function Middle(y: nat, z: nat): string
    requires y < 1000 && z < 1000
  {
    Thousand();
    if y == 0 && z == 0 then "+00:00" else Fixed(y, 3) + Tail(z)
  }

  /** chrono prints 0, 3, 6 or 9 fraction digits, the fewest that lose nothing:
      milliseconds, then microseconds and nanoseconds where they are not zero. */
  function ChronoFraction(x: nat, y: nat, z: nat): string
    requires x < 1000 && y < 1000 && z < 1000
  {
    Thousand();
    if x == 0 && y == 0 && z == 0 then "+00:00" else "." + (Fixed(x, 3) + Middle(y, z))
  }

  function ChronoString(t: Instant): string
  {
    var n := t % SECOND;
    WholeSecond(t) + ChronoFraction(n / 1000000, n / 1000 % 1000, n % 1000)
  }

  /** chrono prints the second, the fewest of 0, 3, 6 and 9 digits that hold the fraction after a
      point, and `+00:00`. */
  lemma ChronoStringIs(t: Instant)
    ensures ChronoString(t) == WholeSecond(t) + ChronoDigits(t % 1_000_000_000) + "+00:00"
  {
    Billion();
    Thousand();
    Million();
    var n := t % SECOND;
    Groups(n);
    ChronoFractionIs(n, n / 1000000, n / 1000 % 1000, n % 1000);
    Joins(WholeSecond(t), ChronoDigits(n), "+00:00");
  }

  lemma Million()
    ensures Pow10(6) == 1_000_000
  {
    assert Pow10(4) == 10000 by { Thousand(); }
    assert Pow10(5) == 100000;
  }

  lemma Joins(a: string, b: string, c: string)
    ensures a + b + c == a + (b + c)
  {
  }

  lemma Groups(n: nat)
    requires n < 1_000_000_000
    ensures var x, y, z := n / 1000000, n / 1000 % 1000, n % 1000;
      && x < 1000 && y < 1000 && z < 1000 && n / 1000 == x * 1000 + y && n == (n / 1000) * 1000 + z
      && (n % 1_000_000 == 0 <==> y == 0 && z == 0)
  {
    Group(n);
  }

  /** The point and the digits chrono prints. */
  function ChronoDigits(n: nat): string
    requires n < 1_000_000_000
  {
    Billion();
    Million();
    Thousand();
    if n == 0 then "" else if n % 1_000_000 == 0 then "." + Fixed(n / 1_000_000, 3)
    else if n % 1000 == 0 then "." + Fixed(n / 1000, 6) else "." + Fixed(n, 9)
  }

  lemma ChronoFractionIs(n: nat, x: nat, y: nat, z: nat)
    requires n < 1_000_000_000 && x < 1000 && y < 1000 && z < 1000
    requires n / 1000 == x * 1000 + y && n == (n / 1000) * 1000 + z && x == n / 1_000_000 && z == n % 1000
    requires n % 1_000_000 == 0 <==> y == 0 && z == 0
    ensures ChronoFraction(x, y, z) == ChronoDigits(n) + "+00:00"
  {
    Thousand();
    FixedGroups(n / 1000, x, y, 3);
    FixedGroups(n, n / 1000, z, 6);
    AfterPoint(Fixed(x, 3), Fixed(y, 3), Fixed(z, 3), "+00:00");
  }

  lemma AfterPoint(a: string, b: string, c: string, e: string)
    ensures "" + e == e && "." + (a + e) == ("." + a) + e && "." + (a + (b + e)) == ("." + (a + b)) + e
    ensures "." + (a + (b + (c + e))) == ("." + ((a + b) + c)) + e
  {
  }

  /** Padded digits can be written group by group. */
  lemma FixedGroups(n: nat, a: nat, b: nat, w: nat)
    requires a < Pow10(w) && b < 1000 && n == a * 1000 + b
    ensures n < Pow10(w + 3) && b < Pow10(3) && Fixed(n, w + 3) == Fixed(a, w) + Fixed(b, 3)
  {
    Thousand();
    assert Pow10(w + 3) == 1000 * Pow10(w) by { assert Pow10(w + 2) == 100 * Pow10(w) by { assert Pow10(w + 1) == 10 * Pow10(w); } }
    ParseFixed(n, w + 3);
    ParseFixed(a, w);
    ParseFixed(b, 3);
    ParseConcat(Fixed(a, w), Fixed(b, 3));
    SameDigits(Fixed(n, w + 3), Fixed(a, w) + Fixed(b, 3));
  }

  lemma Thousand()
    ensures Pow10(3) == 1000
  {
    assert Pow10(1) == 10;
  }

  /** `+` sorts before every digit, so the shorter of two nested texts comes first. */
  lemma OffsetFirst(n: nat, rest: string)
    requires n < Pow10(3)
    ensures Less("+00:00", Fixed(n, 3) + rest) && !Less(Fixed(n, 3) + rest, "+00:00")
    ensures !Less("+00:00", "+00:00")
  {
    LessIrreflexive("+00:00");
    assert (Fixed(n, 3) + rest)[0] == Fixed(n, 3)[0];
  }

  lemma TailOrder(a: nat, b: nat)
    requires a < 1000 && b < 1000
    ensures Less(Tail(a), Tail(b)) <==> a < b
  {
    Thousand();
    FixedOrder(a, b, 3, "+00:00", "+00:00");
    OffsetFirst(a, "+00:00");
    OffsetFirst(b, "+00:00");
  }

  lemma MiddleOrder(y: nat, z: nat, y': nat, z': nat)
    requires y < 1000 && z < 1000 && y' < 1000 && z' < 1000
    ensures Less(Middle(y, z), Middle(y', z')) <==> y < y' || (y == y' && z < z')
  {
    Thousand();
    FixedOrder(y, y', 3, Tail(z), Tail(z'));
    TailOrder(z, z');
    OffsetFirst(y, Tail(z));
    OffsetFirst(y', Tail(z'));
  }

  lemma ChronoFractionOrder(x: nat, y: nat, z: nat, x': nat, y': nat, z': nat)
    requires x < 1000 && y < 1000 && z < 1000 && x' < 1000 && y' < 1000 && z' < 1000
    ensures Less(ChronoFraction(x, y, z), ChronoFraction(x', y', z')) <==>
            x < x' || (x == x' && (y < y' || (y == y' && z < z')))
  {
    Thousand();
    MiddleOrder(y, z, y', z');
    FixedOrder(x, x', 3, Middle(y, z), Middle(y', z'));
    LessAfterPrefix(".", Fixed(x, 3) + Middle(y, z), Fixed(x', 3) + Middle(y', z'));
    LessIrreflexive("+00:00");
  }

  /** Numbers compare group of digits by group of digits. */
  lemma Thousands(m: nat, n: nat)
    ensures m < n <==>
            m / 1000000 < n / 1000000 ||
            (m / 1000000 == n / 1000000 &&
             (m / 1000 % 1000 < n / 1000 % 1000 ||
              (m / 1000 % 1000 == n / 1000 % 1000 && m % 1000 < n % 1000)))
  {
    Group(m);
    Group(n);
    BlockOrder(m / 1000, m % 1000, n / 1000, n % 1000, 1000);
    BlockOrder(m / 1000000, m / 1000 % 1000, n / 1000000, n / 1000 % 1000, 1000);
  }

  lemma Group(n: nat)
    ensures n == (n / 1000) * 1000 + n % 1000
    ensures n / 1000 == (n / 1000000) * 1000 + n / 1000 % 1000
  {
    DivMod(n, 1000);
    DivMod(n / 1000, 1000);
    assert n / 1000 / 1000 == n / 1000000;
  }

  /** String order of the cache's timestamps is time order, with no exception. */
  lemma ChronoOrder(a: Instant, b: Instant)
    ensures Less(ChronoString(a), ChronoString(b)) <==> a < b
  {
    var m, n := a % SECOND, b % SECOND;
    var x, y, z := m / 1000000, m / 1000 % 1000, m % 1000;
    var x', y', z' := n / 1000000, n / 1000 % 1000, n % 1000;
    WholeSecondOrder(a, b, ChronoFraction(x, y, z), ChronoFraction(x', y', z'));
    SecondOrder(a, b);
    ChronoFractionOrder(x, y, z, x', y', z');
    Thousands(m, n);
  }
}
