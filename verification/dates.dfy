/**
 * Calendar dates as the exporter's driver loop sees them: valid Gregorian
 * (year, month, day) triples, the one-day successor that `Date#+ 1` computes,
 * the inclusive range of days the loop visits, and the `%Y-%m-%d` text the
 * loop compares and sends.
 */
module Dates {
  import opened Text

  datatype Date = Date(year: nat, month: nat, day: nat)

  predicate IsLeap(y: nat)
  {
    y % 4 == 0 && (y % 100 != 0 || y % 400 == 0)
  }

  function DaysInMonth(y: nat, m: nat): (r: nat)
    requires 1 <= m <= 12
    ensures 28 <= r <= 31
    ensures r == 29 <==> m == 2 && IsLeap(y)
  {
    if m == 2 then (if IsLeap(y) then 29 else 28)
    else if m == 4 || m == 6 || m == 9 || m == 11 then 30
    else 31
  }

  predicate Valid(d: Date)
  {
    1 <= d.month <= 12 && 1 <= d.day <= DaysInMonth(d.year, d.month)
  }

  /** Chronological order: year, then month, then day. */
  predicate Le(a: Date, b: Date)
  {
    a.year < b.year ||
    (a.year == b.year && (a.month < b.month || (a.month == b.month && a.day <= b.day)))
  }

  predicate Lt(a: Date, b: Date)
  {
    Le(a, b) && a != b
  }

  /** The next calendar day. */
  function Next(d: Date): (r: Date)
    requires Valid(d)
    ensures Valid(r) && Lt(d, r)
  {
    if d.day < DaysInMonth(d.year, d.month) then Date(d.year, d.month, d.day + 1)
    else if d.month < 12 then Date(d.year, d.month + 1, 1)
    else Date(d.year + 1, 1, 1)
  }

  /** No valid date lies strictly between a date and its successor. */
  lemma NextIsImmediate(a: Date, b: Date)
    requires Valid(a) && Valid(b) && Le(a, b)
    ensures a == b || Le(Next(a), b)
  {
  }

  /** The days from `from` to `to` inclusive, one after another: the
      reference for what the driver loop visits. */
  function DaysFrom(from: Date, until: Date): (r: seq<Date>)
    requires Valid(from) && Valid(until)
    ensures |r| == 0 <==> !Le(from, until)
    ensures |r| > 0 ==> r[0] == from && r[|r| - 1] == until
    ensures forall i :: 0 <= i < |r| ==> Valid(r[i]) && Le(from, r[i]) && Le(r[i], until)
    ensures forall i :: 0 <= i < |r| - 1 ==> r[i + 1] == Next(r[i])
    decreases until.year - from.year, 12 - from.month, 31 - from.day
  {
    if !Le(from, until) then []
    else
      NextIsImmediate(from, until);
      [from] + DaysFrom(Next(from), until)
  }

  /** A non-empty range is its first day followed by the range from the next
      day. */
  lemma DaysFromStep(from: Date, until: Date)
    requires Valid(from) && Valid(until) && Le(from, until)
    ensures DaysFrom(from, until) == [from] + DaysFrom(Next(from), until)
  {
  }

  /** Moving the first day of a range onto the days already covered leaves
      the whole unchanged. */
  lemma DaysFromAppend(done: seq<Date>, from: Date, until: Date)
    requires Valid(from) && Valid(until) && Le(from, until)
    ensures done + [from] + DaysFrom(Next(from), until) == done + DaysFrom(from, until)
  {
    DaysFromStep(from, until);
    var later := DaysFrom(Next(from), until);
    assert done + [from] + later == done + ([from] + later);
  }

  /** The range is strictly increasing, so no day is visited twice. */
  lemma {:induction false} DaysFromIncreasing(from: Date, until: Date, i: nat, j: nat)
    requires Valid(from) && Valid(until)
    requires i < j < |DaysFrom(from, until)|
    ensures Lt(DaysFrom(from, until)[i], DaysFrom(from, until)[j])
    decreases j - i
  {
    var r := DaysFrom(from, until);
    if j > i + 1 {
      DaysFromIncreasing(from, until, i, j - 1);
    }
  }

  /** Every valid day between the bounds is visited. */
  lemma {:induction false} DaysFromComplete(from: Date, until: Date, d: Date)
    requires Valid(from) && Valid(until) && Valid(d)
    requires Le(from, d) && Le(d, until)
    ensures d in DaysFrom(from, until)
    decreases until.year - from.year, 12 - from.month, 31 - from.day
  {
    if d != from {
      NextIsImmediate(from, d);
      DaysFromComplete(Next(from), until, d);
      assert DaysFrom(from, until) == [from] + DaysFrom(Next(from), until);
    }
  }

  /** A range whose ends coincide is the one day. */
  lemma SingleDay(d: Date)
    requires Valid(d)
    ensures DaysFrom(d, d) == [d]
  {
    assert DaysFrom(Next(d), d) == [];
  }

  // ---------------------------------------------------------------------
  // The `%Y-%m-%d` text
  // ---------------------------------------------------------------------

  /** `%Y`: at least four digits, zero-padded. */
  function YearText(y: nat): string
  {
    if y < 10000 then Digits(y, 4) else Natural(y)
  }

  /** `strftime("%Y-%m-%d")`. */
  function Format(d: Date): string
  {
    YearText(d.year) + "-" + Digits(d.month, 2) + "-" + Digits(d.day, 2)
  }

  /** A date with a four-digit year. */
  predicate FourDigit(d: Date)
  {
    d.year < 10000
  }

  lemma Pow10Values()
    ensures Pow10(2) == 100 && Pow10(4) == 10000
  {
    assert Pow10(1) == 10;
    assert Pow10(3) == 1000;
  }

  lemma {:induction false} FormatParts(d: Date)
    requires FourDigit(d)
    ensures Format(d) == Digits(d.year, 4) + ("-" + (Digits(d.month, 2) + ("-" + Digits(d.day, 2))))
  {
  }

  /** For dates with four-digit years, comparing the `YYYY-MM-DD` strings as
      Ruby does is the same as comparing the dates, and equal strings mean
      equal dates. */
  lemma {:induction false} FormatOrder(a: Date, b: Date)
    requires Valid(a) && Valid(b) && FourDigit(a) && FourDigit(b)
    ensures LexLe(Format(a), Format(b)) <==> Le(a, b)
    ensures Format(a) == Format(b) <==> a == b
  {
    Pow10Values();
    FormatParts(a);
    FormatParts(b);
    var ya, yb := Digits(a.year, 4), Digits(b.year, 4);
    var ma, mb := Digits(a.month, 2), Digits(b.month, 2);
    var da, db := Digits(a.day, 2), Digits(b.day, 2);
    DigitsOrder(a.year, b.year, 4);
    DigitsOrder(a.month, b.month, 2);
    DigitsOrder(a.day, b.day, 2);
    var ra, rb := "-" + (ma + ("-" + da)), "-" + (mb + ("-" + db));
    var sa, sb := ma + ("-" + da), mb + ("-" + db);
    LexLeAppend(ya, ra, yb, rb);
    LexLeAppend("-", sa, "-", sb);
    LexLeAppend(ma, "-" + da, mb, "-" + db);
    LexLeAppend("-", da, "-", db);
    EqualParts(ya, ra, yb, rb);
    EqualParts("-", sa, "-", sb);
    EqualParts(ma, "-" + da, mb, "-" + db);
    EqualParts("-", da, "-", db);
  }

  lemma EqualParts(a: string, b: string, c: string, d: string)
    requires |a| == |c|
    ensures a + b == c + d <==> a == c && b == d
  {
    if a + b == c + d {
      assert a == (a + b)[..|a|] && c == (c + d)[..|c|];
      assert b == (a + b)[|a|..] && d == (c + d)[|c|..];
    }
  }

  // ---------------------------------------------------------------------
  // The loop guard as the source writes it
  // ---------------------------------------------------------------------

  /** `temp_date <= to_date` on the formatted strings. */
  predicate StringGuard(cur: Date, until: Date)
  {
    LexLe(Format(cur), Format(until))
  }

  /** With four-digit years the string guard is the date comparison. */
  lemma StringGuardAgrees(cur: Date, until: Date)
    requires Valid(cur) && Valid(until) && FourDigit(cur) && FourDigit(until)
    ensures StringGuard(cur, until) <==> Le(cur, until)
  {
    FormatOrder(cur, until);
  }

  lemma LeadingDigits()
    ensures Natural(10000)[0] == '1' && Digits(9999, 4)[0] == '9'
  {
    assert Natural(10) == Natural(1) + "0";
    assert Natural(100) == Natural(10) + "0";
    assert Natural(1000) == Natural(100) + "0";
    assert Natural(10000) == Natural(1000) + "0";
    assert Digits(99, 2) == Digits(9, 1) + "9";
    assert Digits(999, 3) == Digits(99, 2) + "9";
    assert Digits(9999, 4) == Digits(999, 3) + "9";
  }

  /** After 9999-12-31 the string guard still holds: "10000-01-01" sorts before
      "9999-12-31", so the loop would go past its last day. */
  lemma StringGuardOverrun()
    ensures var last := Date(9999, 12, 31);
            Valid(last) && Next(last) == Date(10000, 1, 1) &&
            StringGuard(Next(last), last) && !Le(Next(last), last)
  {
    var last := Date(9999, 12, 31);
    LeadingDigits();
    var f := Format(Date(10000, 1, 1));
    var g := Format(last);
    assert f == Natural(10000) + "-" + Digits(1, 2) + "-" + Digits(1, 2);
    assert g == Digits(9999, 4) + "-" + Digits(12, 2) + "-" + Digits(31, 2);
    assert f[0] == '1' && g[0] == '9';
    assert LexLe(f, g);
  }

  /** The same guard skips a whole range whose last day has a five-digit
      year: "2015-01-01" sorts after "10000-01-01", so the loop never runs. */
  lemma StringGuardSkipsRange()
    ensures var from, until := Date(2015, 1, 1), Date(10000, 1, 1);
            Valid(from) && Valid(until) && Le(from, until) &&
            |DaysFrom(from, until)| > 0 && !StringGuard(from, until)
  {
    var from, until := Date(2015, 1, 1), Date(10000, 1, 1);
    LeadingDigits();
    assert Digits(2015, 4) == Digits(201, 3) + [DigitChar(5)];
    assert Digits(201, 3) == Digits(20, 2) + [DigitChar(1)];
    assert Digits(20, 2) == Digits(2, 1) + [DigitChar(0)];
    assert Digits(2, 1) == [DigitChar(2)];
    var f := Format(from);
    var g := Format(until);
    assert f == Digits(2015, 4) + "-" + Digits(1, 2) + "-" + Digits(1, 2);
    assert g == Natural(10000) + "-" + Digits(1, 2) + "-" + Digits(1, 2);
    assert f[0] == '2' && g[0] == '1';
    assert !LexLe(f, g);
  }

  lemma NaturalSnoc(n: nat)
    requires n >= 10
    ensures Natural(n) == Natural(n / 10) + [DigitChar(n % 10)]
  {
  }

  lemma DigitsSnoc(n: nat, w: nat)
    requires w >= 1
    ensures Digits(n, w) == Digits(n / 10, w - 1) + [DigitChar(n % 10)]
  {
  }

  /** A number of `w` digits written as `Natural` is its `w`-digit text. */
  lemma NaturalAsDigits(n: nat, w: nat)
    requires w >= 1 && n >= 10 && Natural(n / 10) == Digits(n / 10, w - 1)
    ensures Natural(n) == Digits(n, w)
  {
    NaturalSnoc(n);
    DigitsSnoc(n, w);
  }

  /** The year texts around the end of the overrun, digit by digit. */
  lemma FiveNines()
    ensures YearText(99990) == Digits(9999, 4) + [DigitChar(0)]
    ensures YearText(99989) == Digits(999, 3) + [DigitChar(8)] + [DigitChar(9)]
    ensures YearText(9999) == Digits(999, 3) + [DigitChar(9)]
  {
    assert Natural(9) == Digits(9, 1);
    NaturalAsDigits(99, 2);
    NaturalAsDigits(999, 3);
    NaturalAsDigits(9999, 4);
    NaturalAsDigits(9998, 4);
    NaturalSnoc(99990);
    NaturalSnoc(99989);
    DigitsSnoc(9998, 4);
    DigitsSnoc(9999, 4);
  }

  /** The text of a date starts with its year, followed by `-`. */
  lemma FormatHead(d: Date)
    ensures var y := YearText(d.year);
            |Format(d)| > |y| && Format(d)[..|y| + 1] == y + "-"
  {
  }

  /** When the year texts, each followed by `-`, first differ at one place,
      the string guard is decided by the characters there. */
  lemma GuardByYearPrefix(a: Date, b: Date, p: string, x: char, y: char)
    requires x != y
    requires |p| < |YearText(a.year) + "-"| && (YearText(a.year) + "-")[..|p| + 1] == p + [x]
    requires |p| < |YearText(b.year) + "-"| && (YearText(b.year) + "-")[..|p| + 1] == p + [y]
    ensures StringGuard(a, b) <==> x < y
  {
    var f, g := Format(a), Format(b);
    var ya, yb := YearText(a.year) + "-", YearText(b.year) + "-";
    var k := |p|;
    FormatHead(a);
    FormatHead(b);
    assert f[..k + 1] == p + [x] by {
      assert f[..k + 1] == f[..|ya|][..k + 1];
    }
    assert g[..k + 1] == p + [y] by {
      assert g[..k + 1] == g[..|yb|][..k + 1];
    }
    assert f[..k] == p && f[k] == x by {
      assert f[..k] == f[..k + 1][..k] && f[k] == f[..k + 1][k];
    }
    assert g[..k] == p && g[k] == y by {
      assert g[..k] == g[..k + 1][..k] && g[k] == g[..k + 1][k];
    }
    LexLeFirstDiff(f, g, k);
  }

  /** The overrun ends within the five-digit years: 99989-12-31 still passes
      the string guard against 9999-12-31, and 99990-01-01 is the first day
      that fails it, since its fifth character `0` sorts after `-`. */
  lemma StringGuardOverrunEnds()
    ensures var last := Date(9999, 12, 31);
            Valid(Date(99989, 12, 31)) && Next(Date(99989, 12, 31)) == Date(99990, 1, 1) &&
            StringGuard(Date(99989, 12, 31), last) && !StringGuard(Date(99990, 1, 1), last)
  {
    FiveNines();
    var last := YearText(9999) + "-";
    var p3, p4 := Digits(999, 3), Digits(9999, 4);
    assert p4 == p3 + [DigitChar(9)];
    assert last[..4] == p3 + [DigitChar(9)];
    assert last[..5] == p4 + ['-'];
    assert (YearText(99989) + "-")[..4] == p3 + [DigitChar(8)];
    assert (YearText(99990) + "-")[..5] == p4 + [DigitChar(0)];
    GuardByYearPrefix(Date(99989, 12, 31), Date(9999, 12, 31), p3, DigitChar(8), DigitChar(9));
    GuardByYearPrefix(Date(99990, 1, 1), Date(9999, 12, 31), p4, DigitChar(0), '-');
  }
}
