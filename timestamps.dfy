/** The conversion of the archive's capture times, strings in the fixed-width
    layout `YYYYMMDDHHMMSS`, into date-times: `pd.to_datetime(...,
    format='%Y%m%d%H%M%S', errors='coerce')` applied to the
    `archived_timestamp` column. A value that is not such a string, names no
    valid date and time (a second above 59 counts as invalid here), or lies
    outside the range of a pandas timestamp becomes a null (`NaT`) instead of
    raising. */
module Timestamps {
  import opened Wrappers

  datatype DateTime = DateTime(year: int, month: int, day: int, hour: int, minute: int, second: int)

  predicate IsLeapYear(y: int) {
    y % 4 == 0 && (y % 100 != 0 || y % 400 == 0)
  }

  function DaysInMonth(year: int, month: int): int
    requires 1 <= month <= 12
  {
    if month == 2 then (if IsLeapYear(year) then 29 else 28)
    else if month == 4 || month == 6 || month == 9 || month == 11 then 30
    else 31
  }

  /** A moment Python's `datetime` can hold, with whole seconds. */
  predicate IsValid(t: DateTime) {
    1 <= t.year <= 9999 && 1 <= t.month <= 12 && 1 <= t.day <= DaysInMonth(t.year, t.month) &&
    0 <= t.hour <= 23 && 0 <= t.minute <= 59 && 0 <= t.second <= 59
  }

  /** `a` is not later than `b` (field-by-field lexicographic order). */
  predicate NotAfter(a: DateTime, b: DateTime) {
    if a.year != b.year then a.year < b.year
    else if a.month != b.month then a.month < b.month
    else if a.day != b.day then a.day < b.day
    else if a.hour != b.hour then a.hour < b.hour
    else if a.minute != b.minute then a.minute < b.minute
    else a.second <= b.second
  }

  /** The first and last whole seconds a nanosecond-resolution pandas
      timestamp can represent (its range is 1677-09-21 00:12:43.145224193
      to 2262-04-11 23:47:16.854775807). */
  const EarliestTimestamp := DateTime(1677, 9, 21, 0, 12, 44)
  const LatestTimestamp := DateTime(2262, 4, 11, 23, 47, 16)

  predicate InPandasRange(t: DateTime) {
    NotAfter(EarliestTimestamp, t) && NotAfter(t, LatestTimestamp)
  }

  predicate IsDigit(c: char) {
    '0' <= c <= '9'
  }

  predicate AllDigits(s: string) {
    forall i :: 0 <= i < |s| ==> IsDigit(s[i])
  }

  function DigitValue(c: char): nat
    requires IsDigit(c)
  {
    c as int - '0' as int
  }

  /** The number a string of decimal digits denotes. */
  function DecimalValue(s: string): nat
    requires AllDigits(s)
  {
    if s == [] then 0 else 10 * DecimalValue(s[..|s| - 1]) + DigitValue(s[|s| - 1])
  }

  function Pow10(n: nat): (p: nat)
    ensures p > 0
  {
    if n == 0 then 1 else 10 * Pow10(n - 1)
  }

  /** `n` written in decimal with zero padding to `width` digits (the `%Y`,
      `%m`, `%d`, `%H`, `%M`, `%S` directives of `strftime`). */
  function Padded(n: nat, width: nat): (r: string)
    ensures |r| == width && AllDigits(r)
  {
    if width == 0 then [] else Padded(n / 10, width - 1) + [('0' as int + n % 10) as char]
  }

  lemma DecimalValueSnoc(s: string, c: char)
    requires AllDigits(s) && IsDigit(c)
    ensures AllDigits(s + [c]) && DecimalValue(s + [c]) == 10 * DecimalValue(s) + DigitValue(c)
  {
    assert (s + [c])[..|s|] == s;
  }

  /** Reading back a padded number gives the number, when it fits the width. */
  lemma {:induction false} PaddedValue(n: nat, width: nat)
    requires n < Pow10(width)
    ensures DecimalValue(Padded(n, width)) == n
  {
    if width > 0 {
      PaddedValue(n / 10, width - 1);
      DecimalValueSnoc(Padded(n / 10, width - 1), ('0' as int + n % 10) as char);
    }
  }

  /** Every digit string is the padded form of the number it denotes. */
  lemma {:induction false} PaddedDecimal(s: string)
    requires AllDigits(s)
    ensures DecimalValue(s) < Pow10(|s|)
    ensures Padded(DecimalValue(s), |s|) == s
    decreases |s|
  {
    if s != [] {
      var p := s[..|s| - 1];
      PaddedDecimal(p);
      var v := DecimalValue(s);
      assert v / 10 == DecimalValue(p) && v % 10 == DigitValue(s[|s| - 1]);
      assert s == p + [s[|s| - 1]];
    }
  }

  /** The fixed-width `%Y%m%d%H%M%S` form of a moment. */
  function Format(t: DateTime): (r: string)
    requires IsValid(t)
    ensures |r| == 14 && AllDigits(r)
  {
    Padded(t.year, 4) + Padded(t.month, 2) + Padded(t.day, 2) +
    Padded(t.hour, 2) + Padded(t.minute, 2) + Padded(t.second, 2)
  }

  /** The moment named by the fields of a 14-digit string, valid or not. */
  function Fields(s: string): DateTime
    requires |s| == 14 && AllDigits(s)
  {
    DateTime(DecimalValue(s[0..4]), DecimalValue(s[4..6]), DecimalValue(s[6..8]),
             DecimalValue(s[8..10]), DecimalValue(s[10..12]), DecimalValue(s[12..14]))
  }

  /** One cell of the conversion; `None` stands for a missing value in the
      column. */
  function ParseTimestamp(cell: Option<string>): (r: Option<DateTime>)
    ensures r.Some? ==> cell.Some? && IsValid(r.value) && InPandasRange(r.value)
  {
    match cell
    case None => None
    case Some(s) =>
      if |s| == 14 && AllDigits(s) && IsValid(Fields(s)) && InPandasRange(Fields(s))
      then Some(Fields(s))
      else None
  }

  /** The whole column, element by element: the table keeps every row. */
  function ParseTimestampColumn(column: seq<Option<string>>): (r: seq<Option<DateTime>>)
    ensures |r| == |column|
    ensures forall i :: 0 <= i < |column| ==> r[i] == ParseTimestamp(column[i])
  {
    seq(|column|, i requires 0 <= i < |column| => ParseTimestamp(column[i]))
  }

  lemma FormatSlices(t: DateTime)
    requires IsValid(t)
    ensures Format(t)[0..4] == Padded(t.year, 4) && Format(t)[4..6] == Padded(t.month, 2)
    ensures Format(t)[6..8] == Padded(t.day, 2) && Format(t)[8..10] == Padded(t.hour, 2)
    ensures Format(t)[10..12] == Padded(t.minute, 2) && Format(t)[12..14] == Padded(t.second, 2)
  {
  }

  /** A valid in-range moment written in the fixed-width layout parses back
      to itself. */
  lemma ParseFormat(t: DateTime)
    requires IsValid(t) && InPandasRange(t)
    ensures ParseTimestamp(Some(Format(t))) == Some(t)
  {
    FormatSlices(t);
    PaddedValue(t.year, 4);
    PaddedValue(t.month, 2);
    PaddedValue(t.day, 2);
    PaddedValue(t.hour, 2);
    PaddedValue(t.minute, 2);
    PaddedValue(t.second, 2);
    assert Fields(Format(t)) == t;
  }

  /** Whatever parses is exactly the fixed-width form of its result. */
  lemma FormatParse(s: string)
    requires ParseTimestamp(Some(s)).Some?
    ensures Format(ParseTimestamp(Some(s)).value) == s
  {
    var t := Fields(s);
    var a, b, c, d, e, f := s[0..4], s[4..6], s[6..8], s[8..10], s[10..12], s[12..14];
    PaddedDecimal(a);
    PaddedDecimal(b);
    PaddedDecimal(c);
    PaddedDecimal(d);
    PaddedDecimal(e);
    PaddedDecimal(f);
    assert Padded(t.year, 4) == a && Padded(t.month, 2) == b && Padded(t.day, 2) == c;
    assert Padded(t.hour, 2) == d && Padded(t.minute, 2) == e && Padded(t.second, 2) == f;
    FieldsCover(s);
  }

  lemma FieldsCover(s: string)
    requires |s| == 14
    ensures s == s[0..4] + s[4..6] + s[6..8] + s[8..10] + s[10..12] + s[12..14]
  {
  }

  /** So the parse is the inverse of `Format`: a string maps to a moment
      exactly when it is that moment's fixed-width form, and to null when it
      is the form of no valid in-range moment. */
  lemma ParseTimestampIff(s: string, t: DateTime)
    requires IsValid(t) && InPandasRange(t)
    ensures ParseTimestamp(Some(s)) == Some(t) <==> s == Format(t)
  {
    if s == Format(t) {
      ParseFormat(t);
    }
    if ParseTimestamp(Some(s)) == Some(t) {
      FormatParse(s);
    }
  }

  lemma TwoDigits(f: string, x: char, y: char)
    requires f == [x, y] && IsDigit(x) && IsDigit(y)
    ensures AllDigits(f) && DecimalValue(f) == 10 * DigitValue(x) + DigitValue(y)
  {
    assert [x][..0] == [] && DecimalValue([x]) == DigitValue(x);
    assert f[..1] == [x] && DecimalValue(f) == 10 * DecimalValue([x]) + DigitValue(y);
  }

  lemma FourDigits(f: string, w: char, x: char, y: char, z: char)
    requires f == [w, x, y, z] && IsDigit(w) && IsDigit(x) && IsDigit(y) && IsDigit(z)
    ensures AllDigits(f)
    ensures DecimalValue(f) == 1000 * DigitValue(w) + 100 * DigitValue(x) + 10 * DigitValue(y) + DigitValue(z)
  {
    assert f[..3] == [w, x, y];
    TwoDigits([w, x, y][..2], w, x);
  }

  lemma ExampleSlices(s: string)
    requires s == "20240615123045"
    ensures |s| == 14 && AllDigits(s)
    ensures s[0..4] == ['2', '0', '2', '4'] && s[4..6] == ['0', '6'] && s[6..8] == ['1', '5']
    ensures s[8..10] == ['1', '2'] && s[10..12] == ['3', '0'] && s[12..14] == ['4', '5']
  {
  }

  /** A well-formed capture time parses to its six fields. */
  lemma ParseTimestampValidExample()
    ensures ParseTimestamp(Some("20240615123045")) == Some(DateTime(2024, 6, 15, 12, 30, 45))
  {
    var s := "20240615123045";
    ExampleSlices(s);
    FourDigits(s[0..4], '2', '0', '2', '4');
    TwoDigits(s[4..6], '0', '6');
    TwoDigits(s[6..8], '1', '5');
    TwoDigits(s[8..10], '1', '2');
    TwoDigits(s[10..12], '3', '0');
    TwoDigits(s[12..14], '4', '5');
    assert Fields(s) == DateTime(2024, 6, 15, 12, 30, 45);
  }

  /** A value that is not a digit string becomes null. */
  lemma ParseTimestampInvalidExample()
    ensures ParseTimestamp(Some("notadate")) == None
  {
    assert !IsDigit("notadate"[0]);
  }
}
