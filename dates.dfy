/** Calendar dates as the layout "2006-01-02" of Go's `time.Parse` reads them:
    a four-digit year, a dash, a two-digit month, a dash and a two-digit day,
    with the day checked against the length of that month (RFC 3339
    section 5.6, full-date). */
module Dates {
  import opened Results
  import opened Text

  datatype Date = Date(year: nat, month: nat, day: nat)

  /** Gregorian leap years, year 0 included. */
  predicate IsLeap(year: nat) {
    year % 4 == 0 && (year % 100 != 0 || year % 400 == 0)
  }

  function DaysIn(month: nat, year: nat): (n: nat)
    requires 1 <= month <= 12
    ensures 28 <= n <= 31
  {
    if month == 2 then (if IsLeap(year) then 29 else 28)
    else if month == 4 || month == 6 || month == 9 || month == 11 then 30
    else 31
  }

  predicate IsValidDate(d: Date) {
    d.year < 10000 && 1 <= d.month <= 12 && 1 <= d.day <= DaysIn(d.month, d.year)
  }

  function Digit(c: char): nat
    requires IsDigit(c)
  {
    c as int - '0' as int
  }

  /** Value of two decimal digit characters. */
  function Pair(hi: char, lo: char): (n: nat)
    requires IsDigit(hi) && IsDigit(lo)
    ensures n < 100
  {
    Digit(hi) * 10 + Digit(lo)
  }

  /** Two zero-padded digits. */
  function PairChars(n: nat): (s: string)
    requires n < 100
    ensures |s| == 2 && IsDigit(s[0]) && IsDigit(s[1])
  {
    [DigitChar(n / 10), DigitChar(n % 10)]
  }

  lemma PairOfPairChars(n: nat)
    requires n < 100
    ensures Pair(PairChars(n)[0], PairChars(n)[1]) == n
  {
  }

  lemma PairCharsOfPair(hi: char, lo: char)
    requires IsDigit(hi) && IsDigit(lo)
    ensures PairChars(Pair(hi, lo)) == [hi, lo]
  {
    var n := Pair(hi, lo);
    assert n / 10 == Digit(hi) && n % 10 == Digit(lo);
    assert DigitChar(Digit(hi)) == hi && DigitChar(Digit(lo)) == lo;
  }

  lemma Hundreds(h: nat, l: nat)
    requires l < 100
    ensures (h * 100 + l) / 100 == h && (h * 100 + l) % 100 == l
  {
  }

  /** Does `s` have the shape dddd-dd-dd? */
  predicate HasDateShape(s: string) {
    && |s| == 10
    && IsDigit(s[0]) && IsDigit(s[1]) && IsDigit(s[2]) && IsDigit(s[3])
    && s[4] == '-'
    && IsDigit(s[5]) && IsDigit(s[6])
    && s[7] == '-'
    && IsDigit(s[8]) && IsDigit(s[9])
  }

  /** The date that the digits of a dddd-dd-dd string spell, valid or not. */
  function DateOfShape(s: string): Date
    requires HasDateShape(s)
  {
    Date(Pair(s[0], s[1]) * 100 + Pair(s[2], s[3]), Pair(s[5], s[6]), Pair(s[8], s[9]))
  }

  /** `time.Parse("2006-01-02", s)`: `None` is the parse error (wrong shape,
      month out of 1..12, or day out of range for the month). */
  function ParseDate(s: string): (r: Option<Date>)
    ensures r.Some? <==> HasDateShape(s) && IsValidDate(DateOfShape(s))
    ensures r.Some? ==> IsValidDate(r.value)
  {
    if HasDateShape(s) && IsValidDate(DateOfShape(s)) then Some(DateOfShape(s)) else None
  }

  /** The date written in the layout "2006-01-02", zero-padded. */
  function FormatDate(d: Date): (s: string)
    requires d.year < 10000 && d.month < 100 && d.day < 100
    ensures HasDateShape(s)
  {
    PairChars(d.year / 100) + PairChars(d.year % 100) + "-" + PairChars(d.month) + "-" + PairChars(d.day)
  }

  /** The digits of a formatted date spell that date back. */
  lemma ShapeOfFormat(d: Date)
    requires d.year < 10000 && d.month < 100 && d.day < 100
    ensures DateOfShape(FormatDate(d)) == d
  {
    var s := FormatDate(d);
    PairOfPairChars(d.year / 100);
    PairOfPairChars(d.year % 100);
    PairOfPairChars(d.month);
    PairOfPairChars(d.day);
    assert Pair(s[0], s[1]) == d.year / 100;
    assert Pair(s[2], s[3]) == d.year % 100;
  }

  /** Every valid date survives formatting and parsing. */
  lemma ParseFormat(d: Date)
    requires IsValidDate(d)
    ensures ParseDate(FormatDate(d)) == Some(d)
  {
    ShapeOfFormat(d);
  }

  /** A string that parses is exactly the spelling of the date it parses to:
      there is one accepted spelling per date. */
  lemma FormatParse(s: string)
    requires ParseDate(s).Some?
    ensures FormatDate(ParseDate(s).value) == s
  {
    var d := ParseDate(s).value;
    Hundreds(Pair(s[0], s[1]), Pair(s[2], s[3]));
    PairCharsOfPair(s[0], s[1]);
    PairCharsOfPair(s[2], s[3]);
    PairCharsOfPair(s[5], s[6]);
    PairCharsOfPair(s[8], s[9]);
    assert s == s[0..2] + s[2..4] + "-" + s[5..7] + "-" + s[8..10];
  }

  /** "YYYY-02-29" is accepted exactly in leap years. */
  lemma LeapDay(year: nat)
    requires year < 10000
    ensures ParseDate(FormatDate(Date(year, 2, 29))).Some? <==> IsLeap(year)
  {
    ShapeOfFormat(Date(year, 2, 29));
  }

  /** The day after the last day of any month is refused, in every year. */
  lemma DayAfterMonthEnd(year: nat, month: nat)
    requires year < 10000 && 1 <= month <= 12
    ensures ParseDate(FormatDate(Date(year, month, DaysIn(month, year) + 1))) == None
  {
    ShapeOfFormat(Date(year, month, DaysIn(month, year) + 1));
  }
}
