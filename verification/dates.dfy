/**
 * Calendar dates as the email texts print them. A date reaches this model
 * already resolved from its ISO-8601 timestamp into day, month and year;
 * rendering is the light-date pattern `{dd} {MMMM} {yyyy}` with the English
 * month name that `localeFormat(date, '{MMMM}')` yields.
 */
module Dates {
  import opened Wrappers
  import opened Text

  type Day = d: nat | 1 <= d <= 31 witness 1
  type Month = m: nat | 1 <= m <= 12 witness 1

  datatype CalendarDate = CalendarDate(day: Day, month: Month, year: nat)

  const MonthNames: seq<string> := [
    "January", "February", "March", "April", "May", "June",
    "July", "August", "September", "October", "November", "December"
  ]

  /** `{MMMM}`: the full English month name. */
  function MonthName(m: Month): string
  {
    MonthNames[m - 1]
  }

  /** The month a full English month name denotes, if any. */
  function MonthNumber(name: string): Option<Month>
  {
    if name == "January" then Some(1)
    else if name == "February" then Some(2)
    else if name == "March" then Some(3)
    else if name == "April" then Some(4)
    else if name == "May" then Some(5)
    else if name == "June" then Some(6)
    else if name == "July" then Some(7)
    else if name == "August" then Some(8)
    else if name == "September" then Some(9)
    else if name == "October" then Some(10)
    else if name == "November" then Some(11)
    else if name == "December" then Some(12)
    else None
  }

  /** Each month name is read back as its own month, so no two months share a name. */
  lemma MonthNumberOfName(m: Month)
    ensures MonthNumber(MonthName(m)) == Some(m)
    ensures ' ' !in MonthName(m)
  {
  }

  /** `{dd} {MMMM} {yyyy}`: two-digit day, full month name, year padded to four digits. */
  function Format(d: CalendarDate): string
  {
    PadStart(NatToString(d.day), 2, '0') + " " + MonthName(d.month) + " " + PadStart(NatToString(d.year), 4, '0')
  }

  /**
   * Reads back a date printed by `Format`, and nothing else: the day and the
   * year must be zero-padded exactly as `{dd}` and `{yyyy}` pad them.
   */
  function Parse(s: string): Option<CalendarDate>
  {
    var parts := Split(s, ' ');
    if |parts| != 3 || !PaddedNumeral(parts[0], 2) || !PaddedNumeral(parts[2], 4) then None
    else
      match (ParseNat(parts[0]), MonthNumber(parts[1]), ParseNat(parts[2]))
      case (Some(day), Some(month), Some(year)) =>
        if 1 <= day <= 31 then Some(CalendarDate(day, month, year)) else None
      case _ => None
  }

  lemma NoSpaceInDigits(s: string)
    requires AllDigits(s)
    ensures ' ' !in s
  {
  }

  lemma PaddedIsDigits(n: nat, width: nat)
    ensures AllDigits(PadStart(NatToString(n), width, '0'))
  {
    var d := NatToString(n);
    var r := PadStart(d, width, '0');
    forall i | 0 <= i < |r|
      ensures IsDigit(r[i])
    {
      if i >= |r| - |d| {
        assert r[i] == r[|r| - |d|..][i - (|r| - |d|)];
      }
    }
  }

  /** A printed date splits on spaces into its day, month-name and year pieces. */
  lemma FormatPieces(d: CalendarDate)
    ensures Split(Format(d), ' ') == [
      PadStart(NatToString(d.day), 2, '0'), MonthName(d.month), PadStart(NatToString(d.year), 4, '0')]
  {
    var dd := PadStart(NatToString(d.day), 2, '0');
    var name := MonthName(d.month);
    var yyyy := PadStart(NatToString(d.year), 4, '0');
    PaddedIsDigits(d.day, 2);
    PaddedIsDigits(d.year, 4);
    NoSpaceInDigits(dd);
    NoSpaceInDigits(yyyy);
    MonthNumberOfName(d.month);
    assert Format(d) == dd + [' '] + (name + [' '] + yyyy);
    SplitAfterPiece(dd, ' ', name + [' '] + yyyy);
    SplitAfterPiece(name, ' ', yyyy);
    SplitPiece(yyyy, ' ');
  }

  /** Text that splits into a padded day, a month name and a padded year is read as that date. */
  lemma ParseOfPieces(s: string, dd: string, yyyy: string, d: CalendarDate)
    requires Split(s, ' ') == [dd, MonthName(d.month), yyyy]
    requires PaddedNumeral(dd, 2) && ParseNat(dd) == Some(d.day as nat)
    requires PaddedNumeral(yyyy, 4) && ParseNat(yyyy) == Some(d.year)
    ensures Parse(s) == Some(d)
  {
    MonthNumberOfName(d.month);
  }

  /** Every date printed by `Format` is read back as the same date. */
  lemma {:induction false} ParseFormat(d: CalendarDate)
    ensures Parse(Format(d)) == Some(d)
  {
    var dd := PadStart(NatToString(d.day), 2, '0');
    var yyyy := PadStart(NatToString(d.year), 4, '0');
    FormatPieces(d);
    PaddedIsNumeral(d.day, 2);
    PaddedIsNumeral(d.year, 4);
    PaddedNatReadsBack(d.day, 2);
    PaddedNatReadsBack(d.year, 4);
    ParseOfPieces(Format(d), dd, yyyy, d);
  }

  /** A name read as a month is that month's name. */
  lemma MonthNameOfNumber(name: string)
    requires MonthNumber(name).Some?
    ensures MonthName(MonthNumber(name).value) == name
  {
  }

  /** Three pieces joined with single spaces. */
  lemma JoinThree(parts: seq<string>)
    requires |parts| == 3
    ensures Join(parts, " ") == parts[0] + " " + parts[1] + " " + parts[2]
  {
    assert parts[1..][1..] == parts[2..];
    assert Join(parts[2..], " ") == parts[2];
  }

  /** Whatever `Parse` accepts is the printed form of the date it yields. */
  lemma {:induction false} FormatParse(s: string)
    requires Parse(s).Some?
    ensures Format(Parse(s).value) == s
  {
    var parts := Split(s, ' ');
    PaddedNumeralReadsBack(parts[0], 2);
    PaddedNumeralReadsBack(parts[2], 4);
    MonthNameOfNumber(parts[1]);
    JoinThree(parts);
    JoinSplit(s, ' ');
  }

  /** `Parse` accepts exactly the texts `Format` prints, each as its own date. */
  lemma ParseExactlyFormat(s: string, d: CalendarDate)
    ensures Parse(s) == Some(d) <==> s == Format(d)
  {
    if Parse(s) == Some(d) {
      FormatParse(s);
    }
    if s == Format(d) {
      ParseFormat(d);
    }
  }
}
