/** The date helpers of the event detail page: `formatDate`, `isUpcoming`
    and the `YYYYMMDD` to `YYYY-MM-DD` rewrite used as the date picker's
    bounds. Dates are the public data's `YYYYMMDD` text, possibly with
    separators. */
module EventDates {
  import opened Text
  import opened Wrappers

  /** `formatDate`: `YYYY.MM.DD` from the digits of the input when there
      are exactly eight of them, the input unchanged otherwise. */
  function FormatDate(s: string): (r: string)
    ensures s == "" ==> r == ""
    ensures s != "" && |DigitsOf(s)| == 8 ==>
              |r| == 10 && r[4] == '.' && r[7] == '.' && DigitsOf(r) == DigitsOf(s)
              && r[..4] == DigitsOf(s)[..4] && r[5..7] == DigitsOf(s)[4..6] && r[8..] == DigitsOf(s)[6..]
    ensures |DigitsOf(s)| != 8 ==> r == s
  {
    if s == "" then ""
    else
      var d := DigitsOf(s);
      if |d| == 8 then
        DottedDate(d);
        d[..4] + "." + d[4..6] + "." + d[6..]
      else s
  }

  /** The shape of `YYYY.MM.DD` built from eight digits. */
  lemma DottedDate(d: string)
    requires |d| == 8 && AllDigits(d)
    ensures var r := d[..4] + "." + d[4..6] + "." + d[6..];
            |r| == 10 && r[4] == '.' && r[7] == '.' && DigitsOf(r) == d
            && r[..4] == d[..4] && r[5..7] == d[4..6] && r[8..] == d[6..]
  {
    DottedDigits(d[..4], d[4..6], d[6..]);
    assert d[..4] + d[4..6] + d[6..] == d;
  }

  /** The dots inserted between year, month and day are not digits. */
  lemma DottedDigits(y: string, m: string, d: string)
    requires AllDigits(y) && AllDigits(m) && AllDigits(d)
    ensures DigitsOf(y + "." + m + "." + d) == y + m + d
  {
    SkipNonDigit(y, '.', m);
    SkipNonDigit(y + "." + m, '.', d);
  }

  /** Formatting twice is formatting once. */
  lemma FormatDateIdempotent(s: string)
    ensures FormatDate(FormatDate(s)) == FormatDate(s)
  {
    var r := FormatDate(s);
    if s != "" && |DigitsOf(s)| == 8 {
      var d := DigitsOf(s);
      assert DigitsOf(r) == d;
      assert r == d[..4] + "." + d[4..6] + "." + d[6..];
    }
  }

  /** Milliseconds in a day (ECMA-262 msPerDay). */
  const MsPerDay: int := 86400000

  /** ECMA-262 DayFromYear: the day number of 1 January of year `y`, counted
      from 1 January 1970 (`/` on a positive divisor is floor division). */
  function DayFromYear(y: int): int {
    365 * (y - 1970) + (y - 1969) / 4 - (y - 1901) / 100 + (y - 1601) / 400
  }

  /** ECMA-262 DaysInYear. */
  function DaysInYear(y: int): int {
    if y % 4 != 0 then 365
    else if y % 100 != 0 then 366
    else if y % 400 != 0 then 365
    else 366
  }

  predicate IsLeapYear(y: int) {
    DaysInYear(y) == 366
  }

  /** Days in month `m` (0 = January) of year `y`. */
  function DaysInMonth(y: int, m: int): int
    requires 0 <= m < 12
  {
    if m == 1 then (if IsLeapYear(y) then 29 else 28)
    else if m == 3 || m == 5 || m == 8 || m == 10 then 30
    else 31
  }

  /** Days of year `y` before the first of month `m` (0 = January). */
  function DaysBeforeMonth(y: int, m: int): int
    requires 0 <= m < 12
  {
    [0, 31, 59, 90, 120, 151, 181, 212, 243, 273, 304, 334][m]
    + (if m >= 2 && IsLeapYear(y) then 1 else 0)
  }

  /** ECMA-262 MakeDay: month and date may lie outside their ranges and
      roll over into the neighbouring months and years. */
  function MakeDay(year: int, month: int, date: int): int {
    var ym := year + month / 12;
    var mn := month % 12;
    DayFromYear(ym) + DaysBeforeMonth(ym, mn) + date - 1
  }

  /** The leap-day terms of DayFromYear step up exactly at multiples of
      4, 100 and 400. */
  lemma QuadStep(y: int)
    ensures (y - 1968) / 4 - (y - 1969) / 4 == if y % 4 == 0 then 1 else 0
  {
    var q, r := (y - 1969) / 4, (y - 1969) % 4;
    assert y - 1969 == 4 * q + r;
    if r == 3 {
      assert y - 1968 == 4 * (q + 1);
    } else {
      assert y - 1968 == 4 * q + (r + 1);
    }
  }

  lemma CenturyStep(y: int)
    ensures (y - 1900) / 100 - (y - 1901) / 100 == if y % 100 == 0 then 1 else 0
  {
    var q, r := (y - 1901) / 100, (y - 1901) % 100;
    assert y - 1901 == 100 * q + r;
    if r == 99 {
      assert y - 1900 == 100 * (q + 1);
    } else {
      assert y - 1900 == 100 * q + (r + 1);
    }
  }

  lemma QuadCenturyStep(y: int)
    ensures (y - 1600) / 400 - (y - 1601) / 400 == if y % 400 == 0 then 1 else 0
  {
    var q, r := (y - 1601) / 400, (y - 1601) % 400;
    assert y - 1601 == 400 * q + r;
    if r == 399 {
      assert y - 1600 == 400 * (q + 1);
    } else {
      assert y - 1600 == 400 * q + (r + 1);
    }
  }

  lemma DivisibilityChain(y: int)
    ensures y % 100 == 0 ==> y % 4 == 0
    ensures y % 400 == 0 ==> y % 100 == 0
  {
    if y % 100 == 0 {
      assert y == 100 * (y / 100);
      assert y == 4 * (25 * (y / 100));
    }
    if y % 400 == 0 {
      assert y == 400 * (y / 400);
      assert y == 100 * (4 * (y / 400));
    }
  }

  /** Consecutive years are a year's length apart. */
  lemma DayFromYearStep(y: int)
    ensures DayFromYear(y + 1) == DayFromYear(y) + DaysInYear(y)
  {
    QuadStep(y);
    CenturyStep(y);
    QuadCenturyStep(y);
    DivisibilityChain(y);
  }

  /** The first of the next month is the day after the last of this month,
      across the year boundary too. */
  lemma NextMonthFollowsLastDay(y: int, m: int)
    requires 0 <= m < 12
    ensures MakeDay(y, m + 1, 1) == MakeDay(y, m, DaysInMonth(y, m)) + 1
  {
    if m == 11 {
      DayFromYearStep(y);
    }
  }

  /** `new Date(year, ...)` reads years 0 to 99 as 1900 to 1999. */
  function FullYear(y: int): int {
    if 0 <= y <= 99 then 1900 + y else y
  }

  /** `new Date(year, month - 1, day)` for the eight digits `d`, as a UTC
      time value: local midnight less the local time-zone offset. */
  function StartInstant(d: string, offsetMs: int): (instant: int)
    requires |d| == 8 && AllDigits(d)
    ensures (instant + offsetMs) % MsPerDay == 0
  {
    var year := FullYear(DecimalValue(d[..4]));
    var month := DecimalValue(d[4..6]) - 1;
    var day := DecimalValue(d[6..]);
    var dayNumber := MakeDay(year, month, day);
    WholeDays(dayNumber);
    dayNumber * MsPerDay - offsetMs
  }

  /** A whole number of days is a multiple of a day's length. */
  lemma WholeDays(n: int)
    ensures (n * MsPerDay) % MsPerDay == 0
  {
  }

  /** The local offset only shifts the instant: a zone `offsetMs` ahead of
      UTC reaches the same local midnight that much earlier. */
  lemma OffsetShifts(d: string, offsetMs: int)
    requires |d| == 8 && AllDigits(d)
    ensures StartInstant(d, offsetMs) == StartInstant(d, 0) - offsetMs
  {
  }

  /** Dates that start together at offset zero start together at every
      offset. */
  lemma SameInstantAtAnyOffset(d: string, e: string, offsetMs: int)
    requires |d| == 8 && AllDigits(d) && |e| == 8 && AllDigits(e)
    requires StartInstant(d, 0) == StartInstant(e, 0)
    ensures StartInstant(d, offsetMs) == StartInstant(e, offsetMs)
  {
    OffsetShifts(d, offsetMs);
    OffsetShifts(e, offsetMs);
  }

  /** `isUpcoming`, with the current instant `now` and the local
      time-zone offset passed in. */
  function IsUpcoming(s: string, now: int, offsetMs: int): (upcoming: bool)
    ensures s == "" || |DigitsOf(s)| != 8 ==> !upcoming
    ensures upcoming ==> StartInstant(DigitsOf(s), offsetMs) >= now
    ensures s != "" && |DigitsOf(s)| == 8 && StartInstant(DigitsOf(s), offsetMs) >= now ==> upcoming
  {
    if s == "" then false
    else
      var cleaned := DigitsOf(s);
      if |cleaned| == 8 then StartInstant(cleaned, offsetMs) >= now
      else false
  }

  /** On the day of the event itself, the event is upcoming only at the
      very instant of midnight. */
  lemma SameDayUpcomingOnlyAtMidnight(s: string, now: int, offsetMs: int)
    requires s != "" && |DigitsOf(s)| == 8
    requires StartInstant(DigitsOf(s), offsetMs) <= now < StartInstant(DigitsOf(s), offsetMs) + MsPerDay
    ensures IsUpcoming(s, now, offsetMs) <==> now == StartInstant(DigitsOf(s), offsetMs)
  {
  }

  /** The value of one digit. */
  function DigitValue(c: char): int {
    c as int - '0' as int
  }

  /** `parseInt` of two digits. */
  lemma TwoDigitValue(s: string)
    requires |s| == 2 && AllDigits(s)
    ensures DecimalValue(s) == 10 * DigitValue(s[0]) + DigitValue(s[1])
  {
    assert s[..1][..0] == [];
  }

  /** `parseInt` of four digits. */
  lemma FourDigitValue(s: string)
    requires |s| == 4 && AllDigits(s)
    ensures DecimalValue(s) ==
              1000 * DigitValue(s[0]) + 100 * DigitValue(s[1]) + 10 * DigitValue(s[2]) + DigitValue(s[3])
  {
    assert s[..3][..2] == s[..2];
    TwoDigitValue(s[..2]);
  }

  /** The start instant at offset zero of the date whose eight digits
      spell year `y`, month `m` and day `day`. */
  lemma StartInstantOfDigits(d: string, y: int, m: int, day: int)
    requires |d| == 8 && AllDigits(d)
    requires y == 1000 * DigitValue(d[0]) + 100 * DigitValue(d[1]) + 10 * DigitValue(d[2]) + DigitValue(d[3])
    requires m == 10 * DigitValue(d[4]) + DigitValue(d[5])
    requires day == 10 * DigitValue(d[6]) + DigitValue(d[7])
    ensures StartInstant(d, 0) == MakeDay(FullYear(y), m - 1, day) * MsPerDay
  {
    FourDigitValue(d[..4]);
    TwoDigitValue(d[4..6]);
    TwoDigitValue(d[6..]);
  }

  /** Two eight-digit dates whose year, month and day give the same day
      number start at the same instant. */
  lemma SameDaySameInstant(d: string, y: int, m: int, day: int, e: string, y': int, m': int, day': int)
    requires |d| == 8 && AllDigits(d) && |e| == 8 && AllDigits(e)
    requires y == 1000 * DigitValue(d[0]) + 100 * DigitValue(d[1]) + 10 * DigitValue(d[2]) + DigitValue(d[3])
    requires m == 10 * DigitValue(d[4]) + DigitValue(d[5])
    requires day == 10 * DigitValue(d[6]) + DigitValue(d[7])
    requires y' == 1000 * DigitValue(e[0]) + 100 * DigitValue(e[1]) + 10 * DigitValue(e[2]) + DigitValue(e[3])
    requires m' == 10 * DigitValue(e[4]) + DigitValue(e[5])
    requires day' == 10 * DigitValue(e[6]) + DigitValue(e[7])
    requires MakeDay(FullYear(y), m - 1, day) == MakeDay(FullYear(y'), m' - 1, day')
    ensures StartInstant(d, 0) == StartInstant(e, 0)
  {
    StartInstantOfDigits(d, y, m, day);
    StartInstantOfDigits(e, y', m', day');
  }

  /** A year written `00YY` is read in the 1900s: `00991231` names the
      same day as `19991231`. */
  lemma TwoDigitYearIn1900s(offsetMs: int)
    ensures StartInstant("00991231", offsetMs) == StartInstant("19991231", offsetMs)
  {
    assert FullYear(99) == FullYear(1999);
    SameDaySameInstant("00991231", 99, 12, 31, "19991231", 1999, 12, 31);
    SameInstantAtAnyOffset("00991231", "19991231", offsetMs);
  }

  /** No calendar check is made: month 13 rolls over into January of the
      next year. */
  lemma MonthThirteenRollsOver(offsetMs: int)
    ensures StartInstant("20241301", offsetMs) == StartInstant("20250101", offsetMs)
  {
    assert MakeDay(FullYear(2024), 12, 1) == MakeDay(FullYear(2025), 0, 1);
    SameDaySameInstant("20241301", 2024, 13, 1, "20250101", 2025, 1, 1);
    SameInstantAtAnyOffset("20241301", "20250101", offsetMs);
  }

  /** The eight digits run from index `i`. */
  ghost predicate EightDigitsAt(s: string, i: int) {
    0 <= i && i + 8 <= |s| && AllDigits(s[i..i + 8])
  }

  /** The first index at or after `from` where eight digits run. */
  function FirstEightDigits(s: string, from: nat): (r: Option<nat>)
    requires from <= |s|
    decreases |s| - from
    ensures r.None? ==> forall i :: from <= i ==> !EightDigitsAt(s, i)
    ensures r.Some? ==> from <= r.value && EightDigitsAt(s, r.value)
                        && forall i :: from <= i < r.value ==> !EightDigitsAt(s, i)
  {
    if from + 8 > |s| then None
    else if AllDigits(s[from..from + 8]) then Some(from)
    else FirstEightDigits(s, from + 1)
  }

  /** `s.replace(/(\d{4})(\d{2})(\d{2})/, "$1-$2-$3")`: dashes go into the
      leftmost run of eight digits; with no such run `s` is unchanged. */
  function DateInputValue(s: string): (r: string)
    ensures (forall i :: !EightDigitsAt(s, i)) ==> r == s
    ensures forall i :: EightDigitsAt(s, i) && (forall j :: 0 <= j < i ==> !EightDigitsAt(s, j))
                        ==> r == s[..i + 4] + "-" + s[i + 4..i + 6] + "-" + s[i + 6..]
  {
    match FirstEightDigits(s, 0)
    case None => s
    case Some(i) => s[..i + 4] + "-" + s[i + 4..i + 6] + "-" + s[i + 6..]
  }

  /** The rewrite only inserts dashes: the digits are the same. */
  lemma DateInputKeepsDigits(s: string)
    ensures DigitsOf(DateInputValue(s)) == DigitsOf(s)
  {
    match FirstEightDigits(s, 0)
    case None =>
    case Some(i) =>
      var a, b, c := s[..i + 4], s[i + 4..i + 6], s[i + 6..];
      assert s == a + b + c;
      SkipNonDigit(a, '-', b);
      SkipNonDigit(a + "-" + b, '-', c);
      DigitsOfAppend(a + b, c);
      DigitsOfAppend(a, b);
  }

  /** A date picker bound shows the same day as the detail view. */
  lemma DateInputAgreesWithFormatDate(s: string)
    requires |DigitsOf(s)| == 8
    ensures FormatDate(DateInputValue(s)) == FormatDate(s)
  {
    DateInputKeepsDigits(s);
    var r := DateInputValue(s);
    assert |DigitsOf(r)| == 8;
  }

  /** A compact `YYYYMMDD` becomes `YYYY-MM-DD`. */
  lemma CompactDateInput(s: string)
    requires |s| == 8 && AllDigits(s)
    ensures DateInputValue(s) == s[..4] + "-" + s[4..6] + "-" + s[6..]
  {
    assert s[0..8] == s;
    assert EightDigitsAt(s, 0);
  }
}
