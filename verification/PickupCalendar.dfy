/**
 Pickup windows of the load board: dates are read from text, checked by letting the clock arithmetic of ECMAScript
 (section 21.4.1 of ECMA-262) normalise them and comparing, and turned into a deadline in milliseconds.
 */
module PickupCalendar {
  import opened Options

  // ---------------------------------------------------------------- clock arithmetic of the language

  const DAY_MS := 24 * 60 * 60 * 1000

  predicate IsLeap(y: int) {
    y % 4 == 0 && (y % 100 != 0 || y % 400 == 0)
  }

  function DaysInYear(y: int): int {
    if IsLeap(y) then 366 else 365
  }

  /** Number of the first day of a year, counted from 1970-01-01. */
  function DayFromYear(y: int): int {
    365 * (y - 1970) + (y - 1969) / 4 - (y - 1901) / 100 + (y - 1601) / 400
  }

  /** Days of the year before the first of the month; month 13 is the start of the next year. */
  function DaysBefore(y: int, month: int): int
    requires 1 <= month <= 13
  {
    var leap := if IsLeap(y) && month > 2 then 1 else 0;
    [0, 31, 59, 90, 120, 151, 181, 212, 243, 273, 304, 334, 365][month - 1] + leap
  }

  /** Two-digit years are read as 19xx. */
  function FullYear(y: int): int {
    if 0 <= y <= 99 then 1900 + y else y
  }

  /** Days from 1970-01-01, for any day count within the month. */
  function DayNumber(y: int, month: int, day: int): int
    requires 1 <= month <= 12
  {
    DayFromYear(y) + DaysBefore(y, month) + day - 1
  }

  function UtcDay(y: int, month: int, day: int): int
    requires 1 <= month <= 12
  {
    DayNumber(FullYear(y), month, day)
  }

  /** Milliseconds of a date and time of day, all fields in range except the day. */
  function UtcMs(y: int, month: int, day: int, hour: int, minute: int, second: int): int
    requires 1 <= month <= 12
  {
    UtcDay(y, month, day) * DAY_MS + ((hour * 60 + minute) * 60 + second) * 1000
  }

  lemma FourthYears(y: int)
    ensures (y - 1968) / 4 == (y - 1969) / 4 + if y % 4 == 0 then 1 else 0
  {
    var q, r := (y - 1969) / 4, (y - 1969) % 4;
    assert y - 1968 == 4 * q + (r + 1) && y == 4 * (q + 492) + (r + 1);
  }

  lemma Centuries(y: int)
    ensures (y - 1900) / 100 == (y - 1901) / 100 + if y % 100 == 0 then 1 else 0
  {
    var q, r := (y - 1901) / 100, (y - 1901) % 100;
    assert y - 1900 == 100 * q + (r + 1) && y == 100 * (q + 19) + (r + 1);
  }

  lemma FourCenturies(y: int)
    ensures (y - 1600) / 400 == (y - 1601) / 400 + if y % 400 == 0 then 1 else 0
  {
    var q, r := (y - 1601) / 400, (y - 1601) % 400;
    assert y - 1600 == 400 * q + (r + 1) && y == 400 * (q + 4) + (r + 1);
  }

  lemma CenturiesAmong(y: int)
    ensures y % 400 == 0 ==> y % 100 == 0
  {
    assert y == 100 * (4 * (y / 400)) + y % 400;
  }

  lemma FourthsAmong(y: int)
    ensures y % 100 == 0 ==> y % 4 == 0
  {
    assert y == 4 * (25 * (y / 100)) + y % 100;
  }

  lemma YearLength(y: int)
    ensures DayFromYear(y + 1) == DayFromYear(y) + DaysInYear(y)
  {
    FourthYears(y);
    Centuries(y);
    FourCenturies(y);
    CenturiesAmong(y);
    FourthsAmong(y);
    assert y + 1 - 1969 == y - 1968 && y + 1 - 1901 == y - 1900 && y + 1 - 1601 == y - 1600;
  }

  /** The year a day lies in, looked for from `from` on. */
  function YearFromDay(day: int, from: int): (y: int)
    requires DayFromYear(from) <= day
    ensures from <= y && DayFromYear(y) <= day < DayFromYear(y + 1)
    decreases day - DayFromYear(from)
  {
    YearLength(from);
    if day < DayFromYear(from + 1) then from else YearFromDay(day, from + 1)
  }

  /** The month a day of a year lies in, looked for from `month` on. */
  function MonthFromDay(y: int, n: int, month: int): (m: int)
    requires 1 <= month <= 12 && DaysBefore(y, month) <= n < DaysInYear(y)
    ensures 1 <= m <= 12 && DaysBefore(y, m) <= n < DaysBefore(y, m + 1)
    decreases 12 - month
  {
    if month == 12 || n < DaysBefore(y, month + 1) then month else MonthFromDay(y, n, month + 1)
  }

  /** The date fields of the day `n` of a year, counted from 0. */
  function CivilIn(y: int, n: int): (int, int, int)
    requires 0 <= n < DaysInYear(y)
  {
    var m := MonthFromDay(y, n, 1);
    (y, m, n - DaysBefore(y, m) + 1)
  }

  /** The date fields of a day: year, month from 1, day of the month. */
  function CivilOf(day: int): (int, int, int)
    requires DayFromYear(0) <= day
  {
    var y := YearFromDay(day, 0);
    YearLength(y);
    CivilIn(y, day - DayFromYear(y))
  }

  // ---------------------------------------------------------------- the calendar itself

  function DaysInMonth(y: int, month: int): int {
    if month == 2 then (if IsLeap(y) then 29 else 28)
    else if month in {4, 6, 9, 11} then 30
    else 31
  }

  predicate IsRealDate(y: int, month: int, day: int) {
    1 <= month <= 12 && 1 <= day <= DaysInMonth(y, month)
  }

  lemma MonthLength(y: int, month: int)
    requires 1 <= month <= 12
    ensures DaysBefore(y, month + 1) == DaysBefore(y, month) + DaysInMonth(y, month)
    ensures DaysBefore(y, 13) == DaysInYear(y)
  {
  }

  lemma {:induction false} YearsGrow(x: int, y: int)
    requires x < y
    ensures DayFromYear(x) + DaysInYear(x) <= DayFromYear(y)
    decreases y - x
  {
    YearLength(x);
    if x + 1 < y {
      YearsGrow(x + 1, y);
    }
  }

  lemma {:induction false} MonthsGrow(y: int, a: int, b: int)
    requires 1 <= a < b <= 13
    ensures DaysBefore(y, a) + DaysInMonth(y, a) <= DaysBefore(y, b)
    decreases b - a
  {
    MonthLength(y, a);
    if a + 1 < b {
      MonthsGrow(y, a + 1, b);
    }
  }

  lemma DayInYear(y: int, month: int, day: int)
    requires 1 <= month <= 12 && 1 <= day <= 31
    ensures 0 <= DaysBefore(y, month) + day - 1 < DaysInYear(y)
  {
  }

  /** A day belongs to one year only. */
  lemma YearUnique(day: int, x: int, y: int)
    ensures DayFromYear(x) <= day < DayFromYear(x) + DaysInYear(x) && DayFromYear(y) <= day < DayFromYear(y) + DaysInYear(y)
      ==> x == y
  {
    if x < y {
      YearsGrow(x, y);
    } else if y < x {
      YearsGrow(y, x);
    }
  }

  lemma YearOfDay(y: int, n: int)
    requires 0 <= y && 0 <= n < DaysInYear(y)
    ensures DayFromYear(0) <= DayFromYear(y) + n
    ensures YearFromDay(DayFromYear(y) + n, 0) == y
  {
    if y > 0 {
      YearsGrow(0, y);
    }
    var found := YearFromDay(DayFromYear(y) + n, 0);
    YearLength(found);
    YearUnique(DayFromYear(y) + n, found, y);
  }

  /** Within its year every real date is the date of its day. */
  lemma CivilInDate(y: int, month: int, day: int)
    requires IsRealDate(y, month, day)
    ensures 0 <= DaysBefore(y, month) + day - 1 < DaysInYear(y)
    ensures CivilIn(y, DaysBefore(y, month) + day - 1) == (y, month, day)
  {
    MonthLength(y, month);
    if month < 12 {
      MonthsGrow(y, month, 13);
    }
    var m := MonthFromDay(y, DaysBefore(y, month) + day - 1, 1);
    MonthLength(y, m);
    if m < month {
      MonthsGrow(y, m, month);
    } else if month < m {
      MonthsGrow(y, month, m);
    }
  }

  lemma CivilInReal(y: int, n: int)
    requires 0 <= n < DaysInYear(y)
    ensures var (found, month, day) := CivilIn(y, n);
      found == y && IsRealDate(y, month, day) && DaysBefore(y, month) + day - 1 == n
  {
    MonthLength(y, MonthFromDay(y, n, 1));
  }

  lemma CivilFrom(d: int, y: int, n: int)
    requires 0 <= y && 0 <= n < DaysInYear(y) && d == DayFromYear(y) + n
    ensures DayFromYear(0) <= d && CivilOf(d) == CivilIn(y, n)
  {
    YearOfDay(y, n);
    assert d - DayFromYear(y) == n;
  }

  /** Every real date is the date of its day. */
  lemma CivilOfDay(d: int, y: int, month: int, day: int)
    requires 0 <= y && IsRealDate(y, month, day) && d == DayNumber(y, month, day)
    ensures DayFromYear(0) <= d && CivilOf(d) == (y, month, day)
  {
    CivilInDate(y, month, day);
    CivilFrom(d, y, DaysBefore(y, month) + day - 1);
  }

  /** And every day has a real date. */
  lemma CivilIsReal(day: int)
    requires DayFromYear(0) <= day
    ensures var (y, month, d) := CivilOf(day); IsRealDate(y, month, d) && DayNumber(y, month, d) == day
  {
    var y := YearFromDay(day, 0);
    YearLength(y);
    var n := day - DayFromYear(y);
    CivilInReal(y, n);
    var (found, month, d) := CivilIn(y, n);
    assert CivilOf(day) == (found, month, d);
    assert DayNumber(y, month, d) == DayFromYear(y) + (DaysBefore(y, month) + d - 1);
  }

  lemma DayNotTooEarly(y: nat, month: int, day: int)
    requires 1 <= month <= 12 && 1 <= day <= 31
    ensures UtcDay(y, month, day) >= DayFromYear(0)
    ensures CivilOf(UtcDay(y, month, day)).0 == FullYear(y)
  {
    var full := FullYear(y);
    DayInYear(full, month, day);
    CivilFrom(UtcDay(y, month, day), full, DaysBefore(full, month) + day - 1);
  }

  /** Normalising gives the fields back exactly for real dates of the years from 100 on. */
  lemma NormalisedExactlyWhen(y: nat, month: int, day: int)
    requires 1 <= month <= 12 && 1 <= day <= 31
    ensures UtcDay(y, month, day) >= DayFromYear(0)
    ensures CivilOf(UtcDay(y, month, day)) == (y, month, day) <==> IsRealDate(y, month, day) && y >= 100
  {
    DayNotTooEarly(y, month, day);
    if IsRealDate(y, month, day) && y >= 100 {
      CivilOfDay(UtcDay(y, month, day), y, month, day);
    } else {
      CivilIsReal(UtcDay(y, month, day));
    }
  }

  // ---------------------------------------------------------------- reading text

  predicate IsSpace(c: char) {
    var u := c as int;
    || 0x9 <= u <= 0xD || u == 0x20 || u == 0xA0 || u == 0x1680 || 0x2000 <= u <= 0x200A
    || u == 0x2028 || u == 0x2029 || u == 0x202F || u == 0x205F || u == 0x3000 || u == 0xFEFF
  }

  function TrimStart(s: string): string {
    if s != [] && IsSpace(s[0]) then TrimStart(s[1..]) else s
  }

  function TrimEnd(s: string): string {
    if s != [] && IsSpace(s[|s| - 1]) then TrimEnd(s[..|s| - 1]) else s
  }

  function Trim(s: string): string {
    TrimEnd(TrimStart(s))
  }

  predicate IsDigit(c: char) {
    '0' <= c <= '9'
  }

  predicate AllDigits(s: string) {
    forall i | 0 <= i < |s| :: IsDigit(s[i])
  }

  function Number(s: string): nat
    requires AllDigits(s)
  {
    if s == [] then 0 else Number(s[..|s| - 1]) * 10 + (s[|s| - 1] - '0') as nat
  }

  datatype UsDate = UsDate(year: nat, month: nat, day: nat)

  datatype TimeOfDay = TimeOfDay(hour: nat, minute: nat)

  /** `s` is `a` digits, a slash, `b` digits, a slash, four digits. */
  predicate DateShape(s: string, a: nat, b: nat) {
    && |s| == a + b + 6
    && AllDigits(s[..a]) && s[a] == '/' && AllDigits(s[a + 1..a + 1 + b]) && s[a + 1 + b] == '/' && AllDigits(s[a + b + 2..])
  }

  function ReadShape(s: string, a: nat, b: nat): UsDate
    requires DateShape(s, a, b)
  {
    UsDate(Number(s[a + b + 2..]), Number(s[..a]), Number(s[a + 1..a + 1 + b]))
  }

  function MatchDate(s: string): Option<UsDate> {
    if DateShape(s, 1, 1) then Some(ReadShape(s, 1, 1))
    else if DateShape(s, 1, 2) then Some(ReadShape(s, 1, 2))
    else if DateShape(s, 2, 1) then Some(ReadShape(s, 2, 1))
    else if DateShape(s, 2, 2) then Some(ReadShape(s, 2, 2))
    else None
  }

  function ParseUsDate(value: string): Option<UsDate> {
    match MatchDate(Trim(value))
    case None => None
    case Some(d) =>
      if d.month < 1 || d.month > 12 || d.day < 1 || d.day > 31 then None
      else
        DayNotTooEarly(d.year, d.month, d.day);
        if CivilOf(UtcDay(d.year, d.month, d.day)) != (d.year, d.month, d.day) then None
        else Some(d)
  }

  // ---------------------------------------------------------------- what the date reader accepts

  predicate AllSpace(s: string) {
    forall i | 0 <= i < |s| :: IsSpace(s[i])
  }

  predicate Bare(s: string) {
    s != [] && !IsSpace(s[0]) && !IsSpace(s[|s| - 1])
  }

  lemma {:induction false} TrimEndPadded(s: string, pad: string)
    requires Bare(s) && AllSpace(pad)
    ensures TrimEnd(s + pad) == s
    decreases |pad|
  {
    if pad == [] {
      assert s + pad == s;
    } else {
      assert (s + pad)[..|s + pad| - 1] == s + pad[..|pad| - 1];
      TrimEndPadded(s, pad[..|pad| - 1]);
    }
  }

  lemma {:induction false} TrimPadded(before: string, s: string, pad: string)
    requires AllSpace(before) && Bare(s) && AllSpace(pad)
    ensures Trim(before + s + pad) == s
    decreases |before|
  {
    if before == [] {
      assert before + s + pad == s + pad;
      assert TrimStart(s + pad) == s + pad;
      TrimEndPadded(s, pad);
    } else {
      assert (before + s + pad)[1..] == before[1..] + s + pad;
      TrimPadded(before[1..], s, pad);
    }
  }

  predicate Digits(s: string, least: nat, most: nat) {
    least <= |s| <= most && AllDigits(s)
  }

  function Slashed(month: string, day: string, year: string): string {
    month + "/" + day + "/" + year
  }

  predicate IsUsDate(month: string, day: string, year: string) {
    Digits(month, 1, 2) && Digits(day, 1, 2) && Digits(year, 4, 4)
  }

  lemma SlashedShape(month: string, day: string, year: string)
    requires IsUsDate(month, day, year)
    ensures DateShape(Slashed(month, day, year), |month|, |day|)
    ensures ReadShape(Slashed(month, day, year), |month|, |day|) == UsDate(Number(year), Number(month), Number(day))
  {
    var s, a, b := Slashed(month, day, year), |month|, |day|;
    assert s[..a] == month && s[a + 1..a + 1 + b] == day && s[a + b + 2..] == year;
  }

  lemma ShapeIsSlashed(s: string, a: nat, b: nat)
    requires DateShape(s, a, b)
    ensures s == Slashed(s[..a], s[a + 1..a + 1 + b], s[a + b + 2..])
  {
  }

  lemma PrefixDigits(s: string, n: nat)
    requires n <= |s| && AllDigits(s[..n])
    ensures forall i | 0 <= i < n :: IsDigit(s[i])
  {
    assert forall i | 0 <= i < n :: s[..n][i] == s[i];
  }

  /** A slash is not a digit, so a text has one shape only. */
  lemma ShapeUnique(s: string, a: nat, b: nat, c: nat, d: nat)
    requires DateShape(s, a, b) && DateShape(s, c, d)
    ensures a == c && b == d
  {
    PrefixDigits(s, a);
    PrefixDigits(s, c);
  }

  lemma MatchDateReads(month: string, day: string, year: string)
    requires IsUsDate(month, day, year)
    ensures MatchDate(Slashed(month, day, year)) == Some(UsDate(Number(year), Number(month), Number(day)))
  {
    var s := Slashed(month, day, year);
    SlashedShape(month, day, year);
    forall c: nat, d: nat | DateShape(s, c, d) ensures c == |month| && d == |day| {
      ShapeUnique(s, |month|, |day|, c, d);
    }
  }

  lemma ParsedIsReal(value: string)
    ensures ParseUsDate(value).Some? ==>
      var d := ParseUsDate(value).value; IsRealDate(d.year, d.month, d.day) && d.year >= 100
  {
    if ParseUsDate(value).Some? {
      var d := ParseUsDate(value).value;
      NormalisedExactlyWhen(d.year, d.month, d.day);
    }
  }

  /**
   Text is accepted as a date exactly when it is, but for surrounding white space, one or two digits, a slash, one
   or two digits, a slash and four digits that spell a real Gregorian date from the year 100 on; and it is read as
   that date.
   */
  lemma DateAcceptedExactlyWhen(value: string, d: UsDate)
    ensures ParseUsDate(value) == Some(d) <==>
      && (exists month, day, year :: IsUsDate(month, day, year) && Trim(value) == Slashed(month, day, year)
            && d == UsDate(Number(year), Number(month), Number(day)))
      && IsRealDate(d.year, d.month, d.day)
      && d.year >= 100
  {
    var s := Trim(value);
    if ParseUsDate(value) == Some(d) {
      ParsedIsReal(value);
      var a, b := ShapeOfMatch(s);
      ShapeIsSlashed(s, a, b);
      assert IsUsDate(s[..a], s[a + 1..a + 1 + b], s[a + b + 2..]);
    }
    if month, day, year :| IsUsDate(month, day, year) && s == Slashed(month, day, year)
                           && d == UsDate(Number(year), Number(month), Number(day)) {
      MatchDateReads(month, day, year);
      if IsRealDate(d.year, d.month, d.day) && d.year >= 100 {
        NormalisedExactlyWhen(d.year, d.month, d.day);
      }
    }
  }

  lemma ShapeOfMatch(s: string) returns (a: nat, b: nat)
    requires MatchDate(s).Some?
    ensures 1 <= a <= 2 && 1 <= b <= 2 && DateShape(s, a, b) && MatchDate(s).value == ReadShape(s, a, b)
  {
    a, b := if DateShape(s, 1, 1) || DateShape(s, 1, 2) then 1 else 2,
            if DateShape(s, 1, 1) || (!DateShape(s, 1, 2) && DateShape(s, 2, 1)) then 1 else 2;
  }

  // ---------------------------------------------------------------- reading hours

  function ToLower(s: string): string {
    seq(|s|, i requires 0 <= i < |s| => if 'A' <= s[i] <= 'Z' then s[i] - 'A' + 'a' else s[i])
  }

  /** `s` is `a` digits, a colon, two digits, white space if any, and am or pm. */
  predicate TimeShape(s: string, a: nat) {
    && |s| >= a + 5
    && AllDigits(s[..a]) && s[a] == ':' && AllDigits(s[a + 1..a + 3])
    && AllSpace(s[a + 3..|s| - 2])
    && s[|s| - 2] in "ap" && s[|s| - 1] == 'm'
  }

  /** From the twelve-hour clock. */
  function To24(hour: nat, pm: bool): nat {
    if !pm then (if hour == 12 then 0 else hour) else if hour != 12 then hour + 12 else hour
  }

  function ParsePickupHours(value: string): Option<TimeOfDay> {
    var s := ToLower(Trim(value));
    if !TimeShape(s, 1) && !TimeShape(s, 2) then None
    else
      var a := if TimeShape(s, 1) then 1 else 2;
      var hour, minute := Number(s[..a]), Number(s[a + 1..a + 3]);
      if hour < 1 || hour > 12 || minute > 59 then None
      else Some(TimeOfDay(To24(hour, s[|s| - 2] == 'p'), minute))
  }

  /** `s` spells this time of the twelve-hour clock. */
  ghost predicate Spells(s: string, hour: nat, minute: nat, pm: bool) {
    exists a :: 1 <= a <= 2 && TimeShape(s, a) && hour == Number(s[..a]) && minute == Number(s[a + 1..a + 3]) && (pm <==> s[|s| - 2] == 'p')
  }

  lemma TimeShapeUnique(s: string, a: nat, b: nat)
    requires TimeShape(s, a) && TimeShape(s, b)
    ensures a == b
  {
    PrefixDigits(s, a);
    PrefixDigits(s, b);
  }

  function To12(hour: nat): nat {
    if hour % 12 == 0 then 12 else hour % 12
  }

  /** Each of the 24 hours has one name on the twelve-hour clock. */
  lemma ClockNames(hour: nat, pm: bool, h: nat)
    requires 1 <= hour <= 12
    ensures To24(hour, pm) == h <==> h <= 23 && hour == To12(h) && (pm <==> h >= 12)
  {
  }

  lemma HoursRead(value: string, hour: nat, minute: nat, pm: bool)
    requires Spells(ToLower(Trim(value)), hour, minute, pm)
    ensures ParsePickupHours(value)
      == if 1 <= hour <= 12 && minute <= 59 then Some(TimeOfDay(To24(hour, pm), minute)) else None
  {
    var s := ToLower(Trim(value));
    var a :| 1 <= a <= 2 && TimeShape(s, a) && hour == Number(s[..a]) && minute == Number(s[a + 1..a + 3]) && (pm <==> s[|s| - 2] == 'p');
    if TimeShape(s, 1) {
      TimeShapeUnique(s, a, 1);
    }
  }

  lemma HoursSpelled(value: string) returns (hour: nat, minute: nat, pm: bool)
    requires ParsePickupHours(value).Some?
    ensures Spells(ToLower(Trim(value)), hour, minute, pm)
  {
    var s := ToLower(Trim(value));
    var a := if TimeShape(s, 1) then 1 else 2;
    hour, minute, pm := Number(s[..a]), Number(s[a + 1..a + 3]), s[|s| - 2] == 'p';
  }

  /**
   Hours are accepted as a time of day exactly when they spell the one name that time has on the twelve-hour clock.
   */
  lemma HoursAcceptedExactlyWhen(value: string, t: TimeOfDay)
    ensures ParsePickupHours(value) == Some(t) <==>
      t.hour <= 23 && t.minute <= 59 && Spells(ToLower(Trim(value)), To12(t.hour), t.minute, t.hour >= 12)
  {
    if ParsePickupHours(value) == Some(t) {
      var hour, minute, pm := HoursSpelled(value);
      HoursRead(value, hour, minute, pm);
      ClockNames(hour, pm, t.hour);
    }
    if t.hour <= 23 && t.minute <= 59 && Spells(ToLower(Trim(value)), To12(t.hour), t.minute, t.hour >= 12) {
      HoursRead(value, To12(t.hour), t.minute, t.hour >= 12);
      ClockNames(To12(t.hour), t.hour >= 12, t.hour);
    }
  }

  // ---------------------------------------------------------------- deadlines

  datatype Fields = Fields(pickupEarliest: Option<string>, pickupLatest: Option<string>, pickupHours: Option<string>)

  function Trimmed(field: Option<string>): string {
    match field
    case None => ""
    case Some(text) => Trim(text)
  }

  function DateText(f: Fields): string {
    if Trimmed(f.pickupLatest) != "" then Trimmed(f.pickupLatest) else Trimmed(f.pickupEarliest)
  }

  function DeadlineOf(d: UsDate, time: Option<TimeOfDay>): int
    requires 1 <= d.month <= 12
  {
    match time
    case Some(t) => UtcMs(d.year, d.month, d.day, t.hour, t.minute, 0)
    case None => UtcMs(d.year, d.month, d.day, 23, 59, 59)
  }

  /** The end of the pickup window in milliseconds, if the fields can be read. */
  function Deadline(f: Fields): Option<int> {
    match ParseUsDate(DateText(f))
    case None => None
    case Some(d) =>
      if Trimmed(f.pickupHours) != "" then
        match ParsePickupHours(Trimmed(f.pickupHours))
        case None => None
        case Some(t) => Some(DeadlineOf(d, Some(t)))
      else Some(DeadlineOf(d, None))
  }

  predicate IsExpired(f: Fields, now: int) {
    Deadline(f).Some? && Deadline(f).value < now
  }

  datatype Error =
    | EarliestRequired | EarliestInvalid | LatestInvalid | LatestBeforeEarliest | HoursInvalid | Unresolvable | InPast

  /** `latest` is the latest date, if it could be read. */
  function LatestError(earliest: UsDate, latest: Option<UsDate>): Option<Error>
    requires 1 <= earliest.month <= 12
    requires latest.Some? ==> 1 <= latest.value.month <= 12
  {
    match latest
    case None => Some(LatestInvalid)
    case Some(d) =>
      if UtcMs(d.year, d.month, d.day, 0, 0, 0) < UtcMs(earliest.year, earliest.month, earliest.day, 0, 0, 0)
      then Some(LatestBeforeEarliest)
      else None
  }

  /** What the check before create and edit reports, if anything. */
  function NotInPastError(f: Fields, now: int): Option<Error> {
    if Trimmed(f.pickupEarliest) == "" then Some(EarliestRequired)
    else match ParseUsDate(Trimmed(f.pickupEarliest))
      case None => Some(EarliestInvalid)
      case Some(earliest) =>
        var latest := Trimmed(f.pickupLatest);
        match if latest == "" then None else LatestError(earliest, ParseUsDate(latest))
        case Some(e) => Some(e)
        case None =>
          var hours := Trimmed(f.pickupHours);
          if hours != "" && ParsePickupHours(hours).None? then Some(HoursInvalid)
          else match Deadline(f)
            case None => Some(Unresolvable)
            case Some(deadline) => if deadline < now then Some(InPast) else None
  }

  // ---------------------------------------------------------------- order

  predicate DateLess(a: UsDate, b: UsDate) {
    a.year < b.year || (a.year == b.year && (a.month < b.month || (a.month == b.month && a.day < b.day)))
  }

  predicate Readable(d: UsDate) {
    IsRealDate(d.year, d.month, d.day) && d.year >= 100
  }

  lemma DateLessDay(a: UsDate, b: UsDate)
    requires Readable(a) && Readable(b) && DateLess(a, b)
    ensures UtcDay(a.year, a.month, a.day) < UtcDay(b.year, b.month, b.day)
  {
    CivilInDate(a.year, a.month, a.day);
    CivilInDate(b.year, b.month, b.day);
    if a.year < b.year {
      YearsGrow(a.year, b.year);
    } else if a.month < b.month {
      MonthsGrow(a.year, a.month, b.month);
    }
  }

  /** Days are numbered in calendar order. */
  lemma DayOrder(a: UsDate, b: UsDate)
    requires Readable(a) && Readable(b)
    ensures UtcDay(a.year, a.month, a.day) < UtcDay(b.year, b.month, b.day) <==> DateLess(a, b)
  {
    if DateLess(a, b) {
      DateLessDay(a, b);
    } else if DateLess(b, a) {
      DateLessDay(b, a);
    } else {
      assert a == b;
    }
  }

  predicate TimeLess(s: TimeOfDay, t: TimeOfDay) {
    s.hour < t.hour || (s.hour == t.hour && s.minute < t.minute)
  }

  predicate OnClock(t: TimeOfDay) {
    t.hour <= 23 && t.minute <= 59
  }

  /** Deadlines are ordered as their year, month, day, hour and minute are. */
  lemma DeadlineOrder(a: UsDate, s: TimeOfDay, b: UsDate, t: TimeOfDay)
    requires Readable(a) && Readable(b) && OnClock(s) && OnClock(t)
    ensures DeadlineOf(a, Some(s)) < DeadlineOf(b, Some(t)) <==> DateLess(a, b) || (a == b && TimeLess(s, t))
  {
    DayOrder(a, b);
    DayOrder(b, a);
    assert !DateLess(a, b) && !DateLess(b, a) ==> a == b;
    InDay(UtcDay(a.year, a.month, a.day), UtcDay(b.year, b.month, b.day), (s.hour * 60 + s.minute) * 60000, (t.hour * 60 + t.minute) * 60000);
  }

  lemma InDay(x: int, y: int, p: int, q: int)
    requires 0 <= p < DAY_MS && 0 <= q < DAY_MS
    ensures x * DAY_MS + p < y * DAY_MS + q <==> x < y || (x == y && p < q)
  {
  }

  /** Without hours the window closes after every time of its day and before every time of any later day. */
  lemma EndOfDayIsLast(a: UsDate, b: UsDate, t: TimeOfDay)
    requires Readable(a) && Readable(b) && OnClock(t)
    ensures DeadlineOf(a, None) < DeadlineOf(b, Some(t)) <==> DateLess(a, b)
    ensures DeadlineOf(a, None) < DeadlineOf(b, None) <==> DateLess(a, b)
  {
    DayOrder(a, b);
    var x, y := UtcDay(a.year, a.month, a.day), UtcDay(b.year, b.month, b.day);
    InDay(x, y, ((23 * 60 + 59) * 60 + 59) * 1000, (t.hour * 60 + t.minute) * 60000);
    InDay(x, y, ((23 * 60 + 59) * 60 + 59) * 1000, ((23 * 60 + 59) * 60 + 59) * 1000);
  }

  // ---------------------------------------------------------------- what the check guarantees

  /** The fields can be read, and the window does not end before the day it begins. */
  predicate WellFormed(f: Fields) {
    var earliest, latest, hours := Trimmed(f.pickupEarliest), Trimmed(f.pickupLatest), Trimmed(f.pickupHours);
    && ParseUsDate(earliest).Some?
    && (latest != "" ==> ParseUsDate(latest).Some? && !DateLess(ParseUsDate(latest).value, ParseUsDate(earliest).value))
    && (hours != "" ==> ParsePickupHours(hours).Some?)
  }

  lemma LatestOrder(earliest: UsDate, latest: Option<UsDate>)
    requires Readable(earliest) && (latest.Some? ==> Readable(latest.value))
    ensures LatestError(earliest, latest).None? <==> latest.Some? && !DateLess(latest.value, earliest)
  {
    if latest.Some? {
      var d := latest.value;
      DayOrder(d, earliest);
      InDay(UtcDay(d.year, d.month, d.day), UtcDay(earliest.year, earliest.month, earliest.day), 0, 0);
    }
  }

  /** Blank text is no date, so an empty field never parses. */
  lemma EmptyIsNoDate()
    ensures ParseUsDate("").None?
  {
  }

  /**
   Fields pass the check at a moment exactly when they are well formed and not expired at that moment; a window
   that could be read up to its deadline always has one.
   */
  lemma PassesExactlyWhen(f: Fields, now: int)
    ensures NotInPastError(f, now).None? <==> WellFormed(f) && !IsExpired(f, now)
    ensures NotInPastError(f, now) != Some(Unresolvable)
  {
    EmptyIsNoDate();
    var earliest := ParseUsDate(Trimmed(f.pickupEarliest));
    if earliest.Some? {
      ParsedIsReal(Trimmed(f.pickupEarliest));
      ParsedIsReal(Trimmed(f.pickupLatest));
      LatestOrder(earliest.value, ParseUsDate(Trimmed(f.pickupLatest)));
    }
  }

  /**
   A window accepted at one moment is not expired then; from the first moment it is expired it stays so, and it can
   never be accepted again.
   */
  lemma AcceptedThenExpired(f: Fields, accepted: int, expired: int, later: int)
    ensures NotInPastError(f, accepted).None? && IsExpired(f, expired) && expired <= later ==>
      accepted < expired && IsExpired(f, later) && NotInPastError(f, later) == Some(InPast)
  {
    PassesExactlyWhen(f, accepted);
    PassesExactlyWhen(f, later);
  }
}
