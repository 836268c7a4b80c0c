/** What the three text fields of a pickup window mean: which date and time end it, and what each refusal says of them. */
module PickupWindow {
  import opened Options
  import opened PickupCalendar

  // ---------------------------------------------------------------- the calendar, day by day

  /** The day after a date. */
  function NextDate(y: int, month: int, day: int): (int, int, int) {
    if day < DaysInMonth(y, month) then (y, month, day + 1)
    else if month < 12 then (y, month + 1, 1)
    else (y + 1, 1, 1)
  }

  lemma NextDayNumber(y: int, month: int, day: int)
    requires 0 <= y && IsRealDate(y, month, day)
    ensures var (z, other, d) := NextDate(y, month, day);
      0 <= z && IsRealDate(z, other, d) && DayNumber(z, other, d) == DayNumber(y, month, day) + 1
  {
    if day == DaysInMonth(y, month) {
      MonthLength(y, month);
      YearLength(y);
    }
  }

  /** Day 0 of the clock is 1970-01-01. */
  lemma FirstDay(day: int, y: int)
    requires day == 0 && y == 1970
    ensures DayFromYear(0) <= day && CivilOf(day) == (y, 1, 1)
  {
    assert DayNumber(y, 1, 1) == 0;
    CivilOfDay(day, y, 1, 1);
  }

  /** And each day is followed by the next date of the calendar. */
  lemma NextDay(day: int)
    requires DayFromYear(0) <= day
    ensures var (y, month, d) := CivilOf(day); CivilOf(day + 1) == NextDate(y, month, d)
  {
    CivilIsReal(day);
    var (y, month, d) := CivilOf(day);
    YearNotNegative(day);
    NextDayNumber(y, month, d);
    var (z, other, e) := NextDate(y, month, d);
    CivilOfDay(day + 1, z, other, e);
  }

  lemma YearNotNegative(day: int)
    requires DayFromYear(0) <= day
    ensures CivilOf(day).0 >= 0
  {
  }

  // ---------------------------------------------------------------- blank and surrounding white space

  lemma {:induction false} TrimStartMeans(s: string)
    ensures TrimStart(s) == "" <==> AllSpace(s)
    ensures TrimStart(s) != "" ==> !IsSpace(TrimStart(s)[0])
  {
    if s != [] && IsSpace(s[0]) {
      TrimStartMeans(s[1..]);
      assert AllSpace(s[1..]) ==> forall i | 0 < i < |s| :: s[i] == s[1..][i - 1];
    }
  }

  lemma {:induction false} TrimEndMeans(s: string)
    ensures TrimEnd(s) == "" <==> AllSpace(s)
    ensures TrimEnd(s) <= s
    ensures TrimEnd(s) != "" ==> !IsSpace(TrimEnd(s)[|TrimEnd(s)| - 1])
  {
    if s != [] && IsSpace(s[|s| - 1]) {
      TrimEndMeans(s[..|s| - 1]);
      assert AllSpace(s[..|s| - 1]) ==> forall i | 0 <= i < |s| - 1 :: s[i] == s[..|s| - 1][i];
    }
  }

  /** Nothing is left of blank text, and what is left of other text stays as it is when trimmed again. */
  lemma TrimMeans(s: string)
    ensures Trim(s) == "" <==> AllSpace(s)
    ensures Trim(Trim(s)) == Trim(s)
  {
    var t := TrimStart(s);
    TrimStartMeans(s);
    TrimEndMeans(t);
    if t != "" {
      assert !AllSpace(t);
      assert Bare(Trim(s));
      assert TrimStart(Trim(s)) == Trim(s) && TrimEnd(Trim(s)) == Trim(s);
    }
  }

  /** A field that is missing, empty or white space. */
  predicate Blank(field: Option<string>) {
    field.None? || AllSpace(field.value)
  }

  function ReadDate(field: Option<string>): Option<UsDate> {
    if field.None? then None else ParseUsDate(field.value)
  }

  function ReadHours(field: Option<string>): Option<TimeOfDay> {
    if field.None? then None else ParsePickupHours(field.value)
  }

  lemma FieldMeans(field: Option<string>)
    ensures Trimmed(field) == "" <==> Blank(field)
    ensures ParseUsDate(Trimmed(field)) == ReadDate(field)
    ensures !Blank(field) ==> ParsePickupHours(Trimmed(field)) == ReadHours(field)
    ensures Blank(field) ==> ReadDate(field).None?
  {
    EmptyIsNoDate();
    if field.Some? {
      TrimMeans(field.value);
    }
  }

  // ---------------------------------------------------------------- when a window has closed

  predicate Earlier(d: UsDate, date: (int, int, int)) {
    d.year < date.0 || (d.year == date.0 && (d.month < date.1 || (d.month == date.1 && d.day < date.2)))
  }

  /** `now`, read as a date and a time of that day, comes after the millisecond `end` of the date `d`. */
  predicate IsAfter(now: int, d: UsDate, end: int) {
    && DayFromYear(0) <= now / 86_400_000
    && var today := CivilOf(now / 86_400_000);
    || Earlier(d, today)
    || ((d.year, d.month, d.day) == today && end < now % 86_400_000)
  }

  lemma AfterExactlyWhen(now: int, d: UsDate, end: int)
    requires Readable(d) && 0 <= end < 86_400_000
    ensures UtcDay(d.year, d.month, d.day) * 86_400_000 + end < now <==> IsAfter(now, d, end)
  {
    var day, today := UtcDay(d.year, d.month, d.day), now / 86_400_000;
    assert now == today * 86_400_000 + now % 86_400_000;
    InDay(day, today, end, now % 86_400_000);
    DayNotTooEarly(d.year, d.month, d.day);
    if DayFromYear(0) <= today {
      TodayOrder(d, today);
    }
  }

  /** Days from the year 0 on are in the order of their dates. */
  lemma TodayOrder(d: UsDate, today: int)
    requires Readable(d) && DayFromYear(0) <= today
    ensures UtcDay(d.year, d.month, d.day) < today <==> Earlier(d, CivilOf(today))
    ensures UtcDay(d.year, d.month, d.day) == today <==> (d.year, d.month, d.day) == CivilOf(today)
  {
    var (y, month, day) := CivilOf(today);
    CivilIsReal(today);
    YearNotNegative(today);
    CivilOfDay(UtcDay(d.year, d.month, d.day), d.year, d.month, d.day);
    DatesOrdered(d.year, d.month, d.day, y, month, day);
    DatesOrdered(y, month, day, d.year, d.month, d.day);
  }

  lemma DatesOrdered(y: int, month: int, day: int, z: int, other: int, date: int)
    requires IsRealDate(y, month, day) && IsRealDate(z, other, date)
    ensures y < z || (y == z && (month < other || (month == other && day < date)))
      ==> DayNumber(y, month, day) < DayNumber(z, other, date)
  {
    CivilInDate(y, month, day);
    CivilInDate(z, other, date);
    if y < z {
      YearsGrow(y, z);
    } else if y == z && month < other {
      MonthsGrow(y, month, other);
    }
  }

  /** Milliseconds into its day at which a window closes: the hours if the field is not blank, else 23:59:59. */
  predicate ClosesAt(hours: Option<string>, end: int) {
    if Blank(hours) then end == ((23 * 60 + 59) * 60 + 59) * 1000
    else ReadHours(hours).Some? && end == (ReadHours(hours).value.hour * 60 + ReadHours(hours).value.minute) * 60_000
  }

  /**
   A window has closed exactly when the moment comes after its closing time on its last date: the latest date, or
   the earliest if the latest is blank. A window whose last date or hours cannot be read never closes.
   */
  lemma ExpiredExactlyWhen(f: Fields, now: int)
    ensures IsExpired(f, now) <==>
      var last := ReadDate(if Blank(f.pickupLatest) then f.pickupEarliest else f.pickupLatest);
      last.Some? && exists end :: ClosesAt(f.pickupHours, end) && IsAfter(now, last.value, end)
  {
    var field := if Blank(f.pickupLatest) then f.pickupEarliest else f.pickupLatest;
    DeadlineMeans(f, field);
    if ReadDate(field).Some? {
      ParsedIsReal(field.value);
      var d := ReadDate(field).value;
      if Blank(f.pickupHours) {
        DeadlineInDay(d, TimeOfDay(0, 0));
        ClosingTime(f, now, d, ((23 * 60 + 59) * 60 + 59) * 1000);
      } else if ReadHours(f.pickupHours).Some? {
        var t := ReadHours(f.pickupHours).value;
        HoursAcceptedExactlyWhen(f.pickupHours.value, t);
        DeadlineInDay(d, t);
        ClosingTime(f, now, d, (t.hour * 60 + t.minute) * 60_000);
      }
    }
  }

  /** The deadline in terms of the fields; `field` is the one that holds the last date. */
  lemma DeadlineMeans(f: Fields, field: Option<string>)
    requires field == if Blank(f.pickupLatest) then f.pickupEarliest else f.pickupLatest
    ensures ReadDate(field).None? || (!Blank(f.pickupHours) && ReadHours(f.pickupHours).None?) ==> Deadline(f).None?
    ensures ReadDate(field).Some? ==>
      && 1 <= ReadDate(field).value.month <= 12
      && (Blank(f.pickupHours) ==> Deadline(f) == Some(DeadlineOf(ReadDate(field).value, None)))
      && (!Blank(f.pickupHours) && ReadHours(f.pickupHours).Some? ==>
            Deadline(f) == Some(DeadlineOf(ReadDate(field).value, ReadHours(f.pickupHours))))
  {
    FieldMeans(f.pickupEarliest);
    FieldMeans(f.pickupLatest);
    FieldMeans(f.pickupHours);
  }

  lemma DeadlineInDay(d: UsDate, t: TimeOfDay)
    requires 1 <= d.month <= 12
    ensures DeadlineOf(d, None) == UtcDay(d.year, d.month, d.day) * 86_400_000 + ((23 * 60 + 59) * 60 + 59) * 1000
    ensures DeadlineOf(d, Some(t)) == UtcDay(d.year, d.month, d.day) * 86_400_000 + (t.hour * 60 + t.minute) * 60_000
  {
  }

  lemma ClosingTime(f: Fields, now: int, d: UsDate, end: int)
    requires Readable(d) && 0 <= end < 86_400_000 && ClosesAt(f.pickupHours, end)
    ensures UtcDay(d.year, d.month, d.day) * 86_400_000 + end < now
      <==> exists e :: ClosesAt(f.pickupHours, e) && IsAfter(now, d, e)
  {
    AfterExactlyWhen(now, d, end);
    assert forall e :: ClosesAt(f.pickupHours, e) ==> e == end;
  }

  // ---------------------------------------------------------------- what each refusal says

  /** The dates are in order as far as there are two. */
  predicate DatesInOrder(f: Fields) {
    && ReadDate(f.pickupEarliest).Some?
    && (Blank(f.pickupLatest)
        || (ReadDate(f.pickupLatest).Some? && !DateLess(ReadDate(f.pickupLatest).value, ReadDate(f.pickupEarliest).value)))
  }

  predicate HoursReadable(f: Fields) {
    Blank(f.pickupHours) || ReadHours(f.pickupHours).Some?
  }

  /** Each refusal has its exact condition in the three texts and the moment. */
  lemma RefusedExactlyWhen(f: Fields, now: int)
    ensures var reply := NotInPastError(f, now); var earliest, latest := ReadDate(f.pickupEarliest), ReadDate(f.pickupLatest);
      && (reply == Some(EarliestRequired) <==> Blank(f.pickupEarliest))
      && (reply == Some(EarliestInvalid) <==> !Blank(f.pickupEarliest) && earliest.None?)
      && (reply == Some(LatestInvalid) <==> earliest.Some? && !Blank(f.pickupLatest) && latest.None?)
      && (reply == Some(LatestBeforeEarliest) <==> earliest.Some? && latest.Some? && DateLess(latest.value, earliest.value))
      && (reply == Some(HoursInvalid) <==> DatesInOrder(f) && !HoursReadable(f))
      && (reply == Some(InPast) <==> DatesInOrder(f) && HoursReadable(f) && IsExpired(f, now))
      && (reply == None <==> DatesInOrder(f) && HoursReadable(f) && !IsExpired(f, now))
  {
    DatesRefused(f, now);
    PassesExactlyWhen(f, now);
    FieldMeans(f.pickupHours);
  }

  /** The refusals of a date, and the other answers once the dates are in order. */
  lemma DatesRefused(f: Fields, now: int)
    ensures var reply := NotInPastError(f, now); var earliest, latest := ReadDate(f.pickupEarliest), ReadDate(f.pickupLatest);
      if Blank(f.pickupEarliest) then reply == Some(EarliestRequired)
      else if earliest.None? then reply == Some(EarliestInvalid)
      else if !Blank(f.pickupLatest) && latest.None? then reply == Some(LatestInvalid)
      else if latest.Some? && DateLess(latest.value, earliest.value) then reply == Some(LatestBeforeEarliest)
      else
        var hours := Trimmed(f.pickupHours);
        if hours != "" && ParsePickupHours(hours).None? then reply == Some(HoursInvalid)
        else reply in {None, Some(Unresolvable), Some(InPast)}
    ensures Blank(f.pickupEarliest) ==> ReadDate(f.pickupEarliest).None?
    ensures Blank(f.pickupLatest) ==> ReadDate(f.pickupLatest).None?
    ensures WellFormed(f) <==> DatesInOrder(f) && (Trimmed(f.pickupHours) != "" ==> ParsePickupHours(Trimmed(f.pickupHours)).Some?)
  {
    FieldMeans(f.pickupEarliest);
    FieldMeans(f.pickupLatest);
    if ReadDate(f.pickupEarliest).Some? {
      ParsedIsReal(f.pickupEarliest.value);
      if ReadDate(f.pickupLatest).Some? {
        ParsedIsReal(f.pickupLatest.value);
      }
      LatestOrder(ReadDate(f.pickupEarliest).value, ReadDate(f.pickupLatest));
    }
  }
}
