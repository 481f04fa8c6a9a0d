/** Calendar dates as `datetime` sees them: validity in the proleptic Gregorian
    calendar, the `YYYY-MM-DD` text form, day ordinals, and the distance to
    the next birthday that `Record.days_to_birthday` computes. */
module Calendar {
  import opened Wrappers
  import opened Text
  import opened Errors

  datatype Date = Date(year: int, month: int, day: int)

  predicate IsLeapYear(y: int)
  {
    y % 4 == 0 && (y % 100 != 0 || y % 400 == 0)
  }

  function DaysInMonth(y: int, m: int): int
    requires 1 <= m <= 12
  {
    if m == 2 then (if IsLeapYear(y) then 29 else 28)
    else if m == 4 || m == 6 || m == 9 || m == 11 then 30
    else 31
  }

  /** A date `datetime` can hold: year 1 to 9999, month 1 to 12, a day that month has. */
  predicate ValidDate(d: Date)
  {
    1 <= d.year <= 9999 && 1 <= d.month <= 12 && 1 <= d.day <= DaysInMonth(d.year, d.month)
  }

  /** `datetime(year, month, day)`: the date, or the `ValueError` it raises. */
  function MakeDate(year: int, month: int, day: int): (r: Result<Date, Error>)
    requires 1 <= year && 1 <= month <= 12
    ensures r.Success? <==> ValidDate(Date(year, month, day))
    ensures r.Success? ==> r.value == Date(year, month, day)
    ensures r.Failure? ==> r.error == (if year > 9999 then YearOutOfRange(year) else DayOutOfRange)
  {
    if year > 9999 then Failure(YearOutOfRange(year))
    else if !(1 <= day <= DaysInMonth(year, month)) then Failure(DayOutOfRange)
    else Success(Date(year, month, day))
  }

  /** `strftime('%Y-%m-%d')`. */
  function DateText(d: Date): string
    requires ValidDate(d)
  {
    Pad(d.year, 4) + "-" + Pad(d.month, 2) + "-" + Pad(d.day, 2)
  }

  /** Reads back the `YYYY-MM-DD` form: four, two and two digits, and a real date. */
  function ParseDate(s: string): Option<Date>
  {
    if |s| == 10 && s[4] == '-' && s[7] == '-'
       && (forall i :: 0 <= i < 4 ==> IsDigit(s[i]))
       && IsDigit(s[5]) && IsDigit(s[6]) && IsDigit(s[8]) && IsDigit(s[9])
    then
      var d := Date(DigitsValue(s[..4]), DigitsValue(s[5..7]), DigitsValue(s[8..]));
      if ValidDate(d) then Some(d) else None
    else None
  }

  /** Where the fields of a date's text sit. */
  lemma DateTextFields(d: Date)
    requires ValidDate(d)
    ensures var s := DateText(d);
            && |s| == 10 && s[4] == '-' && s[7] == '-'
            && s[..4] == Pad(d.year, 4) && s[5..7] == Pad(d.month, 2) && s[8..] == Pad(d.day, 2)
  {
    var y, m, dd := Pad(d.year, 4), Pad(d.month, 2), Pad(d.day, 2);
    var s := DateText(d);
    assert s == y + "-" + m + "-" + dd;
    assert s[..4] == y;
    assert s[5..7] == m;
    assert s[8..] == dd;
  }

  /** The text of a valid date reads back as that date. */
  lemma ParseDateText(d: Date)
    requires ValidDate(d)
    ensures ParseDate(DateText(d)) == Some(d)
  {
    var s := DateText(d);
    DateTextFields(d);
    assert forall i :: 0 <= i < 4 ==> IsDigit(s[i]) by {
      forall i | 0 <= i < 4 ensures IsDigit(s[i]) {
        assert s[i] == s[..4][i];
      }
    }
    assert IsDigit(s[5]) && IsDigit(s[6]) by {
      assert s[5] == s[5..7][0] && s[6] == s[5..7][1];
    }
    assert IsDigit(s[8]) && IsDigit(s[9]) by {
      assert s[8] == s[8..][0] && s[9] == s[8..][1];
    }
    assert Pow10(4) == 10000 && Pow10(2) == 100 by {
      assert Pow10(1) == 10;
      assert Pow10(3) == 1000;
    }
    PadRoundTrip(d.year, 4);
    PadRoundTrip(d.month, 2);
    PadRoundTrip(d.day, 2);
  }

  /** Distinct valid dates have distinct texts. */
  lemma DateTextInjective(d1: Date, d2: Date)
    requires ValidDate(d1) && ValidDate(d2) && DateText(d1) == DateText(d2)
    ensures d1 == d2
  {
    ParseDateText(d1);
    ParseDateText(d2);
  }

  /** Strictly earlier, comparing year, then month, then day. */
  predicate Before(d1: Date, d2: Date)
  {
    d1.year < d2.year
    || (d1.year == d2.year && d1.month < d2.month)
    || (d1.year == d2.year && d1.month == d2.month && d1.day < d2.day)
  }

  /** Days in the years before `y` (day count up to 31 December of year y - 1). */
  function DaysBeforeYear(y: int): int
  {
    var z := y - 1;
    z * 365 + z / 4 - z / 100 + z / 400
  }

  /** Days in the months of year `y` before month `m`. */
  function DaysBeforeMonth(y: int, m: int): int
    requires 1 <= m <= 12
  {
    [0, 31, 59, 90, 120, 151, 181, 212, 243, 273, 304, 334][m - 1]
    + (if m > 2 && IsLeapYear(y) then 1 else 0)
  }

  /** `date.toordinal()`: 1 for 0001-01-01, one more for each following day. */
  function Ordinal(d: Date): int
    requires 1 <= d.month <= 12
  {
    DaysBeforeYear(d.year) + DaysBeforeMonth(d.year, d.month) + d.day
  }

  function YearLength(y: int): int
  {
    if IsLeapYear(y) then 366 else 365
  }

  /** Going from `z` to `z + 1` raises `z / k` by one exactly when `k` divides `z + 1`. */
  lemma DivStep4(z: int)
    ensures (z + 1) / 4 == z / 4 + (if (z + 1) % 4 == 0 then 1 else 0)
  {
  }

  lemma DivStep100(z: int)
    ensures (z + 1) / 100 == z / 100 + (if (z + 1) % 100 == 0 then 1 else 0)
  {
  }

  lemma DivStep400(z: int)
    ensures (z + 1) / 400 == z / 400 + (if (z + 1) % 400 == 0 then 1 else 0)
  {
  }

  lemma YearStep(y: int)
    ensures DaysBeforeYear(y + 1) == DaysBeforeYear(y) + YearLength(y)
  {
    var z := y - 1;
    DivStep4(z);
    DivStep100(z);
    DivStep400(z);
    DivisorChain(y);
    assert DaysBeforeYear(y + 1) == y * 365 + y / 4 - y / 100 + y / 400;
    assert DaysBeforeYear(y) == z * 365 + z / 4 - z / 100 + z / 400;
  }

  /** A multiple of 400 is a multiple of 100, and a multiple of 100 one of 4. */
  lemma DivisorChain(y: int)
    ensures y % 400 == 0 ==> y % 100 == 0
    ensures y % 100 == 0 ==> y % 4 == 0
  {
    if y % 400 == 0 {
      var k := 4 * (y / 400);
      assert y == 100 * k;
    }
    if y % 100 == 0 {
      var k := 25 * (y / 100);
      assert y == 4 * k;
    }
  }

  /** The months before `m` and month `m` itself fit in the months before any later month. */
  lemma MonthsFit(y: int, m1: int, m2: int)
    requires 1 <= m1 <= 12 && 1 <= m2 <= 12
    ensures m1 < m2 ==> DaysBeforeMonth(y, m1) + DaysInMonth(y, m1) <= DaysBeforeMonth(y, m2)
    ensures DaysBeforeMonth(y, m1) + DaysInMonth(y, m1) <= YearLength(y)
  {
  }

  /** An earlier date of the same year has a smaller ordinal, and every valid
      date of year `y` lies within that year's ordinals. */
  lemma OrdinalWithinYear(d1: Date, d2: Date)
    requires ValidDate(d1) && ValidDate(d2) && d1.year == d2.year
    ensures Before(d1, d2) ==> Ordinal(d1) < Ordinal(d2)
    ensures DaysBeforeYear(d1.year) < Ordinal(d1) <= DaysBeforeYear(d1.year) + YearLength(d1.year)
  {
    MonthsFit(d1.year, d1.month, d2.month);
  }

  /** The same month and day one year later is 365 or 366 days further on. */
  lemma OrdinalNextYear(y: int, m: int, d: int)
    requires 1 <= m <= 12
    ensures 365 <= Ordinal(Date(y + 1, m, d)) - Ordinal(Date(y, m, d)) <= 366
  {
    YearStep(y);
  }

  /** `datetime.now()`: a valid date and the time of day in microseconds. */
  datatype Moment = Moment(date: Date, micros: int)

  predicate ValidMoment(now: Moment)
  {
    ValidDate(now.date) && 0 <= now.micros < 86_400_000_000
  }

  /** `now > datetime(y, m, d)`: the moment is past midnight at the start of that date. */
  predicate PastMidnightOf(now: Moment, d: Date)
  {
    Before(d, now.date) || (d == now.date && now.micros > 0)
  }

  /** `(datetime(target) - now).days`: whole days from `now` to midnight of
      `target`, rounded down as `timedelta` does. */
  function DaysUntilMidnight(now: Moment, target: Date): int
    requires 1 <= target.month <= 12 && 1 <= now.date.month <= 12
  {
    Ordinal(target) - Ordinal(now.date) - (if now.micros > 0 then 1 else 0)
  }

  /** Days from `now` to the next birthday with the month and day of `birthday`,
      computed as `Record.days_to_birthday` does: this year's birthday at
      midnight, or next year's once `now` is past it. */
  function DaysToBirthday(birthday: Date, now: Moment): Result<int, Error>
    requires ValidDate(birthday) && ValidMoment(now)
  {
    match MakeDate(now.date.year, birthday.month, birthday.day)
    case Failure(e) => Failure(e)
    case Success(thisYear) =>
      if PastMidnightOf(now, thisYear) then
        match MakeDate(now.date.year + 1, birthday.month, birthday.day)
        case Failure(e) => Failure(e)
        case Success(nextYear) => Success(DaysUntilMidnight(now, nextYear))
      else Success(DaysUntilMidnight(now, thisYear))
  }

  /** Whatever the time of day, the count lies between 0 and 365; it fails
      only for a 29 February birthday in a year without one, or past year 9999. */
  lemma DaysToBirthdayBounds(birthday: Date, now: Moment)
    requires ValidDate(birthday) && ValidMoment(now)
    ensures DaysToBirthday(birthday, now).Success? ==> 0 <= DaysToBirthday(birthday, now).value <= 365
    ensures DaysToBirthday(birthday, now).Failure? ==>
              (birthday.month == 2 && birthday.day == 29) || now.date.year == 9999
  {
    var y := now.date.year;
    var thisYear := Date(y, birthday.month, birthday.day);
    if ValidDate(thisYear) {
      OrdinalWithinYear(thisYear, now.date);
      OrdinalWithinYear(now.date, thisYear);
      if PastMidnightOf(now, thisYear) && ValidDate(Date(y + 1, birthday.month, birthday.day)) {
        OrdinalNextYear(y, birthday.month, birthday.day);
        YearStep(y);
      }
    }
  }

  /** Exhibits the time-of-day slip: on the birthday itself, any time after
      midnight, the count is a whole year instead of 0. */
  lemma DaysToBirthdayOnTheDay(birthday: Date, now: Moment)
    requires ValidDate(birthday) && ValidMoment(now)
    requires now.date.month == birthday.month && now.date.day == birthday.day
    requires now.micros > 0 && now.date.year < 9999 && !(birthday.month == 2 && birthday.day == 29)
    ensures DaysToBirthday(birthday, now) == Success(YearLength(now.date.year + (if birthday.month > 2 then 1 else 0)) - 1)
  {
    var y := now.date.year;
    YearStep(y);
  }

  /** Exhibits the same slip the day before: when the next date carrying the
      birthday's month and day is tomorrow, any time after midnight today
      counts 0 days. */
  lemma DaysToBirthdayDayBefore(birthday: Date, now: Moment, next: Date)
    requires ValidDate(birthday) && ValidMoment(now) && now.micros > 0
    requires ValidDate(next) && next.month == birthday.month && next.day == birthday.day
    requires next.year == now.date.year || next.year == now.date.year + 1
    requires Ordinal(next) == Ordinal(now.date) + 1
    ensures DaysToBirthday(birthday, now) == Success(0)
  {
    var y := now.date.year;
    OrdinalWithinYear(now.date, now.date);
    if next.year == y {
      OrdinalWithinYear(next, now.date);
    } else {
      YearStep(y);
      OrdinalWithinYear(next, next);
      var thisYear := Date(y, next.month, next.day);
      assert next.month == 1 && next.day == 1;
      assert ValidDate(thisYear);
      OrdinalWithinYear(now.date, thisYear);
      assert Before(thisYear, now.date);
    }
  }

  /** The count the function evidently means: whole calendar days from
      `today` to the next birthday, 0 when today is the birthday. */
  function DaysToBirthdayByDate(birthday: Date, today: Date): Result<int, Error>
    requires ValidDate(birthday) && ValidDate(today)
  {
    match MakeDate(today.year, birthday.month, birthday.day)
    case Failure(e) => Failure(e)
    case Success(thisYear) =>
      if Before(thisYear, today) then
        match MakeDate(today.year + 1, birthday.month, birthday.day)
        case Failure(e) => Failure(e)
        case Success(nextYear) => Success(Ordinal(nextYear) - Ordinal(today))
      else Success(Ordinal(thisYear) - Ordinal(today))
  }

  /** The date-only count is 0 exactly on the birthday, otherwise between 1 and
      365, and it counts forward to a date carrying the birthday's month and day. */
  lemma DaysToBirthdayByDateCorrect(birthday: Date, today: Date)
    requires ValidDate(birthday) && ValidDate(today)
    ensures var r := DaysToBirthdayByDate(birthday, today);
            r.Success? ==>
              && 0 <= r.value <= 365
              && (r.value == 0 <==> (today.month == birthday.month && today.day == birthday.day))
              && exists next: Date ::
                   ValidDate(next) && next.month == birthday.month && next.day == birthday.day
                   && !Before(next, today) && Ordinal(next) == Ordinal(today) + r.value
  {
    var y := today.year;
    var thisYear := Date(y, birthday.month, birthday.day);
    if ValidDate(thisYear) {
      OrdinalWithinYear(thisYear, today);
      OrdinalWithinYear(today, thisYear);
      var nextYear := Date(y + 1, birthday.month, birthday.day);
      if Before(thisYear, today) && ValidDate(nextYear) {
        OrdinalNextYear(y, birthday.month, birthday.day);
        YearStep(y);
        assert !Before(nextYear, today);
      } else if !Before(thisYear, today) {
        assert !Before(thisYear, today);
      }
    }
  }
}
