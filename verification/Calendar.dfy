// The date arithmetic of strftime.c against a calendar that counts day by day.
module Calendar {

  datatype Tm = Tm(year: int, yday: int, hour: int, min: int, sec: int)

  const TM_YEAR_BASE := 1900

  // The remainder and quotient of C, which round toward zero.
  function CRem(a: int, b: int): int
    requires b > 0
  {
    if a >= 0 then a % b else -((-a) % b)
  }

  function CDiv(a: int, b: int): int
    requires b > 0
  {
    if a >= 0 then a / b else -((-a) / b)
  }

  // The macro __isleap.
  predicate IsLeap(year: int) {
    CRem(year, 4) == 0 && (CRem(year, 100) != 0 || CRem(year, 400) == 0)
  }

  function YearLength(year: int): int {
    if IsLeap(year) then 366 else 365
  }

  // ---- tm_diff ----

  // The days from 1 January of `from` to 1 January of `to`, year by year.
  function DaysBetween(from: int, to: int): int
    decreases if from <= to then to - from else from - to
  {
    if from == to then 0
    else if from < to then DaysBetween(from, to - 1) + YearLength(to - 1)
    else DaysBetween(from, to + 1) - YearLength(to)
  }

  // a4, a100 and a400 of tm_diff, with its shifts, quotients and remainders. An
  // arithmetic shift right by two is division by four rounding down.
  function Leap4(tmYear: int): int {
    tmYear / 4 + TM_YEAR_BASE / 4 - (if tmYear % 4 == 0 then 1 else 0)
  }

  function Leap100(a4: int): int {
    CDiv(a4, 25) - (if CRem(a4, 25) < 0 then 1 else 0)
  }

  function TmDiff(a: Tm, b: Tm): int {
    var a4, b4 := Leap4(a.year), Leap4(b.year);
    var a100, b100 := Leap100(a4), Leap100(b4);
    var a400, b400 := a100 / 4, b100 / 4;
    var interveningLeapDays := (a4 - b4) - (a100 - b100) + (a400 - b400);
    var years := a.year - b.year;
    var days := 365 * years + interveningLeapDays + (a.yday - b.yday);
    60 * (60 * (24 * days + (a.hour - b.hour)) + (a.min - b.min)) + (a.sec - b.sec)
  }

  function LeapDays(tmYear: int): int {
    var a4 := Leap4(tmYear);
    a4 - Leap100(a4) + Leap100(a4) / 4
  }

  // The corrected quotient rounds down, also for years long before 1900.
  lemma Leap100Floors(a4: int)
    ensures Leap100(a4) == a4 / 25
  {
  }

  lemma IsLeapMeans(year: int)
    ensures IsLeap(year) <==> year % 4 == 0 && (year % 100 != 0 || year % 400 == 0)
  {
    SameZero(year, 4);
    SameZero(year, 100);
    SameZero(year, 400);
    hide CRem;
  }

  // Both remainders are zero for the same numbers.
  lemma SameZero(a: int, b: int)
    requires b == 4 || b == 100 || b == 400
    ensures CRem(a, b) == 0 <==> a % b == 0
  {
  }

  lemma FloorStep(y: int, d: int)
    requires d == 4 || d == 100 || d == 400
    ensures y / d == (y - 1) / d + (if y % d == 0 then 1 else 0)
  {
  }

  lemma FloorTwice(y: int)
    ensures y / 4 / 25 == y / 100 && y / 4 / 25 / 4 == y / 400
  {
  }

  lemma Multiples(y: int)
    ensures y % 400 == 0 ==> y % 100 == 0
    ensures y % 100 == 0 ==> y % 4 == 0
  {
    if y % 400 == 0 { Multiple100(y, 4 * (y / 400)); }
    if y % 100 == 0 { Multiple4(y, 25 * (y / 100)); }
  }

  lemma Multiple100(y: int, q: int)
    requires y == 100 * q
    ensures y % 100 == 0
  {
  }

  lemma Multiple4(y: int, q: int)
    requires y == 4 * q
    ensures y % 4 == 0
  {
  }

  // The leap years among the years 1..y, for y at least 0.
  function Floors(y: int): int {
    y / 4 - y / 100 + y / 400
  }

  lemma FloorsStep(y: int)
    ensures Floors(y) == Floors(y - 1) + (if y % 4 == 0 && (y % 100 != 0 || y % 400 == 0) then 1 else 0)
  {
    FloorStep(y, 4);
    FloorStep(y, 100);
    FloorStep(y, 400);
    Multiples(y);
  }

  // In terms of the full year, up to and including the year before.
  lemma LeapDaysMeans(tmYear: int)
    ensures LeapDays(tmYear) == Floors(tmYear + TM_YEAR_BASE - 1)
  {
    var y := tmYear + TM_YEAR_BASE - 1;
    Leap100Floors(Leap4(tmYear));
    assert Leap4(tmYear) == y / 4;
    FloorTwice(y);
  }

  // The closed form gains one day exactly over a leap year.
  lemma LeapDaysStep(tmYear: int)
    ensures LeapDays(tmYear + 1) == LeapDays(tmYear) + (if IsLeap(tmYear + TM_YEAR_BASE) then 1 else 0)
  {
    hide LeapDays, IsLeap, Floors;
    LeapDaysMeans(tmYear);
    LeapDaysMeans(tmYear + 1);
    IsLeapMeans(tmYear + TM_YEAR_BASE);
    FloorsStep(tmYear + TM_YEAR_BASE);
  }

  lemma {:induction false} DaysBetweenClosed(from: int, to: int)
    ensures DaysBetween(from + TM_YEAR_BASE, to + TM_YEAR_BASE) == 365 * (to - from) + LeapDays(to) - LeapDays(from)
    decreases if from <= to then to - from else from - to
  {
    if from < to {
      DaysBetweenClosed(from, to - 1);
      LeapDaysStep(to - 1);
    } else if from > to {
      DaysBetweenClosed(from, to + 1);
      LeapDaysStep(to);
    }
  }

  // A moment in seconds after the beginning of a fixed year.
  function Seconds(origin: int, t: Tm): int {
    ((DaysBetween(origin, t.year + TM_YEAR_BASE) + t.yday) * 24 + t.hour) * 3600 + t.min * 60 + t.sec
  }

  lemma TmDiffInDays(a: Tm, b: Tm)
    ensures TmDiff(a, b) == ((365 * (a.year - b.year) + LeapDays(a.year) - LeapDays(b.year) + a.yday - b.yday) * 24
                             + a.hour - b.hour) * 3600 + (a.min - b.min) * 60 + (a.sec - b.sec)
  {
    hide Leap4, Leap100;
  }

  // tm_diff is the difference of two moments, for all years and whatever the origin.
  lemma TmDiffRight(a: Tm, b: Tm, origin: int)
    ensures TmDiff(a, b) == Seconds(origin, a) - Seconds(origin, b)
  {
    hide TmDiff, LeapDays, DaysBetween;
    TmDiffInDays(a, b);
    DaysBetweenClosed(origin - TM_YEAR_BASE, a.year);
    DaysBetweenClosed(origin - TM_YEAR_BASE, b.year);
  }

  // ---- ISO week numbers ----

  const YDAY_MINIMUM := -366

  // The first operand of % in iso_week_days.
  function IsoOperand(yday: int, wday: int): int {
    yday - wday + 4 + (366 / 7 + 2) * 7
  }

  function IsoWeekDays(yday: int, wday: int): int {
    yday - CRem(IsoOperand(yday, wday), 7) + 4 - 1
  }

  // The days since the Monday that begins ISO week 1, whose Thursday is the year's
  // first: that Monday is at most three days away from 1 January.
  lemma IsoWeekDaysRight(yday: int, wday: int)
    requires YDAY_MINIMUM <= yday && 0 <= wday <= 6
    ensures IsoOperand(yday, wday) >= 0
    ensures var monday := yday - IsoWeekDays(yday, wday);
      && -3 <= monday <= 3
      && (monday - yday + wday) % 7 == 1
  {
  }

  // %V, %G and %g: the week number and the year it belongs to.
  function IsoWeek(year: int, yday: int, wday: int): (int, int) {
    var days := IsoWeekDays(yday, wday);
    if days < 0 then
      (year - 1, CDiv(IsoWeekDays(yday + YearLength(year - 1), wday), 7) + 1)
    else
      var d := IsoWeekDays(yday - YearLength(year), wday);
      if 0 <= d then (year + 1, CDiv(d, 7) + 1) else (year, CDiv(days, 7) + 1)
  }

  function IsoYearInCentury(year: int): int {
    CRem(CRem(year, 100) + 100, 100)
  }

  // The day of the year of the Thursday in the week (from Monday) of a given day.
  function Thursday(yday: int, wday: int): int {
    yday - (wday + 6) % 7 + 3
  }

  // It is a Thursday, weekday 4 of seven from Sunday, at most three days away.
  lemma ThursdayMeans(yday: int, wday: int)
    requires 0 <= wday <= 6
    ensures var apart := Thursday(yday, wday) - yday; -3 <= apart <= 3 && (wday + apart) % 7 == 4
  {
  }

  // How many days from 0 to yday fall on the weekday of day `first`.
  function Occurrences(first: int, yday: int): int
    requires 0 <= first < 7
    decreases yday
  {
    if yday < 0 then 0 else Occurrences(first, yday - 1) + (if yday % 7 == first then 1 else 0)
  }

  // No other such day in the k days before one.
  lemma {:induction false} OnceAWeek(first: int, yday: int, k: nat)
    requires 0 <= first < 7 && yday >= 0 && yday % 7 == first && k <= 6 && k <= yday
    ensures Occurrences(first, yday) == Occurrences(first, yday - 1 - k) + 1
  {
    if k > 0 {
      OnceAWeek(first, yday, k - 1);
      AnotherDay(yday, k);
    }
  }

  lemma AnotherDay(yday: int, k: int)
    requires 1 <= k <= 6
    ensures (yday - k) % 7 != yday % 7
  {
  }

  lemma {:induction false} WeeksCounted(yday: int)
    requires yday >= 0
    ensures Occurrences(yday % 7, yday) == yday / 7 + 1
    decreases yday
  {
    if yday >= 7 {
      WeeksCounted(yday - 7);
      OnceAWeek(yday % 7, yday, 6);
    } else {
      OnceAWeek(yday, yday, yday);
      assert Occurrences(yday, -1) == 0;
    }
  }

  // ISO 8601, section 2.2.10: a week belongs to the year in which its Thursday falls
  // on a day of that year, and its number counts the Thursdays of that year up to it.
  lemma IsoWeekRight(year: int, yday: int, wday: int)
    requires 0 <= yday < YearLength(year) && 0 <= wday <= 6
    ensures var (isoYear, week) := IsoWeek(year, yday, wday);
      var thursday := Thursday(yday, wday) + DaysBetween(isoYear, year);
      && 0 <= thursday < YearLength(isoYear)
      && week == Occurrences(thursday % 7, thursday)
      && 1 <= week <= 53
  {
    ThursdayDecides(yday, wday);
    ThursdayDecides(yday + YearLength(year - 1), wday);
    ThursdayDecides(yday - YearLength(year), wday);
    NearYears(year);
    hide IsoWeekDays, DaysBetween, IsLeap, Occurrences;
    var (isoYear, week) := IsoWeek(year, yday, wday);
    var thursday := Thursday(yday, wday) + DaysBetween(isoYear, year);
    WeeksCounted(thursday);
  }

  lemma ThursdayDecides(yday: int, wday: int)
    requires YDAY_MINIMUM <= yday && 0 <= wday <= 6
    ensures IsoWeekDays(yday, wday) < 0 <==> Thursday(yday, wday) < 0
    ensures IsoWeekDays(yday, wday) / 7 == Thursday(yday, wday) / 7
  {
    var thursday := Thursday(yday, wday);
    assert IsoWeekDays(yday, wday) == thursday - thursday % 7 + (wday + 6) % 7;
  }

  lemma NearYears(year: int)
    ensures DaysBetween(year - 1, year) == YearLength(year - 1)
    ensures DaysBetween(year, year) == 0
    ensures DaysBetween(year + 1, year) == -YearLength(year)
  {
  }

  // No other year can hold that Thursday.
  lemma IsoYearUnique(y: int, z: int, origin: int, day: int)
    requires 0 <= day + DaysBetween(y, origin) < YearLength(y)
    requires 0 <= day + DaysBetween(z, origin) < YearLength(z)
    ensures y == z
  {
    if y < z {
      YearsPass(y, z, origin);
    } else if z < y {
      YearsPass(z, y, origin);
    }
  }

  lemma YearsPass(y: int, z: int, origin: int)
    requires y < z
    ensures DaysBetween(y, origin) >= DaysBetween(z, origin) + YearLength(y)
  {
    hide LeapDays, IsLeap, YearLength, DaysBetween;
    DaysBetweenClosed(y - TM_YEAR_BASE, origin - TM_YEAR_BASE);
    DaysBetweenClosed(z - TM_YEAR_BASE, origin - TM_YEAR_BASE);
    DaysBetweenClosed(y - TM_YEAR_BASE, y + 1 - TM_YEAR_BASE);
    NearYears(y + 1);
    LeapDaysGrow(y + 1 - TM_YEAR_BASE, z - TM_YEAR_BASE);
  }

  lemma {:induction false} LeapDaysGrow(a: int, b: int)
    requires a <= b
    ensures LeapDays(a) <= LeapDays(b)
    decreases b - a
  {
    if a < b {
      LeapDaysGrow(a, b - 1);
      LeapDaysStep(b - 1);
    }
  }

  lemma TwoDigitYear(year: int)
    ensures 0 <= IsoYearInCentury(year) <= 99 && (year - IsoYearInCentury(year)) % 100 == 0
  {
  }
}
