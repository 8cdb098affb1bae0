/** The proleptic Gregorian calendar: Hinnant's two algorithms against a day-counting definition. */
module Calendar {
  import opened Text

  datatype Date = Date(year: int, month: int, day: int)

  // ---------- the reference: count the days ----------

  predicate IsLeap(y: int) {
    y % 4 == 0 && (y % 100 != 0 || y % 400 == 0)
  }

  function YearLength(y: int): int {
    if IsLeap(y) then 366 else 365
  }

  function MonthLength(y: int, m: int): int {
    if m == 2 then (if IsLeap(y) then 29 else 28)
    else if m == 4 || m == 6 || m == 9 || m == 11 then 30
    else 31
  }

  predicate Valid(d: Date) {
    1 <= d.month <= 12 && 1 <= d.day <= MonthLength(d.year, d.month)
  }

  /** Days from 1970-01-01 to the first of January of year y, counted year by year in either direction. */
  function YearsBefore(y: int): int
    decreases if y >= 1970 then y - 1970 else 1970 - y
  {
    if y == 1970 then 0
    else if y > 1970 then YearsBefore(y - 1) + YearLength(y - 1)
    else YearsBefore(y + 1) - YearLength(y)
  }

  /** Days from the first of January to the first of month m, counted month by month. */
  function MonthsBefore(y: int, m: int): int
    requires 1 <= m <= 12
    decreases m
  {
    if m == 1 then 0 else MonthsBefore(y, m - 1) + MonthLength(y, m - 1)
  }

  function Counted(d: Date): int
    requires Valid(d)
  {
    YearsBefore(d.year) + MonthsBefore(d.year, d.month) + d.day - 1
  }

  function NextDay(d: Date): Date {
    if d.day < MonthLength(d.year, d.month) then Date(d.year, d.month, d.day + 1)
    else if d.month < 12 then Date(d.year, d.month + 1, 1)
    else Date(d.year + 1, 1, 1)
  }

  predicate Before(a: Date, b: Date) {
    a.year < b.year
    || (a.year == b.year && (a.month < b.month || (a.month == b.month && a.day < b.day)))
  }

  // ---------- the two algorithms of the source ----------

  /** `days_from_civil`. It checks only 1..=12 and 1..=31, so it accepts the thirtieth of February. */
  function DaysFromCivil(year: int, month: int, day: int): Option<int> {
    if !(1 <= month <= 12) || !(1 <= day <= 31) then None
    else
      var y := if month <= 2 then year - 1 else year;
      var era := y / 400;
      var yoe := y % 400;
      var doy := (153 * (month + if month > 2 then -3 else 9) + 2) / 5 + day - 1;
      var doe := yoe * 365 + yoe / 4 - yoe / 100 + doy;
      Some(era * 146097 + doe - 719468)
  }

  /** `civil_from_days`. */
  function CivilFromDays(days: int): Date {
    var z := days + 719468;
    var doe := z % 146097;
    CivilOfEra(z / 146097, YearOfEra(doe), doe)
  }

  function YearOfEra(doe: int): int {
    (doe - doe / 1460 + doe / 36524 - doe / 146096) / 365
  }

  function CivilOfEra(era: int, yoe: int, doe: int): Date {
    var doy := doe - (365 * yoe + yoe / 4 - yoe / 100);
    var mp := (5 * doy + 2) / 153;
    var d := doy - (153 * mp + 2) / 5 + 1;
    var m := if mp < 10 then mp + 3 else mp - 9;
    var y := yoe + era * 400;
    Date(if m <= 2 then y + 1 else y, m, d)
  }

  // ---------- years ----------

  /** Days of an era before its March-based year yoe. */
  function EraYears(yoe: int): int {
    365 * yoe + yoe / 4 - yoe / 100
  }

  /** The last day of the March-based year yoe of an era is 365 exactly when the next January year is leap. */
  function LastDoy(yoe: int): int {
    if (yoe + 1) % 4 == 0 && ((yoe + 1) % 100 != 0 || yoe == 399) then 365 else 364
  }

  lemma EraYearsSplit(c: int, q: int, r: int)
    requires 0 <= c <= 3 && 0 <= q <= 24 && 0 <= r <= 3
    ensures EraYears(100 * c + 4 * q + r) == 36524 * c + 1461 * q + 365 * r
    ensures 100 * c + 4 * q + r <= 399
    ensures LastDoy(100 * c + 4 * q + r) == if r == 3 && (q < 24 || c == 3) then 365 else 364
  {
    var y := 100 * c + 4 * q + r;
    assert y / 4 == 25 * c + q;
    assert y / 100 == c;
    assert (y + 1) % 4 == 0 <==> r == 3;
    assert r == 3 ==> ((y + 1) % 100 == 0 <==> q == 24);
  }

  lemma CenturyCorrection(c: int, rest: int)
    requires 0 <= c <= 3 && 0 <= rest && (rest < 36524 || (c == 3 && rest == 36524))
    ensures (36524 * c + rest) / 36524 - (36524 * c + rest) / 146096 == c
  {
  }

  lemma QuotientShift(k: int, rest: int)
    ensures (1460 * k + rest) / 1460 == k + rest / 1460
  {
  }

  /** The year estimate is exact for every day of the era. */
  lemma YearOfEraExact(c: int, q: int, r: int, doy: int)
    requires 0 <= c <= 3 && 0 <= q <= 24 && 0 <= r <= 3
    requires 0 <= doy <= LastDoy(100 * c + 4 * q + r)
    ensures YearOfEra(EraYears(100 * c + 4 * q + r) + doy) == 100 * c + 4 * q + r
    ensures 0 <= EraYears(100 * c + 4 * q + r) + doy < 146097
  {
    EraYearsSplit(c, q, r);
    var doe := 36524 * c + 1461 * q + 365 * r + doy;
    var rest := 24 * c + q + 365 * r + doy;
    assert doe / 36524 - doe / 146096 == c by { CenturyCorrection(c, doe - 36524 * c); }
    assert doe / 1460 == 25 * c + q + rest / 1460 by { QuotientShift(25 * c + q, rest); }
    assert 0 <= doy - rest / 1460 < 365;
  }

  /** Every day of an era lies in exactly one of its years. */
  lemma EraDayDecomposes(doe: int) returns (yoe: int, doy: int)
    requires 0 <= doe < 146097
    ensures 0 <= yoe <= 399 && 0 <= doy <= LastDoy(yoe)
    ensures doe == EraYears(yoe) + doy && YearOfEra(doe) == yoe
  {
    var c := if doe / 36524 > 3 then 3 else doe / 36524;
    var rest := doe - 36524 * c;
    var q := rest / 1461;
    var rest2 := rest - 1461 * q;
    var r := if rest2 / 365 > 3 then 3 else rest2 / 365;
    yoe, doy := 100 * c + 4 * q + r, rest2 - 365 * r;
    EraYearsSplit(c, q, r);
    YearOfEraExact(c, q, r, doy);
  }

  lemma YearSplits(yoe: int) returns (c: int, q: int, r: int)
    requires 0 <= yoe <= 399
    ensures 0 <= c <= 3 && 0 <= q <= 24 && 0 <= r <= 3 && yoe == 100 * c + 4 * q + r
  {
    c := yoe / 100;
    q := yoe % 100 / 4;
    r := yoe % 4;
  }

  lemma LeapOfEra(era: int, yoe: int)
    requires 0 <= yoe <= 399
    ensures IsLeap(era * 400 + yoe + 1) <==> LastDoy(yoe) == 365
  {
    var y := era * 400 + yoe + 1;
    assert y / 4 == 100 * era + (yoe + 1) / 4;
    assert y / 100 == 4 * era + (yoe + 1) / 100;
    assert y / 400 == era + (yoe + 1) / 400;
  }

  // ---------- months ----------

  /** The month index counted from March, and its first day of the March-based year. */
  function MarchIndex(m: int): int {
    if m > 2 then m - 3 else m + 9
  }

  function MarchStart(mp: int): int {
    (153 * mp + 2) / 5
  }

  lemma MonthOfDoy(doy: int)
    requires 0 <= doy <= 365
    ensures var mp := (5 * doy + 2) / 153;
            0 <= mp <= 11 && MarchStart(mp) <= doy && (mp < 11 ==> doy < MarchStart(mp + 1))
  {
  }

  lemma DoyOfMonth(mp: int, doy: int)
    requires 0 <= mp <= 11 && MarchStart(mp) <= doy <= 365
    requires mp < 11 ==> doy < MarchStart(mp + 1)
    ensures (5 * doy + 2) / 153 == mp
  {
  }

  lemma MonthLengths(y: int, m: int)
    requires 1 <= m <= 12
    ensures m != 2 ==> MarchIndex(m) < 11 && MarchStart(MarchIndex(m) + 1) - MarchStart(MarchIndex(m)) == MonthLength(y, m)
    ensures m == 2 ==> MarchStart(MarchIndex(m)) + MonthLength(y, m) == if IsLeap(y) then 366 else 365
  {
  }

  // ---------- the closed form, free of eras ----------

  /** Days before the first of March of year y, up to the constant of the epoch. */
  function MarchDays(y: int): int {
    365 * y + y / 4 - y / 100 + y / 400
  }

  function ClosedForm(y: int, m: int, d: int): int {
    MarchDays(if m <= 2 then y - 1 else y) + MarchStart(MarchIndex(m)) + d - 719469
  }

  lemma MarchDaysOfEra(era: int, yoe: int)
    requires 0 <= yoe < 400
    ensures MarchDays(era * 400 + yoe) == era * 146097 + EraYears(yoe)
  {
    var y := era * 400 + yoe;
    assert y / 4 == 100 * era + yoe / 4;
    assert y / 100 == 4 * era + yoe / 100;
    assert y / 400 == era;
  }

  lemma DaysAreClosedForm(y: int, m: int, d: int)
    requires 1 <= m <= 12 && 1 <= d <= 31
    ensures DaysFromCivil(y, m, d) == Some(ClosedForm(y, m, d))
  {
    var shifted := if m <= 2 then y - 1 else y;
    MarchDaysOfEra(shifted / 400, shifted % 400);
  }

  lemma DivStep(y: int, n: int)
    requires n == 4 || n == 100 || n == 400
    ensures y / n == (y - 1) / n + if y % n == 0 then 1 else 0
  {
  }

  lemma MarchStep(y: int)
    ensures MarchDays(y) == MarchDays(y - 1) + YearLength(y)
  {
    DivStep(y, 4);
    DivStep(y, 100);
    DivStep(y, 400);
    MultiplesNest(y);
  }

  lemma MultiplesNest(y: int)
    ensures y % 100 == 0 ==> y % 4 == 0
    ensures y % 400 == 0 ==> y % 100 == 0
  {
    Multiple(y, 25, 4);
    Multiple(y, 4, 100);
  }

  lemma Multiple(y: int, k: int, n: int)
    requires (k == 25 && n == 4) || (k == 4 && n == 100)
    ensures y % (k * n) == 0 ==> y % n == 0
  {
    if k == 25 {
      assert y == 4 * (25 * (y / 100)) + y % 100;
    } else {
      assert y == 100 * (4 * (y / 400)) + y % 400;
    }
  }

  // ---------- the inverse, both ways ----------

  lemma EraRecovers(z: int, era: int, doe: int)
    requires z == era * 146097 + doe && 0 <= doe < 146097
    ensures z / 146097 == era && z % 146097 == doe
  {
  }

  lemma DoyOfEra(era: int, yoe: int, doy: int, mp: int)
    requires (5 * doy + 2) / 153 == mp
    ensures var m := if mp < 10 then mp + 3 else mp - 9;
            CivilOfEra(era, yoe, EraYears(yoe) + doy)
            == Date(yoe + era * 400 + if m <= 2 then 1 else 0, m, doy - MarchStart(mp) + 1)
  {
  }

  /** Every day number is the number of the valid date it is turned into. */
  lemma CivilThenDays(days: int)
    ensures Valid(CivilFromDays(days))
    ensures var d := CivilFromDays(days); DaysFromCivil(d.year, d.month, d.day) == Some(days)
  {
    var z := days + 719468;
    var era, doe := z / 146097, z % 146097;
    var yoe, doy := EraDayDecomposes(doe);
    DoyOfEra(era, yoe, doy, (5 * doy + 2) / 153);
    DateOfParts(era, yoe, doy, CivilFromDays(days));
    var d := CivilFromDays(days);
    DaysAreClosedForm(d.year, d.month, d.day);
  }

  /** The date read off era, year and day of year is valid and counts back to them. */
  lemma DateOfParts(era: int, yoe: int, doy: int, d: Date)
    requires 0 <= yoe <= 399 && 0 <= doy <= LastDoy(yoe)
    requires var mp := (5 * doy + 2) / 153;
             var m := if mp < 10 then mp + 3 else mp - 9;
             d == Date(yoe + era * 400 + if m <= 2 then 1 else 0, m, doy - MarchStart(mp) + 1)
    ensures Valid(d)
    ensures ClosedForm(d.year, d.month, d.day) == era * 146097 + EraYears(yoe) + doy - 719468
  {
    MonthOfDoy(doy);
    assert MarchIndex(d.month) == (5 * doy + 2) / 153;
    MonthLengths(d.year, d.month);
    LeapOfEra(era, yoe);
    MarchDaysOfEra(era, yoe);
  }

  /** Every valid date is the date its day number is turned into. */
  lemma DaysThenCivil(d: Date)
    requires Valid(d)
    ensures DaysFromCivil(d.year, d.month, d.day).Some?
    ensures CivilFromDays(DaysFromCivil(d.year, d.month, d.day).value) == d
  {
    DaysAreClosedForm(d.year, d.month, d.day);
    ClosedFormThenCivil(d);
  }

  lemma ClosedFormThenCivil(d: Date)
    requires Valid(d)
    ensures CivilFromDays(ClosedForm(d.year, d.month, d.day)) == d
  {
    var y := if d.month <= 2 then d.year - 1 else d.year;
    var era, yoe := y / 400, y % 400;
    var doy := PartsOfDate(d, era, yoe);
    DoyOfEra(era, yoe, doy, MarchIndex(d.month));
    var days := ClosedFormOfParts(d, era, yoe, doy);
    CivilOfDayNumber(days, era, yoe, EraYears(yoe) + doy);
  }

  lemma ClosedFormOfParts(d: Date, era: int, yoe: int, doy: int) returns (days: int)
    requires 0 <= yoe < 400 && era * 400 + yoe == if d.month <= 2 then d.year - 1 else d.year
    requires doy == MarchStart(MarchIndex(d.month)) + d.day - 1
    ensures days == ClosedForm(d.year, d.month, d.day)
    ensures days + 719468 == era * 146097 + (EraYears(yoe) + doy)
  {
    MarchDaysOfEra(era, yoe);
    days := ClosedForm(d.year, d.month, d.day);
  }

  lemma CivilOfDayNumber(days: int, era: int, yoe: int, doe: int)
    requires days + 719468 == era * 146097 + doe && 0 <= doe < 146097 && YearOfEra(doe) == yoe
    ensures CivilFromDays(days) == CivilOfEra(era, yoe, doe)
  {
    EraRecovers(days + 719468, era, doe);
  }

  lemma PartsOfDate(d: Date, era: int, yoe: int) returns (doy: int)
    requires Valid(d) && 0 <= yoe <= 399
    requires era * 400 + yoe == if d.month <= 2 then d.year - 1 else d.year
    ensures 0 <= doy <= LastDoy(yoe) && doy == MarchStart(MarchIndex(d.month)) + d.day - 1
    ensures (5 * doy + 2) / 153 == MarchIndex(d.month)
    ensures YearOfEra(EraYears(yoe) + doy) == yoe && 0 <= EraYears(yoe) + doy < 146097
  {
    var mp := MarchIndex(d.month);
    doy := MarchStart(mp) + d.day - 1;
    LeapOfEra(era, yoe);
    MonthLengths(d.year, d.month);
    DoyOfMonth(mp, doy);
    var c, q, r := YearSplits(yoe);
    YearOfEraExact(c, q, r, doy);
  }

  // ---------- the day count ----------

  lemma {:induction false} YearsBeforeClosed(y: int)
    ensures ClosedForm(y, 1, 1) == YearsBefore(y)
    decreases if y >= 1970 then y - 1970 else 1970 - y
  {
    if y > 1970 {
      YearsBeforeClosed(y - 1);
      MarchStep(y - 1);
    } else if y < 1970 {
      YearsBeforeClosed(y + 1);
      MarchStep(y);
    }
  }

  lemma {:induction false} MonthsBeforeClosed(y: int, m: int)
    requires 1 <= m <= 12
    ensures ClosedForm(y, m, 1) == ClosedForm(y, 1, 1) + MonthsBefore(y, m)
    decreases m
  {
    if m > 1 {
      MonthsBeforeClosed(y, m - 1);
      MonthAdds(y, m - 1);
    }
  }

  lemma MonthAdds(y: int, m: int)
    requires 1 <= m <= 11
    ensures ClosedForm(y, m + 1, 1) == ClosedForm(y, m, 1) + MonthLength(y, m)
  {
    MonthLengths(y, m);
    if m == 2 {
      MarchStep(y);
    }
  }

  lemma CountedIsClosedForm(d: Date)
    requires Valid(d)
    ensures ClosedForm(d.year, d.month, d.day) == Counted(d)
  {
    YearsBeforeClosed(d.year);
    MonthsBeforeClosed(d.year, d.month);
  }

  /** Nothing but the month and the day of the month is checked. */
  lemma DaysFromCivilRefuses(year: int, month: int, day: int)
    ensures DaysFromCivil(year, month, day).None? <==> month < 1 || month > 12 || day < 1 || day > 31
  {
  }

  /** The algorithm is the day count, on every valid date, before the epoch and after it. */
  lemma DaysFromCivilCounts(d: Date)
    requires Valid(d)
    ensures DaysFromCivil(d.year, d.month, d.day) == Some(Counted(d))
  {
    hide DaysFromCivil, Counted, ClosedForm;
    CountedIsClosedForm(d);
    DaysAreClosedForm(d.year, d.month, d.day);
  }

  lemma EpochIsDayZero()
    ensures DaysFromCivil(1970, 1, 1) == Some(0)
    ensures CivilFromDays(0) == Date(1970, 1, 1)
  {
    assert DaysFromCivil(1970, 1, 1) == Some(0);
    DaysThenCivil(Date(1970, 1, 1));
  }

  lemma NextDayCounted(d: Date)
    requires Valid(d)
    ensures Valid(NextDay(d)) && Counted(NextDay(d)) == Counted(d) + 1
  {
    DecemberEnds(d.year);
  }

  /** The next civil day is the next number. */
  lemma NextDayAddsOne(d: Date)
    requires Valid(d)
    ensures Valid(NextDay(d))
    ensures DaysFromCivil(NextDay(d).year, NextDay(d).month, NextDay(d).day)
            == Some(DaysFromCivil(d.year, d.month, d.day).value + 1)
  {
    hide DaysFromCivil, Counted;
    NextDayCounted(d);
    DaysFromCivilCounts(d);
    DaysFromCivilCounts(NextDay(d));
  }

  lemma DecemberEnds(y: int)
    ensures MonthsBefore(y, 12) + 31 == YearLength(y)
    ensures YearsBefore(y + 1) == YearsBefore(y) + YearLength(y)
  {
    MonthsBeforeClosed(y, 12);
    YearsBeforeClosed(y);
    YearsBeforeClosed(y + 1);
    MarchStep(y);
  }

  // ---------- order ----------

  lemma {:induction false} YearsOrdered(a: int, b: int)
    requires a < b
    ensures YearsBefore(a) + YearLength(a) <= YearsBefore(b)
    decreases b - a
  {
    DecemberEnds(a);
    if a + 1 < b {
      YearsOrdered(a + 1, b);
    }
  }

  lemma {:induction false} MonthsOrdered(y: int, a: int, b: int)
    requires 1 <= a < b <= 12
    ensures MonthsBefore(y, a) + MonthLength(y, a) <= MonthsBefore(y, b)
    decreases b - a
  {
    if a + 1 < b {
      MonthsOrdered(y, a, b - 1);
    }
  }

  lemma DayOfYearBounds(d: Date)
    requires Valid(d)
    ensures YearsBefore(d.year) <= Counted(d) < YearsBefore(d.year) + YearLength(d.year)
  {
    DecemberEnds(d.year);
    if 1 < d.month {
      MonthsOrdered(d.year, 1, d.month);
    }
    if d.month < 12 {
      MonthsOrdered(d.year, d.month, 12);
    }
  }

  /** Day numbers order valid dates exactly as the calendar does. */
  lemma DaysOrdered(a: Date, b: Date)
    requires Valid(a) && Valid(b)
    ensures Before(a, b) <==>
            DaysFromCivil(a.year, a.month, a.day).value < DaysFromCivil(b.year, b.month, b.day).value
  {
    DaysFromCivilCounts(a);
    DaysFromCivilCounts(b);
    if Before(a, b) {
      CountedIncreases(a, b);
    } else if a != b {
      CountedIncreases(b, a);
    }
  }

  lemma CountedIncreases(a: Date, b: Date)
    requires Valid(a) && Valid(b) && Before(a, b)
    ensures Counted(a) < Counted(b)
  {
    if a.year < b.year {
      DayOfYearBounds(a);
      DayOfYearBounds(b);
      YearsOrdered(a.year, b.year);
    } else if a.month < b.month {
      MonthsOrdered(a.year, a.month, b.month);
    }
  }

  /** Turning a day number into a date keeps the order against any date of known number. */
  lemma CivilOrdered(days: int, b: Date, n: int)
    requires Valid(b) && DaysFromCivil(b.year, b.month, b.day) == Some(n)
    ensures Before(CivilFromDays(days), b) <==> days < n
  {
    hide CivilFromDays, DaysFromCivil;
    CivilThenDays(days);
    DaysOrdered(CivilFromDays(days), b);
  }
}
