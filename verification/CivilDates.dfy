/**
 Conversion between civil dates and days since 1970-01-01 (`days_from_civil` and `civil_from_days`
 in crates/esl-agent/src/kubernetescollector.rs, and the copy of the former in remotewrite.rs).
 Years are counted from March inside the conversions, so that a leap day is the last of its year.
 */
module CivilDates {
  import opened Integers

  datatype Date = Date(year: int, month: int, day: int)

  predicate IsLeapYear(y: int) {
    y % 4 == 0 && (y % 100 != 0 || y % 400 == 0)
  }

  function DaysInMonth(y: int, m: int): int {
    if m in {1, 3, 5, 7, 8, 10, 12} then 31
    else if m in {4, 6, 9, 11} then 30
    else if m == 2 then (if IsLeapYear(y) then 29 else 28)
    else 0
  }

  predicate ValidDate(date: Date) {
    1 <= date.month <= 12 && 1 <= date.day <= DaysInMonth(date.year, date.month)
  }

  // ----- the source's conversions
  //
  // Only the years and days from which the era is found can be negative; everything that is
  // divided later is counted from the start of the era.

  function DaysFromCivil(year: int, m: int, d: int): int {
    var y := if m <= 2 then year - 1 else year;
    var era := TruncDiv(if y >= 0 then y else y - 399, 400);
    var yoe := y - era * 400;
    var doy := MonthStart((m + 9) % 12) + d - 1;
    era * 146_097 + YearStart(yoe) + doy - 719_468
  }

  function CivilFromDays(days: int): Date {
    var z := days + 719_468;
    var era := EraOf(z);
    CivilFromEraDay(era, z - era * 146_097)
  }

  function EraOf(z: int): int {
    TruncDiv(if z >= 0 then z else z - 146_096, 146_097)
  }

  function CivilFromEraDay(era: int, doe: int): Date {
    var yoe := YearOf(doe);
    CivilFromYearDay(yoe + era * 400, doe - YearStart(yoe))
  }

  function CivilFromYearDay(y: int, doy: int): Date {
    var mp := MonthOf(doy);
    var d := doy - MonthStart(mp) + 1;
    var m := if mp < 10 then mp + 3 else mp - 9;
    Date(if m <= 2 then y + 1 else y, m, d)
  }

  /** The days of an era before its year `yoe`. */
  function YearStart(yoe: int): int {
    365 * yoe + yoe / 4 - yoe / 100
  }

  /** The source's way to find the year of a day of an era. */
  function YearOf(doe: int): int {
    (doe - doe / 1_460 + doe / 36_524 - doe / 146_096) / 365
  }

  /** The days of a year before its month `mp`, counted from March. */
  function MonthStart(mp: int): int {
    (153 * mp + 2) / 5
  }

  /** The source's way to find the month of a day of a year, counted from March. */
  function MonthOf(doy: int): int {
    (5 * doy + 2) / 153
  }

  // ----- years of an era and days of a year

  /** The year that begins in March of year `yoe` of an era ends with a leap day. */
  predicate EndsInLeapDay(yoe: nat) {
    IsLeapYear(yoe + 1)
  }

  function YearLength(yoe: nat): nat {
    if EndsInLeapDay(yoe) then 366 else 365
  }

  /** A year in centuries, groups of four years and years. */
  lemma YearStartMeans(c: nat, q: nat, r: nat)
    requires c < 4 && q < 25 && r < 4
    ensures YearStart(100 * c + 4 * q + r) == 36_524 * c + 1_461 * q + 365 * r
    ensures EndsInLeapDay(100 * c + 4 * q + r) <==> r == 3 && (q < 24 || c == 3)
  {
    var yoe := 100 * c + 4 * q + r;
    assert yoe / 100 == c && yoe / 4 == 25 * c + q;
    LeapYearOfParts(c, q, r);
  }

  lemma LeapYearOfParts(c: nat, q: nat, r: nat)
    requires c < 4 && q < 25 && r < 4
    ensures IsLeapYear(100 * c + 4 * q + r + 1) <==> r == 3 && (q < 24 || c == 3)
  {
    var y := 100 * c + 4 * q + r + 1;
    assert y % 4 == if r == 3 then 0 else r + 1;
    assert y % 100 == if r == 3 && q == 24 then 0 else 4 * q + r + 1;
    assert y % 400 == if y == 400 then 0 else y;
  }

  lemma CenturyOf(c: nat, rest: nat)
    requires c < 4 && (rest < 36_524 || (c == 3 && rest == 36_524))
    ensures (36_524 * c + rest) / 36_524 - (36_524 * c + rest) / 146_096 == c
  {
  }

  lemma YearOfParts(c: nat, q: nat, r: nat, doy: nat)
    requires c < 4 && q < 25 && r < 4
    requires doy < 365 || (doy == 365 && r == 3 && (q < 24 || c == 3))
    ensures YearOf(36_524 * c + 1_461 * q + 365 * r + doy) == 100 * c + 4 * q + r
  {
    var doe := 36_524 * c + 1_461 * q + 365 * r + doy;
    CenturyOf(c, 1_461 * q + 365 * r + doy);
    var rest := 24 * c + q + 365 * r + doy;
    assert doe == 1_460 * (25 * c + q) + rest;
    var carry := if rest >= 1_460 then 1 else 0;
    assert doe / 1_460 == 25 * c + q + carry;
    var yoe := 100 * c + 4 * q + r;
    assert doe - doe / 1_460 + c == 365 * yoe + (doy - carry);
  }

  /** The day belongs to the year it is looked up in. */
  lemma YearOfDay(yoe: nat, doy: nat)
    requires yoe < 400 && doy < YearLength(yoe)
    ensures 0 <= YearStart(yoe) + doy < 146_097 && YearOf(YearStart(yoe) + doy) == yoe
  {
    var c, q, r := yoe / 100, yoe % 100 / 4, yoe % 4;
    assert yoe == 100 * c + 4 * q + r;
    YearStartMeans(c, q, r);
    YearOfParts(c, q, r, doy);
  }

  /** Every day of an era belongs to a year of it. */
  lemma DayOfYear(doe: nat)
    requires doe < 146_097
    ensures 0 <= YearOf(doe) < 400
    ensures 0 <= doe - YearStart(YearOf(doe)) < YearLength(YearOf(doe))
  {
    var c, q, r, doy := PartsOf(doe);
    YearStartMeans(c, q, r);
    YearOfParts(c, q, r, doy);
  }

  /** A day of an era in centuries, groups of four years, years and days. */
  lemma PartsOf(doe: nat) returns (c: nat, q: nat, r: nat, doy: nat)
    requires doe < 146_097
    ensures c < 4 && q < 25 && r < 4 && (doy < 365 || (doy == 365 && r == 3 && (q < 24 || c == 3)))
    ensures doe == 36_524 * c + 1_461 * q + 365 * r + doy
  {
    c := if doe == 146_096 then 3 else doe / 36_524;
    var inCentury := doe - 36_524 * c;
    q := inCentury / 1_461;
    var inFour := inCentury - 1_461 * q;
    r := if inFour == 1_460 then 3 else inFour / 365;
    doy := inFour - 365 * r;
  }

  function MonthLength(mp: nat, leap: bool): nat {
    if mp == 11 then (if leap then 29 else 28) else MonthStart(mp + 1) - MonthStart(mp)
  }

  lemma MonthOfDay(mp: nat, d: nat)
    requires mp < 12 && d < MonthLength(mp, true)
    ensures MonthOf(MonthStart(mp) + d) == mp
  {
  }

  lemma DayOfMonth(doy: nat)
    requires doy < 366
    ensures MonthOf(doy) < 12
    ensures 0 <= doy - MonthStart(MonthOf(doy)) < MonthLength(MonthOf(doy), doy == 365)
  {
  }

  // ----- dates

  /** The year that began in the last March. */
  function MarchYear(year: int, m: int): int {
    if m <= 2 then year - 1 else year
  }

  function MarchMonth(m: int): nat
    requires 1 <= m <= 12
  {
    if m > 2 then m - 3 else m + 9
  }

  /** The day number of the first day of a March year. */
  function EraDays(y: int): int {
    y / 400 * 146_097 + YearStart(y % 400) - 719_468
  }

  /** The source's adjusted division rounds down. */
  lemma FloorDivision(x: int)
    ensures TruncDiv(if x >= 0 then x else x - 399, 400) == x / 400
    ensures EraOf(x) == x / 146_097
  {
  }

  lemma DaysFromCivilMeans(year: int, m: int, d: int)
    requires 1 <= m <= 12
    ensures DaysFromCivil(year, m, d) == EraDays(MarchYear(year, m)) + MonthStart(MarchMonth(m)) + d - 1
  {
    var y := MarchYear(year, m);
    FloorDivision(y);
    assert y == y / 400 * 400 + y % 400;
    assert (m + 9) % 12 == MarchMonth(m);
  }

  lemma Remainder4(e: int, x: int)
    ensures (400 * e + x) % 4 == x % 4
  {
    assert 400 * e + x == 4 * (100 * e + x / 4) + x % 4;
  }

  lemma Remainder100(e: int, x: int)
    ensures (400 * e + x) % 100 == x % 100
  {
    assert 400 * e + x == 100 * (4 * e + x / 100) + x % 100;
  }

  lemma Remainder400(e: int, x: int)
    ensures (400 * e + x) % 400 == x % 400
  {
    assert 400 * e + x == 400 * (e + x / 400) + x % 400;
  }

  lemma LeapYearOfEra(y: int)
    ensures IsLeapYear(y % 400 + 1) <==> IsLeapYear(y + 1)
  {
    var e, x := y / 400, y % 400 + 1;
    assert y + 1 == 400 * e + x;
    Remainder4(e, x);
    Remainder100(e, x);
    Remainder400(e, x);
  }

  lemma MonthLengthMeans(year: int, m: int)
    requires 1 <= m <= 12
    ensures MonthLength(MarchMonth(m), EndsInLeapDay(MarchYear(year, m) % 400)) == DaysInMonth(year, m)
  {
    LeapYearOfEra(year - 1);
  }

  /** The day of its March year a date is. */
  lemma DayOfYearMeans(date: Date)
    requires ValidDate(date)
    ensures MonthStart(MarchMonth(date.month)) + date.day - 1 < YearLength(MarchYear(date.year, date.month) % 400)
  {
    MonthLengthMeans(date.year, date.month);
  }

  lemma EraFound(era: int, doe: nat, days: int)
    requires doe < 146_097 && days == era * 146_097 + doe - 719_468
    ensures CivilFromDays(days) == CivilFromEraDay(era, doe)
  {
    var z := days + 719_468;
    assert EraOf(z) == era by {
      FloorDivision(z);
    }
    assert z - EraOf(z) * 146_097 == doe;
  }

  lemma MonthFound(y: int, mp: nat, d: nat)
    requires mp < 12 && d < MonthLength(mp, true)
    ensures CivilFromYearDay(y, MonthStart(mp) + d)
            == Date(if mp < 10 then y else y + 1, if mp < 10 then mp + 3 else mp - 9, d + 1)
  {
    MonthOfDay(mp, d);
  }

  lemma DayFound(era: int, yoe: nat, doy: nat, days: int)
    requires yoe < 400 && doy < YearLength(yoe) && days == era * 146_097 + YearStart(yoe) + doy - 719_468
    ensures CivilFromDays(days) == CivilFromYearDay(yoe + era * 400, doy)
  {
    var doe := YearStart(yoe) + doy;
    YearOfDay(yoe, doy);
    EraFound(era, doe, days);
  }

  lemma MonthDayFound(date: Date)
    requires ValidDate(date)
    ensures CivilFromYearDay(MarchYear(date.year, date.month),
                             MonthStart(MarchMonth(date.month)) + date.day - 1) == date
  {
    MonthLengthMeans(date.year, date.month);
    MonthFound(MarchYear(date.year, date.month), MarchMonth(date.month), date.day - 1);
  }

  lemma DateFound(date: Date, era: int, yoe: nat, doy: nat, days: int)
    requires ValidDate(date) && yoe < 400 && MarchYear(date.year, date.month) == yoe + era * 400
    requires doy == MonthStart(MarchMonth(date.month)) + date.day - 1 && doy < YearLength(yoe)
    requires days == era * 146_097 + YearStart(yoe) + doy - 719_468
    ensures CivilFromDays(days) == date
  {
    DayFound(era, yoe, doy, days);
    MonthDayFound(date);
  }

  /** Every valid date comes back from its day number. */
  lemma CivilFromDaysInverts(date: Date)
    requires ValidDate(date)
    ensures CivilFromDays(DaysFromCivil(date.year, date.month, date.day)) == date
  {
    var y, doy := MarchYear(date.year, date.month), MonthStart(MarchMonth(date.month)) + date.day - 1;
    DaysFromCivilMeans(date.year, date.month, date.day);
    DayOfYearMeans(date);
    DateFound(date, y / 400, y % 400, doy, DaysFromCivil(date.year, date.month, date.day));
  }

  /** Every integer is the day number of a valid date. */
  lemma DaysFromCivilInverts(days: int)
    ensures var date := CivilFromDays(days);
            ValidDate(date) && DaysFromCivil(date.year, date.month, date.day) == days
  {
    var era, doe := (days + 719_468) / 146_097, (days + 719_468) % 146_097;
    DayOfYear(doe);
    var yoe := YearOf(doe);
    var doy := doe - YearStart(yoe);
    DayFound(era, yoe, doy, days);
    YearDayIsValid(era, yoe, doy);
  }

  lemma YearDayIsValid(era: int, yoe: nat, doy: nat)
    requires yoe < 400 && doy < YearLength(yoe)
    ensures var date := CivilFromYearDay(yoe + era * 400, doy);
            && ValidDate(date)
            && DaysFromCivil(date.year, date.month, date.day) == era * 146_097 + YearStart(yoe) + doy - 719_468
  {
    var mp, y := MonthOf(doy), yoe + era * 400;
    DayOfMonth(doy);
    MonthFound(y, mp, doy - MonthStart(mp));
    var date := CivilFromYearDay(y, doy);
    assert MarchYear(date.year, date.month) == y && MarchMonth(date.month) == mp;
    assert y / 400 == era && y % 400 == yoe;
    MonthLengthMeans(date.year, date.month);
    DaysFromCivilMeans(date.year, date.month, date.day);
  }

  // ----- the calendar

  /** The day after, by the rules of the calendar. */
  function NextDate(date: Date): Date {
    if date.day < DaysInMonth(date.year, date.month) then date.(day := date.day + 1)
    else if date.month < 12 then Date(date.year, date.month + 1, 1)
    else Date(date.year + 1, 1, 1)
  }

  lemma NextYear(y: int)
    ensures EraDays(y + 1) == EraDays(y) + YearLength(y % 400)
  {
    var yoe := y % 400;
    if yoe < 399 {
      assert (y + 1) / 400 == y / 400 && (y + 1) % 400 == yoe + 1;
      NextYearWithin(yoe);
    } else {
      assert (y + 1) / 400 == y / 400 + 1 && (y + 1) % 400 == 0;
      assert YearStart(399) + YearLength(399) == 146_097;
    }
  }

  lemma NextYearWithin(yoe: nat)
    requires yoe < 399
    ensures YearStart(yoe + 1) == YearStart(yoe) + YearLength(yoe)
  {
    var c, q, r := yoe / 100, yoe % 100 / 4, yoe % 4;
    assert yoe == 100 * c + 4 * q + r;
    NextYearOfEra(c, q, r);
  }

  lemma NextYearOfEra(c: nat, q: nat, r: nat)
    requires c < 4 && q < 25 && r < 4 && 100 * c + 4 * q + r < 399
    ensures YearStart(100 * c + 4 * q + r + 1) == YearStart(100 * c + 4 * q + r) + YearLength(100 * c + 4 * q + r)
  {
    YearStartMeans(c, q, r);
    if r < 3 {
      YearStartMeans(c, q, r + 1);
    } else if q < 24 {
      YearStartMeans(c, q + 1, 0);
    } else {
      YearStartMeans(c + 1, 0, 0);
    }
  }

  lemma NextDateIsValid(date: Date)
    requires ValidDate(date)
    ensures ValidDate(NextDate(date))
  {
  }

  /** Day numbers count the days of the calendar. */
  lemma DaysFollowCalendar(date: Date)
    requires ValidDate(date)
    ensures var next := NextDate(date);
            DaysFromCivil(next.year, next.month, next.day) == DaysFromCivil(date.year, date.month, date.day) + 1
  {
    var next := NextDate(date);
    NextDateIsValid(date);
    DaysFromCivilMeans(date.year, date.month, date.day);
    DaysFromCivilMeans(next.year, next.month, next.day);
    NextDayOfYear(date);
  }

  /** The day of the calendar, by March years. */
  function MarchNumber(date: Date): int
    requires 1 <= date.month <= 12
  {
    EraDays(MarchYear(date.year, date.month)) + MonthStart(MarchMonth(date.month)) + date.day
  }

  lemma NextDayOfYear(date: Date)
    requires ValidDate(date)
    ensures ValidDate(NextDate(date)) && MarchNumber(NextDate(date)) == MarchNumber(date) + 1
  {
    NextDateIsValid(date);
    if date.day == DaysInMonth(date.year, date.month) {
      if date.month == 2 {
        AfterFebruary(date.year);
      } else {
        AfterMonth(date.year, date.month);
      }
    }
  }

  lemma AfterFebruary(year: int)
    ensures MarchNumber(Date(year, 3, 1)) == MarchNumber(Date(year, 2, DaysInMonth(year, 2))) + 1
  {
    MonthLengthMeans(year, 2);
    NextYear(year - 1);
  }

  lemma AfterMonth(year: int, m: int)
    requires 1 <= m <= 12 && m != 2
    ensures var next := if m == 12 then Date(year + 1, 1, 1) else Date(year, m + 1, 1);
            MarchNumber(next) == MarchNumber(Date(year, m, DaysInMonth(year, m))) + 1
  {
    MonthLengthMeans(year, m);
    NextMonth(m);
  }

  lemma NextMonth(m: int)
    requires 1 <= m <= 12 && m != 2
    ensures MarchMonth(if m == 12 then 1 else m + 1) == MarchMonth(m) + 1
  {
  }

  /** The days are counted from the first of January 1970. */
  lemma EpochIsDayZero()
    ensures DaysFromCivil(1970, 1, 1) == 0
  {
    DaysFromCivilMeans(1970, 1, 1);
    MarchOf1969();
  }

  lemma MarchOf1969()
    ensures EraDays(1969) == -306
  {
    assert 1969 / 400 == 4 && 1969 % 400 == 369;
    YearStartMeans(3, 17, 1);
  }

  /** The copy in crates/esl-agent/src/remotewrite.rs. */
  function DaysFromCivilCopy(year: int, m: int, d: int): int {
    var y := if m <= 2 then year - 1 else year;
    var era := TruncDiv(if y >= 0 then y else y - 399, 400);
    var yoe := y - era * 400;
    var doy := (153 * (if m > 2 then m - 3 else m + 9) + 2) / 5 + d - 1;
    var doe := yoe * 365 + yoe / 4 - yoe / 100 + doy;
    era * 146_097 + doe - 719_468
  }

  lemma CopiesAgree(year: int, m: int, d: int)
    requires 1 <= m <= 12
    ensures DaysFromCivilCopy(year, m, d) == DaysFromCivil(year, m, d)
  {
    assert (m + 9) % 12 == MarchMonth(m);
  }
}
