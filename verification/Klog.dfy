/**
 The year of a klog line, which carries none (`try_parse_klog` and `klog_unix_nanos` in
 crates/esl-agent/src/kubernetescollector.rs). Times are nanoseconds since 1970-01-01.
 */
module Klog {
  import opened CivilDates
  import opened Integers

  const SECOND: int := 1_000_000_000
  const DAY: int := 86_400 * SECOND

  datatype Stamp = Stamp(month: int, day: int, hour: int, minute: int, second: int, micros: int)

  /** What the parser of the line accepts: the day is checked against a leap year. */
  predicate ValidStamp(kt: Stamp) {
    && 1 <= kt.month <= 12 && 1 <= kt.day <= DaysInMonth(0, kt.month)
    && 0 <= kt.hour <= 23 && 0 <= kt.minute <= 59 && 0 <= kt.second <= 59 && 0 <= kt.micros < 1_000_000
  }

  function KlogUnixNanos(year: int, kt: Stamp): int {
    NanosAt(DaysFromCivil(year, kt.month, kt.day), kt)
  }

  function NanosAt(days: int, kt: Stamp): int {
    var secs := days * 86_400 + kt.hour * 3_600 + kt.minute * 60 + kt.second;
    secs * 1_000_000_000 + kt.micros * 1_000
  }

  function YearAt(now: int): int {
    CivilFromDays(now / DAY).year
  }

  /** The time of the line in each year. */
  function Times(kt: Stamp): int -> int {
    year => KlogUnixNanos(year, kt)
  }

  /** The timestamp given to a line that is read at `now`. */
  function ChooseTimestamp(kt: Stamp, now: int): int {
    Chosen(Times(kt), YearAt(now), now)
  }

  /** The time in the current year, or in the year before if that is more than a day ahead. */
  function Chosen(times: int -> int, year: int, now: int): int {
    var timestamp := times(year);
    if timestamp - 24 * 3600 * 1_000_000_000 > now then times(year - 1) else timestamp
  }

  // ----- the choice, whatever the times in the years are

  /** The times of consecutive years are 365 or 366 days apart. */
  ghost predicate Yearly(times: int -> int) {
    && (forall y, z :: y < z ==> times(y) + 365 * DAY <= times(z))
    && (forall y, z :: z == y + 1 ==> times(z) <= times(y) + 366 * DAY)
  }

  /** The time of the last year is over, and this year's is less than 366 days ago. */
  ghost predicate Around(times: int -> int, year: int, now: int) {
    times(year - 1) < now && now - 366 * DAY < times(year)
  }

  /** No year puts the line later without putting it more than a day ahead. */
  ghost predicate Latest(times: int -> int, now: int, timestamp: int) {
    forall year :: times(year) <= now + DAY ==> times(year) <= timestamp
  }

  lemma ChosenIsNear(times: int -> int, year: int, now: int)
    requires Yearly(times) && Around(times, year, now)
    ensures now - 366 * DAY < Chosen(times, year, now) <= now + DAY
  {
    var last, current := times(year - 1), times(year);
    assert current <= last + 366 * DAY;
  }

  lemma LatestExactly(times: int -> int, year: int, now: int)
    requires Yearly(times)
    ensures Latest(times, now, Chosen(times, year, now)) <==> times(year + 1) > now + DAY
  {
    var last, current, next := times(year - 1), times(year), times(year + 1);
    assert last < current < next;
    if next > now + DAY {
      forall y | times(y) <= now + DAY
        ensures times(y) <= Chosen(times, year, now)
      {
        if y < year - 1 {
          assert times(y) + 365 * DAY <= last;
        }
      }
    }
  }

  // ----- days within a year

  lemma NextYearIsLater(year: int, m: int, d: int)
    requires 1 <= m <= 12
    ensures 365 <= DaysFromCivil(year + 1, m, d) - DaysFromCivil(year, m, d) <= 366
  {
    assert MarchYear(year + 1, m) == MarchYear(year, m) + 1;
    NextEraDays(MarchYear(year, m));
    DaysFromCivilMeans(year, m, d);
    DaysFromCivilMeans(year + 1, m, d);
  }

  lemma NextEraDays(y: int)
    ensures 365 <= EraDays(y + 1) - EraDays(y) <= 366
  {
    NextYear(y);
  }

  lemma {:induction false} LaterYear(m: int, d: int, year: int, later: int)
    requires 1 <= m <= 12 && year < later
    ensures DaysFromCivil(year, m, d) + 365 <= DaysFromCivil(later, m, d)
    decreases later - year
  {
    NextYearIsLater(later - 1, m, d);
    if year < later - 1 {
      LaterYear(m, d, year, later - 1);
    }
  }

  /** January and February are the end of a March year. */
  lemma MarchDay(m: int, d: int)
    requires 1 <= m <= 12 && 1 <= d <= DaysInMonth(0, m)
    ensures var doy := MonthStart(MarchMonth(m)) + d - 1;
            if m > 2 then 0 <= doy <= 305 else 306 <= doy <= 365 && (doy == 306 <==> m == 1 && d == 1)
  {
  }

  /** The day is one of its year even if it is a leap day and the year has none. */
  lemma DayWithinYear(year: int, m: int, d: int)
    requires 1 <= m <= 12 && 1 <= d <= DaysInMonth(0, m)
    ensures EraDays(year - 1) + 306 <= DaysFromCivil(year, m, d) < EraDays(year) + 306
    ensures DaysFromCivil(year, m, d) == EraDays(year - 1) + 306 <==> m == 1 && d == 1
  {
    DaysFromCivilMeans(year, m, d);
    MarchDay(m, d);
    NextYear(year - 1);
  }

  /** A leap day is the first of March in other years. */
  lemma LeapDayNormalizes(year: int)
    requires !IsLeapYear(year)
    ensures DaysFromCivil(year, 2, 29) == DaysFromCivil(year, 3, 1)
  {
    DaysFromCivilMeans(year, 2, 29);
    DaysFromCivilMeans(year, 3, 1);
    NextYear(year - 1);
    LeapYearOfEra(year - 1);
  }

  ghost predicate InYear(today: int, year: int) {
    EraDays(year - 1) + 306 <= today < EraDays(year) + 306
  }

  lemma TodayInYear(today: int)
    ensures InYear(today, CivilFromDays(today).year)
  {
    DaysFromCivilInverts(today);
    DateInYear(CivilFromDays(today), today);
  }

  lemma DateInYear(date: Date, today: int)
    requires ValidDate(date) && DaysFromCivil(date.year, date.month, date.day) == today
    ensures InYear(today, date.year)
  {
    DayWithinYear(date.year, date.month, date.day);
  }

  lemma DayOfThisYear(today: int, year: int, m: int, d: int)
    requires InYear(today, year) && 1 <= m <= 12 && 1 <= d <= DaysInMonth(0, m)
    ensures today - 365 <= DaysFromCivil(year, m, d)
  {
    DayWithinYear(year, m, d);
    NextYear(year - 1);
  }

  lemma DayOfLastYear(today: int, year: int, m: int, d: int)
    requires InYear(today, year) && 1 <= m <= 12 && 1 <= d <= DaysInMonth(0, m)
    ensures DaysFromCivil(year - 1, m, d) < today
  {
    DayWithinYear(year - 1, m, d);
  }

  lemma DayOfNextYear(today: int, year: int, m: int, d: int)
    requires InYear(today, year) && 1 <= m <= 12 && 1 <= d <= DaysInMonth(0, m)
    ensures DaysFromCivil(year + 1, m, d) > today + 1 || (m == 1 && d == 1)
  {
    DayWithinYear(year + 1, m, d);
  }

  // ----- times

  lemma TimeWithinDay(days: int, kt: Stamp)
    requires ValidStamp(kt)
    ensures days * DAY <= NanosAt(days, kt) < (days + 1) * DAY
  {
    var within := (kt.hour * 3_600 + kt.minute * 60 + kt.second) * SECOND + kt.micros * 1_000;
    assert 0 <= within < DAY;
    assert NanosAt(days, kt) == days * DAY + within;
  }

  lemma SecondsReadBack(n: int, secs: int, micros: int)
    requires n == secs * 1_000_000_000 + micros * 1_000 && 0 <= micros < 1_000_000
    ensures n / SECOND == secs && n % SECOND / 1_000 == micros
  {
  }

  lemma ClockReadsBack(secs: int, days: int, hour: int, minute: int, second: int)
    requires secs == days * 86_400 + hour * 3_600 + minute * 60 + second
    requires 0 <= hour <= 23 && 0 <= minute <= 59 && 0 <= second <= 59
    ensures secs % 60 == second && secs / 60 % 60 == minute && secs / 3_600 % 24 == hour && secs / 86_400 == days
  {
    var mins := days * 1_440 + hour * 60 + minute;
    assert secs / 60 == mins;
    assert secs / 3_600 == days * 24 + hour;
  }

  /** Day and time of day can be told from the nanoseconds. */
  lemma NanosReadBack(days: int, kt: Stamp)
    requires ValidStamp(kt)
    ensures var n := NanosAt(days, kt);
            var secs := n / SECOND;
            && n % SECOND / 1_000 == kt.micros
            && secs % 60 == kt.second && secs / 60 % 60 == kt.minute && secs / 3_600 % 24 == kt.hour
            && secs / 86_400 == days
  {
    var secs := days * 86_400 + kt.hour * 3_600 + kt.minute * 60 + kt.second;
    SecondsReadBack(NanosAt(days, kt), secs, kt.micros);
    ClockReadsBack(secs, days, kt.hour, kt.minute, kt.second);
  }

  /** Day and time one microsecond later, as a clock shows it. */
  function Tick(days: int, kt: Stamp): (int, Stamp) {
    if kt.micros < 999_999 then (days, kt.(micros := kt.micros + 1))
    else if kt.second < 59 then (days, kt.(micros := 0, second := kt.second + 1))
    else if kt.minute < 59 then (days, kt.(micros := 0, second := 0, minute := kt.minute + 1))
    else if kt.hour < 23 then (days, kt.(micros := 0, second := 0, minute := 0, hour := kt.hour + 1))
    else (days + 1, kt.(micros := 0, second := 0, minute := 0, hour := 0))
  }

  /** Nanoseconds are counted from the beginning of day 0, and every microsecond has 1000 of them. */
  lemma NanosTick(days: int, kt: Stamp)
    requires ValidStamp(kt)
    ensures var (next, time) := Tick(days, kt); NanosAt(next, time) == NanosAt(days, kt) + 1_000
    ensures kt.hour == kt.minute == kt.second == kt.micros == 0 ==> NanosAt(0, kt) == 0
  {
    var (next, time) := Tick(days, kt);
    var secs := days * 86_400 + kt.hour * 3_600 + kt.minute * 60 + kt.second;
    var later := next * 86_400 + time.hour * 3_600 + time.minute * 60 + time.second;
    assert later == if kt.micros < 999_999 then secs else secs + 1;
  }

  lemma DaysApart(days: int, later: int, kt: Stamp)
    ensures NanosAt(later, kt) - NanosAt(days, kt) == (later - days) * DAY
  {
  }

  /** A time on a day near today. */
  lemma TimeNear(days: int, today: int, now: int, kt: Stamp)
    requires ValidStamp(kt) && today * DAY <= now < (today + 1) * DAY
    ensures today - 365 <= days ==> now - 366 * DAY < NanosAt(days, kt)
    ensures days < today ==> NanosAt(days, kt) < now
    ensures days > today + 1 ==> NanosAt(days, kt) > now + DAY
  {
    TimeWithinDay(days, kt);
  }

  lemma TodayMeans(now: int)
    ensures now / DAY * DAY <= now < (now / DAY + 1) * DAY
  {
  }

  lemma TimesApart(kt: Stamp, y: int, z: int)
    requires ValidStamp(kt)
    ensures y < z ==> KlogUnixNanos(y, kt) + 365 * DAY <= KlogUnixNanos(z, kt)
    ensures z == y + 1 ==> KlogUnixNanos(z, kt) <= KlogUnixNanos(y, kt) + 366 * DAY
  {
    var early, late := DaysFromCivil(y, kt.month, kt.day), DaysFromCivil(z, kt.month, kt.day);
    if y < z {
      LaterYear(kt.month, kt.day, y, z);
    }
    if z == y + 1 {
      NextYearIsLater(y, kt.month, kt.day);
    }
    DaysApart(early, late, kt);
  }

  lemma TimesAreYearly(kt: Stamp)
    requires ValidStamp(kt)
    ensures Yearly(Times(kt))
  {
    var times := Times(kt);
    forall y, z
      ensures y < z ==> times(y) + 365 * DAY <= times(z)
      ensures z == y + 1 ==> times(z) <= times(y) + 366 * DAY
    {
      TimesApart(kt, y, z);
    }
  }

  lemma TimeThisYear(year: int, today: int, now: int, kt: Stamp)
    requires ValidStamp(kt) && InYear(today, year) && today * DAY <= now < (today + 1) * DAY
    ensures now - 366 * DAY < KlogUnixNanos(year, kt)
  {
    DayOfThisYear(today, year, kt.month, kt.day);
    TimeNear(DaysFromCivil(year, kt.month, kt.day), today, now, kt);
  }

  lemma TimeLastYear(year: int, today: int, now: int, kt: Stamp)
    requires ValidStamp(kt) && InYear(today, year) && today * DAY <= now < (today + 1) * DAY
    ensures KlogUnixNanos(year - 1, kt) < now
  {
    DayOfLastYear(today, year, kt.month, kt.day);
    TimeNear(DaysFromCivil(year - 1, kt.month, kt.day), today, now, kt);
  }

  lemma TimeNextYear(year: int, today: int, now: int, kt: Stamp)
    requires ValidStamp(kt) && InYear(today, year) && today * DAY <= now < (today + 1) * DAY
    ensures KlogUnixNanos(year + 1, kt) > now + DAY || (kt.month == 1 && kt.day == 1)
  {
    DayOfNextYear(today, year, kt.month, kt.day);
    TimeNear(DaysFromCivil(year + 1, kt.month, kt.day), today, now, kt);
  }

  lemma ThisYearIsNear(kt: Stamp, now: int, year: int)
    requires ValidStamp(kt) && year == YearAt(now)
    ensures now - 366 * DAY < KlogUnixNanos(year, kt)
  {
    YearAtMeans(now);
    TodayMeans(now);
    TimeThisYear(year, now / DAY, now, kt);
  }

  lemma LastYearIsOver(kt: Stamp, now: int, year: int)
    requires ValidStamp(kt) && year == YearAt(now)
    ensures KlogUnixNanos(year - 1, kt) < now
  {
    YearAtMeans(now);
    TodayMeans(now);
    TimeLastYear(year, now / DAY, now, kt);
  }

  lemma YearAtMeans(now: int)
    ensures InYear(now / DAY, YearAt(now))
  {
    TodayInYear(now / DAY);
  }

  // ----- the choice

  /** The timestamp is less than 366 days old and at most a day ahead. */
  lemma ChosenIsNearNow(kt: Stamp, now: int)
    requires ValidStamp(kt)
    ensures now - 366 * DAY < ChooseTimestamp(kt, now) <= now + DAY
  {
    var year := YearAt(now);
    ThisYearIsNear(kt, now, year);
    LastYearIsOver(kt, now, year);
    TimesAreYearly(kt);
    ChosenIsNear(Times(kt), year, now);
  }

  /** The line is put as late as possible, unless the next year would do, which the source does not try. */
  lemma ChosenIsLatest(kt: Stamp, now: int, year: int)
    requires ValidStamp(kt) && year == YearAt(now)
    ensures Latest(Times(kt), now, ChooseTimestamp(kt, now)) <==> Times(kt)(year + 1) > now + DAY
  {
    TimesAreYearly(kt);
    LatestExactly(Times(kt), year, now);
  }

  /** The next year would do only for lines of its first day. */
  lemma NextYearIsFirstDay(kt: Stamp, now: int, year: int)
    requires ValidStamp(kt) && year == YearAt(now) && KlogUnixNanos(year + 1, kt) <= now + DAY
    ensures kt.month == 1 && kt.day == 1
  {
    YearAtMeans(now);
    TodayMeans(now);
    TimeNextYear(year, now / DAY, now, kt);
  }

  lemma NewYearIsNextDay(y: int)
    ensures DaysFromCivil(y + 1, 1, 1) == DaysFromCivil(y, 12, 31) + 1
  {
    DaysFollowCalendar(Date(y, 12, 31));
  }

  lemma LastDayIsInYear(y: int)
    ensures CivilFromDays(DaysFromCivil(y, 12, 31)).year == y
  {
    CivilFromDaysInverts(Date(y, 12, 31));
  }

  lemma LastHour(y: int, now: int)
    requires now == KlogUnixNanos(y, Stamp(12, 31, 23, 0, 0, 0))
    ensures YearAt(now) == y && KlogUnixNanos(y + 1, Stamp(1, 1, 0, 0, 0, 0)) == now + 3_600 * SECOND
  {
    NewYearIsNextDay(y);
    LastDayIsInYear(y);
    HourBeforeMidnight(DaysFromCivil(y, 12, 31), now);
  }

  lemma HourBeforeMidnight(days: int, now: int)
    requires now == NanosAt(days, Stamp(12, 31, 23, 0, 0, 0))
    ensures now / DAY == days && NanosAt(days + 1, Stamp(1, 1, 0, 0, 0, 0)) == now + 3_600 * SECOND
  {
    assert now == days * DAY + 23 * 3_600 * SECOND;
  }

  /** A line from the start of a year that is read an hour early is put a year back. */
  lemma NewYearIsPutBack(y: int, now: int, kt: Stamp)
    requires now == KlogUnixNanos(y, Stamp(12, 31, 23, 0, 0, 0)) && kt == Stamp(1, 1, 0, 0, 0, 0)
    ensures KlogUnixNanos(y + 1, kt) == now + 3_600 * SECOND
    ensures !Latest(Times(kt), now, ChooseTimestamp(kt, now))
  {
    LastHour(y, now);
    ChosenIsLatest(kt, now, y);
  }

  // ----- machine integers

  lemma EraDaysBounds(y: int)
    requires 1677 <= y <= 2261
    ensures -106_956 <= EraDays(y) <= 106_345
  {
    assert 4 <= y / 400 <= 5;
  }

  /** Nothing overflows 64 bits while the year is 1679 to 2261; the years around it are the last partly in range. */
  lemma NanosFit(year: int, kt: Stamp)
    requires 1678 <= year <= 2261 && ValidStamp(kt)
    ensures Int64(KlogUnixNanos(year, kt)) && Int64(KlogUnixNanos(year, kt) - DAY)
  {
    var days := DaysFromCivil(year, kt.month, kt.day);
    DayWithinYear(year, kt.month, kt.day);
    EraDaysBounds(year - 1);
    EraDaysBounds(year);
    DaysFit(days, kt);
  }

  lemma DaysFit(days: int, kt: Stamp)
    requires -106_650 <= days <= 106_650 && ValidStamp(kt)
    ensures Int64(NanosAt(days, kt)) && Int64(NanosAt(days, kt) - DAY)
  {
    TimeWithinDay(days, kt);
  }
}
