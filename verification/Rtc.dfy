/** The calendar of the real-time clock (kernel/src/rtc.rs): the closed formula for the seconds since
    the epoch ("Seconds Since the Epoch", section 4.16 of POSIX.1-2017 Base Definitions) against
    counting days one by one. */
module Rtc {

  predicate IsLeap(y: nat) {
    (y % 4 == 0 && y % 100 != 0) || y % 400 == 0
  }

  function DaysInMonth(y: nat, m: nat): (d: nat) {
    if m == 2 then if IsLeap(y) then 29 else 28
    else if m == 4 || m == 6 || m == 9 || m == 11 then 30
    else 31
  }

  datatype Date = Date(year: nat, month: nat, day: nat) {
    predicate Valid() {
      year >= 1970 && 1 <= month <= 12 && 1 <= day <= DaysInMonth(year, month)
    }

    /** Calendar order. */
    predicate Before(d: Date) {
      year < d.year || (year == d.year && (month < d.month || (month == d.month && day < d.day)))
    }
  }

  const EPOCH: Date := Date(1970, 1, 1)

  datatype DateTime = DateTime(date: Date, hour: nat, minute: nat, second: nat) {
    predicate Valid() {
      date.Valid() && hour < 24 && minute < 60 && second < 60
    }

    predicate Before(t: DateTime) {
      date.Before(t.date) || (date == t.date &&
        (hour < t.hour || (hour == t.hour && (minute < t.minute || (minute == t.minute && second < t.second)))))
    }
  }

  // ----- counting days -----

  /** The day before. */
  function PreviousDay(d: Date): (p: Date)
    requires d.Valid() && d != EPOCH
    ensures p.Valid() && p.Before(d)
  {
    if d.day > 1 then d.(day := d.day - 1)
    else if d.month > 1 then Date(d.year, d.month - 1, DaysInMonth(d.year, d.month - 1))
    else Date(d.year - 1, 12, 31)
  }

  /** The days since the epoch, one by one. */
  ghost function DaysSince(d: Date): nat
    requires d.Valid()
    decreases d.year, d.month, d.day
  {
    if d == EPOCH then 0 else 1 + DaysSince(PreviousDay(d))
  }

  // ----- the formula -----

  /** The day number of the formula: years start in March. */
  function DayNumber(d: Date): int
    requires 1 <= d.month <= 12
  {
    var y := if d.month <= 2 then d.year as int - 1 else d.year;
    var era := y / 400;
    var yoe := y - era * 400;
    var mp := (d.month + 9) % 12;
    var doy := (153 * mp + 2) / 5 + d.day - 1;
    var doe := yoe * 365 + yoe / 4 - yoe / 100 + doy;
    era * 146_097 + doe - 719_468
  }

  /** Seconds since 1970-01-01 00:00:00 UTC. */
  function Unix(t: DateTime): int
    requires 1 <= t.date.month <= 12
  {
    DayNumber(t.date) * 86_400 + t.hour * 3600 + t.minute * 60 + t.second
  }

  /** The days of the years before year `y`, which starts in March. */
  function YearDays(y: int): int {
    var era := y / 400;
    var yoe := y - era * 400;
    era * 146_097 + yoe * 365 + yoe / 4 - yoe / 100
  }

  lemma Era4(era: nat, yoe: nat)
    ensures (400 * era + yoe) / 4 == 100 * era + yoe / 4
  {
  }

  lemma Era100(era: nat, yoe: nat)
    ensures (400 * era + yoe) / 100 == 4 * era + yoe / 100
  {
  }

  lemma YearDaysIs(y: int)
    requires y >= 0
    ensures YearDays(y) == 365 * y + y / 4 - y / 100 + y / 400
  {
    var era := y / 400;
    var yoe := y - era * 400;
    Era4(era, yoe);
    Era100(era, yoe);
  }

  /** One more year: the quotients by 4, 100 and 400 go up at their multiples. */
  lemma QuotientStep(y: nat)
    requires y >= 1
    ensures y / 4 - (y - 1) / 4 == if y % 4 == 0 then 1 else 0
    ensures y / 100 - (y - 1) / 100 == if y % 100 == 0 then 1 else 0
    ensures y / 400 - (y - 1) / 400 == if y % 400 == 0 then 1 else 0
  {
  }

  lemma Fours(k: nat)
    ensures (4 * k) % 4 == 0
  {
  }

  lemma Hundreds(q: nat)
    ensures (100 * q) % 4 == 0
  {
    Fours(25 * q);
    assert 100 * q == 4 * (25 * q);
  }

  lemma FourHundreds(q: nat)
    ensures (400 * q) % 100 == 0
  {
    assert 400 * q == 100 * (4 * q);
  }

  lemma Multiples(y: nat)
    ensures y % 400 == 0 ==> y % 100 == 0
    ensures y % 100 == 0 ==> y % 4 == 0
  {
    Hundreds(y / 100);
    FourHundreds(y / 400);
  }

  /** A year that starts in March has a 29 February at its end when the next calendar year is leap. */
  lemma YearStep(y: nat)
    requires y >= 1
    ensures YearDays(y) - YearDays(y - 1) == if IsLeap(y) then 366 else 365
  {
    hide YearDays;
    YearDaysIs(y);
    YearDaysIs(y - 1);
    QuotientStep(y);
    Multiples(y);
  }

  function MonthDays(m: nat): int {
    (153 * ((m + 9) % 12) + 2) / 5
  }

  lemma DayNumberIs(d: Date)
    requires 1 <= d.month <= 12
    ensures DayNumber(d) == YearDays(if d.month <= 2 then d.year as int - 1
            else d.year) + MonthDays(d.month) + d.day - 1 - 719_468
  {
  }

  lemma MonthStep(y: nat, m: nat)
    requires 2 <= m <= 12
    ensures m != 3 ==> MonthDays(m) == MonthDays(m - 1) + DaysInMonth(y, m - 1)
    ensures m == 3 ==> MonthDays(m) == 0 && MonthDays(2) == 337
    ensures MonthDays(1) == MonthDays(12) + 31
  {
  }

  /** From one day to the next the formula goes up by one. */
  lemma NextDay(d: Date)
    requires d.Valid() && d != EPOCH
    ensures DayNumber(d) == DayNumber(PreviousDay(d)) + 1
  {
    hide YearDays, MonthDays, DayNumber;
    DayNumberIs(d);
    DayNumberIs(PreviousDay(d));
    if d.day == 1 {
      if d.month == 1 {
        MonthStep(d.year, 2);
      } else {
        MonthStep(d.year, d.month);
        if d.month == 3 { YearStep(d.year); }
      }
    }
  }

  /** For every date the formula is the count of days. */
  lemma {:induction false} DayNumberCounts(d: Date)
    requires d.Valid()
    ensures DayNumber(d) == DaysSince(d)
    decreases d.year, d.month, d.day
  {
    if d != EPOCH {
      NextDay(d);
      DayNumberCounts(PreviousDay(d));
    }
  }

  /** Counting from the epoch, a later day has a larger number. */
  lemma {:induction false} LaterDay(a: Date, b: Date)
    requires a.Valid() && b.Valid() && a.Before(b)
    ensures DaysSince(a) < DaysSince(b)
    decreases b.year, b.month, b.day
  {
    var p := PreviousDay(b);
    if a != p {
      LaterDay(a, p);
    }
  }

  /** `unix` is 86400 times the days counted one by one, plus the time of day. */
  lemma UnixCounts(t: DateTime)
    requires t.Valid()
    ensures Unix(t) == 86_400 * DaysSince(t.date) + t.hour * 3600 + t.minute * 60 + t.second >= 0
  {
    DayNumberCounts(t.date);
  }

  /** `unix` is strictly increasing in calendar order. */
  lemma UnixIncreases(a: DateTime, b: DateTime)
    requires a.Valid() && b.Valid() && a.Before(b)
    ensures Unix(a) < Unix(b)
  {
    UnixCounts(a);
    UnixCounts(b);
    if a.date.Before(b.date) { LaterDay(a.date, b.date); }
  }
}
