/**
 Gregorian day arithmetic of platform/src/platform_time.c: days_from_civil, tm_epoch_sec
 and the time-zone offset, for all years.
 */
module CivilTime {

  const UINT := 0x1_0000_0000

  /** C division truncates toward zero. */
  function TruncDiv(a: int, b: int): int
    requires b > 0
  {
    if a >= 0 then a / b else -((-a) / b)
  }

  datatype Date = Date(y: int, m: int, d: int)

  /** days_from_civil; the month arithmetic is on `unsigned`, where adding (unsigned)-3 wraps. */
  function DaysFromCivil(date: Date): int {
    var y := if date.m <= 2 then date.y - 1 else date.y;
    var era := TruncDiv(if y >= 0 then y else y - 399, 400);
    var yoe := y - era * 400;
    var mp := (date.m + (if date.m > 2 then UINT - 3 else 9)) % UINT;
    var doy := (153 * mp + 2) / 5 + date.d - 1;
    var doe := yoe * 365 + yoe / 4 - yoe / 100 + doy;
    era * 146097 + doe - 719468
  }

  // ---------------------------------------------------------------------------------
  // The Gregorian calendar

  predicate IsLeap(y: int) {
    y % 4 == 0 && (y % 100 != 0 || y % 400 == 0)
  }

  function DaysInMonth(y: int, m: int): (n: int)
    requires 1 <= m <= 12
    ensures 28 <= n <= 31
  {
    if m == 2 then (if IsLeap(y) then 29 else 28)
    else if m == 4 || m == 6 || m == 9 || m == 11 then 30 else 31
  }

  predicate IsDate(date: Date) {
    1 <= date.m <= 12 && 1 <= date.d <= DaysInMonth(date.y, date.m)
  }

  /** The following day. */
  function Next(date: Date): (r: Date)
    requires IsDate(date)
    ensures IsDate(r)
  {
    if date.d < DaysInMonth(date.y, date.m) then date.(d := date.d + 1)
    else if date.m < 12 then Date(date.y, date.m + 1, 1)
    else Date(date.y + 1, 1, 1)
  }

  /** The preceding day. */
  function Previous(date: Date): (r: Date)
    requires IsDate(date)
    ensures IsDate(r)
  {
    if date.d > 1 then date.(d := date.d - 1)
    else if date.m > 1 then Date(date.y, date.m - 1, DaysInMonth(date.y, date.m - 1))
    else Date(date.y - 1, 12, 31)
  }

  predicate Earlier(a: Date, b: Date) {
    a.y < b.y || (a.y == b.y && (a.m < b.m || (a.m == b.m && a.d < b.d)))
  }

  const EPOCH := Date(1970, 1, 1)

  // ---------------------------------------------------------------------------------
  // The formula counts days

  /** Days before 1 March of year `y`, up to a constant. */
  function MarchDays(y: int): int {
    365 * y + y / 4 - y / 100 + y / 400
  }

  lemma EraIsFloor(y: int)
    ensures TruncDiv(if y >= 0 then y else y - 399, 400) == y / 400
  {
  }

  lemma YearFormula(y: int)
    ensures var era := y / 400; var yoe := y - era * 400;
            0 <= yoe < 400 && era * 146097 + yoe * 365 + yoe / 4 - yoe / 100 == MarchDays(y)
  {
    var era := y / 400;
    var yoe := y - era * 400;
    assert y == 400 * era + yoe && 0 <= yoe < 400;
    assert y / 4 == 100 * era + yoe / 4;
    assert y / 100 == 4 * era + yoe / 100;
  }

  /** Days from 1 March to the first of month `m`. */
  function MonthDays(m: int): int {
    (153 * (if m > 2 then m - 3 else m + 9) + 2) / 5
  }

  lemma Formula(date: Date)
    requires 1 <= date.m <= 12
    ensures DaysFromCivil(date)
         == MarchDays(if date.m <= 2 then date.y - 1 else date.y) + MonthDays(date.m) + date.d - 719469
  {
    var y := if date.m <= 2 then date.y - 1 else date.y;
    EraIsFloor(y);
    YearFormula(y);
    MonthIndex(date.m);
    hide TruncDiv, MarchDays;
  }

  /** The unsigned month arithmetic does not wrap. */
  lemma MonthIndex(m: int)
    requires 1 <= m <= 12
    ensures (m + (if m > 2 then UINT - 3 else 9)) % UINT == if m > 2 then m - 3 else m + 9
  {
  }

  /** A year is as long as the calendar says. */
  lemma YearLength(y: int)
    ensures MarchDays(y) - MarchDays(y - 1) == if IsLeap(y) then 366 else 365
  {
    EveryFour(y);
    EveryHundred(y);
    EveryFourHundred(y);
    assert y % 400 == 0 ==> y % 100 == 0 by { Nested(y); }
    assert y % 100 == 0 ==> y % 4 == 0 by { Nested(y); }
  }

  lemma EveryFour(y: int) ensures y / 4 - (y - 1) / 4 == if y % 4 == 0 then 1 else 0 {}
  lemma EveryHundred(y: int) ensures y / 100 - (y - 1) / 100 == if y % 100 == 0 then 1 else 0 {}
  lemma EveryFourHundred(y: int) ensures y / 400 - (y - 1) / 400 == if y % 400 == 0 then 1 else 0 {}

  lemma Nested(y: int)
    ensures y % 400 == 0 ==> y % 100 == 0
    ensures y % 100 == 0 ==> y % 4 == 0
  {
    if y % 400 == 0 { Hundreds(4 * (y / 400)); }
    if y % 100 == 0 { Fours(25 * (y / 100)); }
  }

  lemma Hundreds(k: int) ensures (100 * k) % 100 == 0 {}
  lemma Fours(k: int) ensures (4 * k) % 4 == 0 {}

  lemma EpochIsZero()
    ensures DaysFromCivil(EPOCH) == 0
  {
  }

  /** Every day is followed by a day numbered one more, across month ends, leap days and
      year ends, in all years. */
  lemma NextIsOneMore(date: Date)
    requires IsDate(date)
    ensures DaysFromCivil(Next(date)) == DaysFromCivil(date) + 1
  {
    hide DaysFromCivil, MarchDays, MonthDays, IsLeap;
    Formula(date);
    Formula(Next(date));
    YearLength(date.y);
    MonthLength(date.m);
  }

  /** The fifth-of-153 rule gives the month lengths; February ends the shifted year. */
  lemma MonthLength(m: int)
    requires 1 <= m <= 12
    ensures m == 2 ==> MonthDays(m) == 337 && MonthDays(m + 1) == 0
    ensures m == 12 ==> MonthDays(1) - MonthDays(m) == 31
    ensures m != 2 && m != 12 ==>
            MonthDays(m + 1) - MonthDays(m) == if m == 4 || m == 6 || m == 9 || m == 11 then 30 else 31
  {
  }

  lemma PreviousUndoesNext(date: Date)
    requires IsDate(date)
    ensures Next(Previous(date)) == date && Previous(Next(date)) == date
  {
  }

  lemma PreviousIsOneLess(date: Date)
    requires IsDate(date)
    ensures DaysFromCivil(Previous(date)) == DaysFromCivil(date) - 1
  {
    PreviousUndoesNext(date);
    NextIsOneMore(Previous(date));
  }

  /** The date with a given day number, found by counting days from the epoch. */
  function CivilOf(n: int): (date: Date)
    ensures IsDate(date)
    decreases if n >= 0 then n else -n
  {
    if n == 0 then EPOCH else if n > 0 then Next(CivilOf(n - 1)) else Previous(CivilOf(n + 1))
  }

  lemma {:induction false} DaysOfCivil(n: int)
    ensures DaysFromCivil(CivilOf(n)) == n
    decreases if n >= 0 then n else -n
  {
    if n == 0 {
      EpochIsZero();
    } else if n > 0 {
      DaysOfCivil(n - 1);
      NextIsOneMore(CivilOf(n - 1));
    } else {
      DaysOfCivil(n + 1);
      PreviousIsOneLess(CivilOf(n + 1));
    }
  }

  lemma {:induction false} CivilOfDays(date: Date)
    requires IsDate(date)
    ensures CivilOf(DaysFromCivil(date)) == date
  {
    var other := CivilOf(DaysFromCivil(date));
    DaysOfCivil(DaysFromCivil(date));
    if Earlier(date, other) {
      LaterIsMore(date, other);
    } else if Earlier(other, date) {
      LaterIsMore(other, date);
    }
  }

  // Day numbers grow with the date

  lemma WithinMonth(date: Date)
    requires IsDate(date)
    ensures DaysFromCivil(date) == DaysFromCivil(date.(d := 1)) + date.d - 1
  {
    hide DaysFromCivil, MarchDays, MonthDays;
    Formula(date);
    Formula(date.(d := 1));
  }

  lemma MonthAfter(y: int, m: int)
    requires 1 <= m < 12
    ensures DaysFromCivil(Date(y, m + 1, 1)) == DaysFromCivil(Date(y, m, 1)) + DaysInMonth(y, m)
  {
    hide DaysFromCivil;
    var last := Date(y, m, DaysInMonth(y, m));
    WithinMonth(last);
    NextIsOneMore(last);
  }

  lemma YearAfter(y: int)
    ensures DaysFromCivil(Date(y + 1, 1, 1)) == DaysFromCivil(Date(y, 12, 1)) + 31
  {
    hide DaysFromCivil;
    WithinMonth(Date(y, 12, 31));
    NextIsOneMore(Date(y, 12, 31));
  }

  lemma {:induction false} LaterMonth(y: int, m: int, n: int)
    requires 1 <= m <= n <= 12
    ensures DaysFromCivil(Date(y, n, 1)) >= DaysFromCivil(Date(y, m, 1)) + 28 * (n - m)
    decreases n - m
  {
    hide DaysFromCivil;
    if m < n {
      LaterMonth(y, m, n - 1);
      MonthAfter(y, n - 1);
    }
  }

  lemma {:induction false} LaterYear(y: int, z: int)
    requires y <= z
    ensures DaysFromCivil(Date(z, 1, 1)) >= DaysFromCivil(Date(y, 1, 1)) + 300 * (z - y)
    decreases z - y
  {
    hide DaysFromCivil;
    if y < z {
      LaterYear(y, z - 1);
      LaterMonth(z - 1, 1, 12);
      YearAfter(z - 1);
    }
  }

  /** Within a year, a date lies before the next new year. */
  lemma BeforeNewYear(date: Date)
    requires IsDate(date)
    ensures DaysFromCivil(Date(date.y, 1, 1)) <= DaysFromCivil(date) < DaysFromCivil(Date(date.y + 1, 1, 1))
  {
    hide DaysFromCivil;
    WithinMonth(date);
    LaterMonth(date.y, 1, date.m);
    YearAfter(date.y);
    if date.m < 12 {
      MonthAfter(date.y, date.m);
      LaterMonth(date.y, date.m + 1, 12);
    }
  }

  lemma LaterIsMore(a: Date, b: Date)
    requires IsDate(a) && IsDate(b) && Earlier(a, b)
    ensures DaysFromCivil(a) < DaysFromCivil(b)
  {
    hide DaysFromCivil, IsLeap;
    if a.y < b.y {
      BeforeNewYear(a);
      BeforeNewYear(b);
      LaterYear(a.y + 1, b.y);
    } else {
      WithinMonth(a);
      WithinMonth(b);
      if a.m < b.m {
        MonthAfter(a.y, a.m);
        LaterMonth(a.y, a.m + 1, b.m);
      }
    }
  }

  // ---------------------------------------------------------------------------------
  // Broken-down time

  datatype Tm = Tm(date: Date, hour: int, min: int, sec: int)

  predicate IsTm(t: Tm) {
    IsDate(t.date) && 0 <= t.hour < 24 && 0 <= t.min < 60 && 0 <= t.sec < 60
  }

  /** tm_epoch_sec: the fields read literally, without a time zone. */
  function TmEpochSec(t: Tm): int {
    DaysFromCivil(t.date) * 86400 + t.hour * 3600 + t.min * 60 + t.sec
  }

  /** A tick of the clock. */
  function NextSecond(t: Tm): (r: Tm)
    requires IsTm(t)
    ensures IsTm(r)
  {
    if t.sec < 59 then t.(sec := t.sec + 1)
    else if t.min < 59 then t.(sec := 0, min := t.min + 1)
    else if t.hour < 23 then t.(sec := 0, min := 0, hour := t.hour + 1)
    else Tm(Next(t.date), 0, 0, 0)
  }

  /** The second after any time, in any year, is numbered one more, and the epoch is 0. */
  lemma NextSecondIsOneMore(t: Tm)
    requires IsTm(t)
    ensures TmEpochSec(NextSecond(t)) == TmEpochSec(t) + 1
    ensures TmEpochSec(Tm(Date(1970, 1, 1), 0, 0, 0)) == 0
  {
    EpochIsZero();
    hide DaysFromCivil;
    NextIsOneMore(t.date);
  }

  /** What gmtime makes of a second count. */
  function Breakdown(sec: int): (t: Tm)
    ensures IsTm(t)
  {
    var rest := sec % 86400;
    Tm(CivilOf(sec / 86400), rest / 3600, rest % 3600 / 60, rest % 60)
  }

  /** The broken-down form and the second count determine each other, for all years. */
  lemma EpochRoundTrip(sec: int, t: Tm)
    ensures TmEpochSec(Breakdown(sec)) == sec
    ensures IsTm(t) ==> Breakdown(TmEpochSec(t)) == t
  {
    hide DaysFromCivil, CivilOf;
    DaysOfCivil(sec / 86400);
    if IsTm(t) {
      CivilOfDays(t.date);
      var rest := t.hour * 3600 + t.min * 60 + t.sec;
      DayAndRest(DaysFromCivil(t.date), rest);
      Clock(t.hour, t.min, t.sec);
    }
  }

  lemma DayAndRest(n: int, rest: int)
    requires 0 <= rest < 86400
    ensures (n * 86400 + rest) / 86400 == n && (n * 86400 + rest) % 86400 == rest
  {
  }

  lemma Clock(h: int, m: int, s: int)
    requires 0 <= h && 0 <= m < 60 && 0 <= s < 60
    ensures var r := h * 3600 + m * 60 + s; r / 3600 == h && r % 3600 / 60 == m && r % 60 == s
  {
    var low := m * 60 + s;
    assert (h * 3600 + low) / 3600 == h && (h * 3600 + low) % 3600 == low;
    assert low / 60 == m;
    assert ((h * 60 + m) * 60 + s) % 60 == s;
  }

  /** airy_time_tz_offset, given the second count and its local broken-down form. */
  function TzOffset(now: int, local: Tm): int {
    TmEpochSec(local) - now
  }

  /** The offset of any zone is recovered exactly. */
  lemma OffsetRecovered(now: int, offset: int)
    ensures TzOffset(now, Breakdown(now + offset)) == offset
  {
    hide TmEpochSec, Breakdown, IsTm;
    EpochRoundTrip(now + offset, Breakdown(0));
  }
}
