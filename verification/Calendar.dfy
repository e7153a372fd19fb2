/** libraries/RTC/RTCInt.cpp: the carry chain of the RTC interrupt and the closed-form Rata Die
    day number, against the Gregorian calendar counted out day by day. */
module Calendar {

  // ---- The Gregorian calendar, counted -------------------------------------------------------

  predicate Leap(y: nat) { y % 4 == 0 && (y % 100 != 0 || y % 400 == 0) }

  /** Years the driver takes for leap years although they are not. */
  predicate ShortCentury(y: nat) { y % 100 == 0 && y % 400 != 0 }

  function MonthLength(y: nat, m: nat): nat
    requires 1 <= m <= 12
  {
    if m == 2 then (if Leap(y) then 29 else 28)
    else if m == 4 || m == 6 || m == 9 || m == 11 then 30
    else 31
  }

  function YearLength(y: nat): nat { if Leap(y) then 366 else 365 }

  /** Days from 1 January of year 1 to 1 January of year `y`. */
  function DaysBeforeYear(y: nat): nat
    requires y >= 1
  {
    if y == 1 then 0 else DaysBeforeYear(y - 1) + YearLength(y - 1)
  }

  function DaysBeforeMonth(y: nat, m: nat): nat
    requires 1 <= m <= 13
  {
    if m == 1 then 0 else DaysBeforeMonth(y, m - 1) + MonthLength(y, m - 1)
  }

  predicate Gregorian(y: int, m: int, d: int) {
    y >= 1 && 1 <= m <= 12 && 1 <= d <= MonthLength(y, m)
  }

  // ---- The code ---------------------------------------------------------------------------

  /** `RTCInt::rdn`. */
  function Rdn(y: int, m: int, d: int): int {
    var y', m' := if m < 3 then y - 1 else y, if m < 3 then m + 12 else m;
    365 * y' + y' / 4 - y' / 100 + y' / 400 + (153 * m' - 457) / 5 + d - 306
  }

  const DAYS_PER_MONTH: seq<(nat, nat)> := [
    (32, 32), (29, 30), (32, 32), (31, 31), (32, 32), (31, 31),
    (32, 32), (32, 32), (31, 31), (32, 32), (31, 31), (32, 32)
  ]

  /** The table entry the interrupt compares the new day with. */
  function DayLimit(y: nat, m: nat): nat
    requires 1 <= m <= 12
  {
    if y % 4 == 0 then DAYS_PER_MONTH[m - 1].1 else DAYS_PER_MONTH[m - 1].0
  }

  datatype Clock = Clock(count: nat, second: nat, minute: nat, hour: nat, day: nat, month: nat, year: nat)

  predicate ValidTime(c: Clock) { c.count < 8 && c.second < 60 && c.minute < 60 && c.hour < 24 }

  /** A date the carry chain can be in. */
  predicate Running(c: Clock) {
    ValidTime(c) && c.year >= 1 && 1 <= c.month <= 12 && 1 <= c.day < DayLimit(c.year, c.month)
  }

  /** A date that exists. */
  predicate Real(c: Clock) { ValidTime(c) && Gregorian(c.year, c.month, c.day) }

  /** Eighths of a second since the epoch of Rata Die. */
  function Instant(c: Clock): int {
    8 * (86400 * Rdn(c.year, c.month, c.day) + 3600 * c.hour + 60 * c.minute + c.second) + c.count
  }

  predicate LastTickOfDay(c: Clock) { c.count == 7 && c.second == 59 && c.minute == 59 && c.hour == 23 }

  class RTCInt {
    var count: nat
    var second: nat
    var minute: nat
    var hour: nat
    var day: nat
    var month: nat
    var year: nat

    function View(): Clock
      reads this
    {
      Clock(count, second, minute, hour, day, month, year)
    }

    /** The tick part of `RTC2_IRQHandler`. */
    method Tick()
      requires Running(View())
      modifies this
      ensures View() == Ticked(old(View())) && Running(View())
    {
      count := count + 1;
      if count == 8 {
        count := 0;
        second := second + 1;
        if second == 60 {
          second := 0;
          minute := minute + 1;
          if minute == 60 {
            minute := 0;
            hour := hour + 1;
            if hour == 24 {
              hour := 0;
              day := day + 1;
              if day == DayLimit(year, month) {
                day := 1;
                month := month + 1;
                if month == 13 {
                  month := 1;
                  year := year + 1;
                }
              }
            }
          }
        }
      }
      NestedCarry(old(View()));
      TickAddsOne(old(View()));
      hide Ticked, DayLimit, Rdn, Running;
    }
  }

  /** The midnight on which a day number is counted twice. */
  predicate Repeats(c: Clock) { LastTickOfDay(c) && c.month == 2 && c.day == 29 && ShortCentury(c.year) }

  /** The midnight on which the date stops being a date. */
  predicate Leaves(c: Clock) { LastTickOfDay(c) && c.month == 2 && c.day == 28 && ShortCentury(c.year) }

  function NextDay(c: Clock): Clock
    requires 1 <= c.month <= 12
  {
    if c.day + 1 != DayLimit(c.year, c.month) then c.(day := c.day + 1)
    else if c.month != 12 then c.(day := 1, month := c.month + 1)
    else c.(day := 1, month := 1, year := c.year + 1)
  }

  /** One tick: the time of day counts in base (8, 60, 60, 24), and midnight takes the next day. */
  function Ticked(c: Clock): Clock
    requires Running(c)
  {
    if LastTickOfDay(c) then NextDay(c.(count := 0, second := 0, minute := 0, hour := 0))
    else
      var t := 8 * (3600 * c.hour + 60 * c.minute + c.second) + c.count + 1;
      c.(count := t % 8, second := t / 8 % 60, minute := t / 480 % 60, hour := t / 28800)
  }

  // ---- The closed form --------------------------------------------------------------------------

  lemma QuotientsStep(n: nat)
    ensures (n + 1) / 4 == n / 4 + if (n + 1) % 4 == 0 then 1 else 0
    ensures (n + 1) / 100 == n / 100 + if (n + 1) % 100 == 0 then 1 else 0
    ensures (n + 1) / 400 == n / 400 + if (n + 1) % 400 == 0 then 1 else 0
  {}

  /** Centuries are fourth years and four-centuries are centuries. */
  lemma Multiples(y: nat)
    ensures y % 100 == 0 ==> y % 4 == 0
    ensures y % 400 == 0 ==> y % 100 == 0
  {
    assert y % 100 == 0 ==> y == 4 * (25 * (y / 100));
    assert y % 400 == 0 ==> y == 100 * (4 * (y / 400));
  }

  lemma {:induction false} DaysBeforeYearIs(y: nat)
    requires y >= 1
    ensures DaysBeforeYear(y) == 365 * (y - 1) + (y - 1) / 4 - (y - 1) / 100 + (y - 1) / 400
  {
    if y > 1 {
      DaysBeforeYearIs(y - 1);
      QuotientsStep(y - 2);
      Multiples(y - 1);
    }
  }

  lemma DaysBeforeMonthIs(y: nat, m: nat)
    requires 1 <= m <= 13
    ensures DaysBeforeMonth(y, m) ==
            [0, 31, 59, 90, 120, 151, 181, 212, 243, 273, 304, 334, 365][m - 1] + if m > 2 && Leap(y) then 1 else 0
  {
    if m > 1 {
      DaysBeforeMonthIs(y, m - 1);
    }
  }

  /** The month term of the formula: days from 1 March to the first of month `m`, March being 3. */
  lemma MonthTerm(m: nat)
    requires 3 <= m <= 14
    ensures (153 * m - 457) / 5 == [0, 31, 61, 92, 122, 153, 184, 214, 245, 275, 306, 337][m - 3]
  {}

  /** The year terms of the formula count the days to 1 January of the next year. */
  lemma RdnByYears(y: int, m: int, d: int)
    requires y >= 1
    ensures Rdn(y, m, d) == if m < 3 then DaysBeforeYear(y) + (153 * (m + 12) - 457) / 5 + d - 306
                            else DaysBeforeYear(y + 1) + (153 * m - 457) / 5 + d - 306
  {
    DaysBeforeYearIs(y);
    DaysBeforeYearIs(y + 1);
    hide DaysBeforeYear;
  }

  /** The formula is the day count: Rata Die day one is 1 January of year 1. */
  lemma RdnCountsDays(y: nat, m: nat, d: int)
    requires y >= 1 && 1 <= m <= 12
    ensures Rdn(y, m, d) == DaysBeforeYear(y) + DaysBeforeMonth(y, m) + d
  {
    hide Rdn, DaysBeforeMonth, Leap;
    RdnByYears(y, m, d);
    MonthTerm(if m < 3 then m + 12 else m);
    DaysBeforeMonthIs(y, m);
  }

  lemma RdnNextDay(c: Clock)
    requires Running(c)
    ensures var n := NextDay(c);
            Rdn(n.year, n.month, n.day) == Rdn(c.year, c.month, c.day)
              + if c.month == 2 && c.day == 29 && ShortCentury(c.year) then 0 else 1
  {
    hide Rdn, DayLimit, Leap;
    var n := NextDay(c);
    LimitIsLength(c.year, c.month);
    RdnCountsDays(c.year, c.month, c.day);
    RdnCountsDays(n.year, n.month, n.day);
    if n.year == c.year {
      DaysBeforeMonthStep(c.year, c.month, n.month);
    } else {
      YearIsItsMonths(c.year);
    }
    if c.month == 2 {
      ShortCenturyFebruary(c.year);
    }
  }

  lemma DaysBeforeMonthStep(y: nat, m: nat, m': nat)
    requires 1 <= m <= 12 && (m' == m || m' == m + 1)
    ensures DaysBeforeMonth(y, m') == DaysBeforeMonth(y, m) + if m' == m then 0 else MonthLength(y, m)
  {}

  lemma YearIsItsMonths(y: nat)
    requires y >= 1
    ensures DaysBeforeYear(y + 1) == DaysBeforeYear(y) + DaysBeforeMonth(y, 12) + MonthLength(y, 12)
    ensures DaysBeforeMonth(y + 1, 1) == 0
  {
    DaysBeforeMonthIs(y, 12);
  }

  lemma ShortCenturyFebruary(y: nat)
    ensures ShortCentury(y) ==> MonthLength(y, 2) == 28
  {}

  lemma LimitIsLength(y: nat, m: nat)
    requires 1 <= m <= 12
    ensures DayLimit(y, m) == MonthLength(y, m) + 1 + if m == 2 && ShortCentury(y) then 1 else 0
  {
    Multiples(y);
  }

  /** Exactly one kind of tick does not add one, and exactly one kind leaves the calendar. */
  lemma TickAddsOne(c: Clock)
    requires Running(c)
    ensures Running(Ticked(c))
    ensures Instant(Ticked(c)) == Instant(c) + 1 - if Repeats(c) then 8 * 86400 else 0
    ensures Real(c) ==> (Real(Ticked(c)) <==> !Leaves(c))
  {
    hide Rdn, DayLimit;
    LimitIsLength(c.year, c.month);
    if LastTickOfDay(c) {
      RdnNextDay(c.(count := 0, second := 0, minute := 0, hour := 0));
      TomorrowIsReal(c.(count := 0, second := 0, minute := 0, hour := 0));
    } else {
      TimeAdvances(c);
    }
  }

  lemma TomorrowIsReal(c: Clock)
    requires Running(c)
    ensures Running(NextDay(c))
    ensures Real(c) ==> (Real(NextDay(c)) <==> !(c.month == 2 && c.day == 28 && ShortCentury(c.year)))
  {
    LimitIsLength(c.year, c.month);
    if c.month < 12 {
      LimitIsLength(c.year, c.month + 1);
    }
  }

  /** The nested carries of the interrupt, spelled out. */
  lemma NestedCarry(c: Clock)
    requires Running(c)
    ensures Ticked(c) ==
      if c.count + 1 != 8 then c.(count := c.count + 1)
      else if c.second + 1 != 60 then c.(count := 0, second := c.second + 1)
      else if c.minute + 1 != 60 then c.(count := 0, second := 0, minute := c.minute + 1)
      else if c.hour + 1 != 24 then c.(count := 0, second := 0, minute := 0, hour := c.hour + 1)
      else
        var z := c.(count := 0, second := 0, minute := 0, hour := 0);
        if c.day + 1 != DayLimit(c.year, c.month) then z.(day := c.day + 1)
        else if c.month + 1 != 13 then z.(day := 1, month := c.month + 1)
        else z.(day := 1, month := 1, year := c.year + 1)
  {
    if !LastTickOfDay(c) {
      TimeAdvances(c);
      hide Ticked;
    }
  }

  /** Reading a time of day back from its digits in base (24, 60, 60, 8). */
  lemma Digits(h: nat, m: nat, s: nat, c: nat)
    requires m < 60 && s < 60 && c < 8
    ensures var t := 8 * (3600 * h + 60 * m + s) + c;
            t % 8 == c && t / 8 % 60 == s && t / 480 % 60 == m && t / 28800 == h
  {
    var t := 8 * (3600 * h + 60 * m + s) + c;
    Split(3600 * h + 60 * m + s, 8, c);
    Split(60 * h + m, 60, s);
    Split(60 * h + m, 480, 8 * s + c);
    Split(h, 60, m);
    Split(h, 28800, 480 * m + 8 * s + c);
  }

  lemma Split(q: nat, k: nat, r: nat)
    requires r < k && k in {8, 60, 480, 28800}
    ensures (k * q + r) / k == q && (k * q + r) % k == r
  {}

  lemma TimeAdvances(c: Clock)
    requires Running(c) && !LastTickOfDay(c)
    ensures var r := Carried(c);
            Ticked(c) == c.(hour := r.0, minute := r.1, second := r.2, count := r.3)
  {
    var (h, m, s, k) := Carried(c);
    Digits(h, m, s, k);
  }

  /** The digits after one more tick within the day. */
  function Carried(c: Clock): (r: (nat, nat, nat, nat))
    requires ValidTime(c) && !LastTickOfDay(c)
    ensures r.0 < 24 && r.1 < 60 && r.2 < 60 && r.3 < 8
    ensures 8 * (3600 * r.0 + 60 * r.1 + r.2) + r.3 == 8 * (3600 * c.hour + 60 * c.minute + c.second) + c.count + 1
  {
    if c.count < 7 then (c.hour, c.minute, c.second, c.count + 1)
    else if c.second < 59 then (c.hour, c.minute, c.second + 1, 0)
    else if c.minute < 59 then (c.hour, c.minute + 1, 0, 0)
    else (c.hour + 1, 0, 0, 0)
  }

  // ---- The formula names each day once ------------------------------------------------------------

  lemma {:induction false} YearsAscend(y: nat, y': nat)
    requires 1 <= y < y'
    ensures DaysBeforeYear(y) + YearLength(y) <= DaysBeforeYear(y')
    decreases y' - y
  {
    if y + 1 < y' {
      YearsAscend(y + 1, y');
      assert DaysBeforeYear(y + 1) == DaysBeforeYear(y) + YearLength(y);
    }
  }

  lemma {:induction false} MonthsAscend(y: nat, m: nat, m': nat)
    requires 1 <= m < m' <= 13
    ensures DaysBeforeMonth(y, m) + MonthLength(y, m) <= DaysBeforeMonth(y, m')
    decreases m' - m
  {
    if m + 1 < m' {
      MonthsAscend(y, m + 1, m');
      assert DaysBeforeMonth(y, m + 1) == DaysBeforeMonth(y, m) + MonthLength(y, m);
    }
  }

  lemma DayOfYearInYear(y: nat, m: nat, d: nat)
    requires y >= 1 && Gregorian(y, m, d)
    ensures 1 <= DaysBeforeMonth(y, m) + d <= YearLength(y)
  {
    MonthsAscend(y, m, 13);
    DaysBeforeMonthIs(y, 13);
  }

  /** Two dates with the same day number are the same date. */
  lemma RdnInjective(y: nat, m: nat, d: nat, y': nat, m': nat, d': nat)
    requires Gregorian(y, m, d) && Gregorian(y', m', d') && Rdn(y, m, d) == Rdn(y', m', d')
    ensures y == y' && m == m' && d == d'
  {
    hide Rdn, Leap, YearLength, MonthLength;
    RdnCountsDays(y, m, d);
    RdnCountsDays(y', m', d');
    DayOfYearInYear(y, m, d);
    DayOfYearInYear(y', m', d');
    if y < y' { YearsAscend(y, y'); }
    if y' < y { YearsAscend(y', y); }
    if m < m' { MonthsAscend(y, m, m'); }
    if m' < m { MonthsAscend(y, m', m); }
  }

  /** Two real clock readings with the same instant are the same reading. */
  lemma InstantInjective(c: Clock, c': Clock)
    requires Real(c) && Real(c') && Instant(c) == Instant(c')
    ensures c == c'
  {
    hide Rdn, Gregorian;
    var a, b := Rdn(c.year, c.month, c.day), Rdn(c'.year, c'.month, c'.day);
    var t := 8 * (3600 * c.hour + 60 * c.minute + c.second) + c.count;
    var t' := 8 * (3600 * c'.hour + 60 * c'.minute + c'.second) + c'.count;
    assert 691200 * a + t == 691200 * b + t' && 0 <= t < 691200 && 0 <= t' < 691200;
    assert a == b && t == t';
    Digits(c.hour, c.minute, c.second, c.count);
    Digits(c'.hour, c'.minute, c'.second, c'.count);
    RdnInjective(c.year, c.month, c.day, c'.year, c'.month, c'.day);
  }

  // ---- Whole runs ---------------------------------------------------------------------------------

  function After(c: Clock, n: nat): (r: Clock)
    requires Running(c)
    ensures Running(r)
  {
    if n == 0 then c
    else
      TickAddsOne(After(c, n - 1));
      Ticked(After(c, n - 1))
  }

  lemma RealRuns(c: Clock)
    requires Real(c)
    ensures Running(c)
  {
    LimitIsLength(c.year, c.month);
  }

  /** The instant at which 1 March of a short century should begin. */
  function MissedMidnight(y: int): int { 8 * 86400 * Rdn(y, 3, 1) }

  ghost predicate Crosses(from: int, n: nat) {
    exists y: nat :: y >= 1 && ShortCentury(y) && from < MissedMidnight(y) <= from + n
  }

  /** The clock shows the real date and time `n` ticks after `c`. */
  ghost predicate OnTime(c: Clock, n: nat)
    requires Running(c)
  {
    Real(After(c, n)) && Instant(After(c, n)) == Instant(c) + n
  }

  lemma {:induction false} NeverAhead(c: Clock, n: nat)
    requires Running(c)
    ensures Instant(After(c, n)) <= Instant(c) + n
  {
    hide Instant, Running;
    if n > 0 {
      NeverAhead(c, n - 1);
      TickAddsOne(After(c, n - 1));
    }
  }

  /** The tick that leaves the calendar is the one that reaches such a midnight. */
  lemma LeavesAtMidnight(c: Clock, y: nat)
    requires Real(c) && y >= 1 && ShortCentury(y)
    ensures Leaves(c) && c.year == y <==> Instant(c) + 1 == MissedMidnight(y)
  {
    var eve := Clock(7, 59, 59, 23, 28, 2, y);
    ShortCenturyFebruary(y);
    RdnCountsDays(y, 3, 1);
    RdnCountsDays(y, 2, 28);
    DaysBeforeMonthStep(y, 2, 3);
    hide Rdn, Leap;
    assert Instant(eve) + 1 == MissedMidnight(y);
    if Instant(c) + 1 == MissedMidnight(y) {
      InstantInjective(c, eve);
    }
  }

  /** A reading that is not real is a 29 February that does not exist. */
  lemma NotReal(c: Clock)
    requires Running(c) && !Real(c)
    ensures c.month == 2 && c.day == 29 && ShortCentury(c.year)
  {
    LimitIsLength(c.year, c.month);
  }

  /** One more tick stays on time exactly when it reaches no missed midnight. */
  lemma OnTimeStep(c: Clock, n: nat)
    requires Real(c) && Running(c)
    ensures OnTime(c, n + 1) <==>
              && OnTime(c, n)
              && forall y: nat :: y >= 1 && ShortCentury(y) ==> MissedMidnight(y) != Instant(c) + n + 1
  {
    var s := After(c, n);
    TickAddsOne(s);
    NeverAhead(c, n);
    hide Instant, Running, ShortCentury;
    assert After(c, n + 1) == Ticked(s);
    if OnTime(c, n) {
      forall y: nat | y >= 1 && ShortCentury(y)
        ensures Leaves(s) && s.year == y <==> Instant(s) + 1 == MissedMidnight(y)
      {
        LeavesAtMidnight(s, y);
      }
      assert !Repeats(s) by { RealIsNotMissing(s); }
    } else if !Real(s) {
      NotReal(s);
      StuckOnMissingDay(s);
    }
  }

  lemma RealIsNotMissing(c: Clock)
    requires Real(c)
    ensures !(c.month == 2 && c.day == 29 && ShortCentury(c.year))
  {
    if ShortCentury(c.year) { ShortCenturyFebruary(c.year); }
  }

  lemma StuckOnMissingDay(c: Clock)
    requires Running(c) && c.month == 2 && c.day == 29 && ShortCentury(c.year)
    ensures Repeats(c) || !Real(Ticked(c))
  {
    if !LastTickOfDay(c) {
      TimeAdvances(c);
      hide Ticked;
      ShortCenturyFebruary(c.year);
    }
  }

  /** Exact condition over whole runs: from a real date the clock is right after `n` ticks if and
      only if no 29 February of a short century was due in between. */
  lemma {:induction false} OnTimeIff(c: Clock, n: nat)
    requires Real(c)
    ensures Running(c) && (OnTime(c, n) <==> !Crosses(Instant(c), n))
  {
    hide Instant, ShortCentury;
    RealRuns(c);
    if n > 0 {
      OnTimeIff(c, n - 1);
      OnTimeStep(c, n - 1);
    }
  }

  /** On the eve of every such midnight the next tick shows a 29 February that does not exist. */
  lemma EveGoesWrong(y: nat)
    requires y >= 1 && ShortCentury(y)
    ensures var c := Clock(7, 59, 59, 23, 28, 2, y);
            Real(c) && Running(c) && !OnTime(c, 1) && Ticked(c) == Clock(0, 0, 0, 0, 29, 2, y)
  {
    hide Instant, Leap;
    ShortCenturyFebruary(y);
    LimitIsLength(y, 2);
    var c := Clock(7, 59, 59, 23, 28, 2, y);
    assert After(c, 0) == c;
    assert After(c, 1) == Ticked(c);
  }

  /** The failing family is not empty: the last tick of 28 February 2100. */
  lemma ShortCenturyCounterexample()
    ensures var c := Clock(7, 59, 59, 23, 28, 2, 2100);
            Real(c) && Running(c) && !OnTime(c, 1) && Ticked(c) == Clock(0, 0, 0, 0, 29, 2, 2100)
  {
    hide Instant, Leap, Running, Real, OnTime, Ticked;
    EveGoesWrong(2100);
  }
}
