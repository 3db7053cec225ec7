/**
 UTC calendar arithmetic: Hinnant's `days_from_civil` and `civil_from_days`,
 and the calendar periods an allowance renews over.

 The independent reading is a calendar that is walked one day at a time from
 1970-01-01 (`NextDay`, `DateOfDay`). Everything proved about the formulas is
 proved against that walk.
 */
module Calendar {
  import opened Wrappers

  // --- the calendar, walked one day at a time --------------------------------

  datatype Date = Date(y: int, m: int, d: int)

  predicate IsLeap(y: int) {
    y % 4 == 0 && (y % 100 != 0 || y % 400 == 0)
  }

  function DaysInMonth(y: int, m: int): (n: int)
    requires 1 <= m <= 12
    ensures 28 <= n <= 31
  {
    if m == 2 then (if IsLeap(y) then 29 else 28)
    else if m == 4 || m == 6 || m == 9 || m == 11 then 30
    else 31
  }

  predicate ValidDate(t: Date) {
    1 <= t.m <= 12 && 1 <= t.d <= DaysInMonth(t.y, t.m)
  }

  function NextDay(t: Date): (u: Date)
    requires ValidDate(t)
    ensures ValidDate(u)
  {
    if t.d < DaysInMonth(t.y, t.m) then Date(t.y, t.m, t.d + 1)
    else if t.m < 12 then Date(t.y, t.m + 1, 1)
    else Date(t.y + 1, 1, 1)
  }

  const EPOCH := Date(1970, 1, 1)

  /** The date `n` steps of `NextDay` after 1970-01-01. */
  function DateOfDay(n: nat): (t: Date)
    ensures ValidDate(t)
  {
    if n == 0 then EPOCH else NextDay(DateOfDay(n - 1))
  }

  predicate Before(a: Date, b: Date) {
    a.y < b.y || (a.y == b.y && (a.m < b.m || (a.m == b.m && a.d < b.d)))
  }

  // --- the formulas ----------------------------------------------------------

  /** Rust's `/` on signed integers: towards zero. */
  function TruncDiv(a: int, b: int): int
    requires b > 0
  {
    if a >= 0 then a / b else -((-a) / b)
  }

  function DaysFromCivil(y: int, m: int, d: int): int {
    var y' := if m <= 2 then y - 1 else y;
    var era := TruncDiv(if y' >= 0 then y' else y' - 399, 400);
    var yoe := y' - era * 400;
    var mp := if m > 2 then m - 3 else m + 9;
    var doy := TruncDiv(153 * mp + 2, 5) + d - 1;
    var doe := yoe * 365 + TruncDiv(yoe, 4) - TruncDiv(yoe, 100) + doy;
    era * 146_097 + doe - 719_468
  }

  function CivilFromDays(days: int): Date {
    var z := days + 719_468;
    var era := TruncDiv(if z >= 0 then z else z - 146_096, 146_097);
    var doe := z - era * 146_097;
    var yoe := TruncDiv(doe - TruncDiv(doe, 1460) + TruncDiv(doe, 36_524) - TruncDiv(doe, 146_096), 365);
    var y := yoe + era * 400;
    var doy := doe - (365 * yoe + TruncDiv(yoe, 4) - TruncDiv(yoe, 100));
    var mp := TruncDiv(5 * doy + 2, 153);
    var d := doy - TruncDiv(153 * mp + 2, 5) + 1;
    var m := if mp < 10 then mp + 3 else mp - 9;
    Date(if m <= 2 then y + 1 else y, m, d)
  }

  function Days(t: Date): int {
    DaysFromCivil(t.y, t.m, t.d)
  }

  // --- the formulas count days -----------------------------------------------

  /** Days before the March-based year `y`, from 0000-03-01. */
  function YearStart(y: int): int {
    365 * y + y / 4 - y / 100 + y / 400
  }

  /** Days before the March-based month `mp` in its year. */
  function MonthStart(mp: int): int {
    (153 * mp + 2) / 5
  }

  lemma DaysSplit(y: int, m: int, d: int)
    requires 1 <= m <= 12
    ensures DaysFromCivil(y, m, d) ==
            YearStart(if m <= 2 then y - 1 else y) +
            MonthStart(if m > 2 then m - 3 else m + 9) + d - 1 - 719_468
  {
    var y' := if m <= 2 then y - 1 else y;
    var era := TruncDiv(if y' >= 0 then y' else y' - 399, 400);
    assert era == y' / 400;
    var yoe := y' - era * 400;
    assert 0 <= yoe < 400;
    assert y' / 100 == 4 * era + yoe / 100;
    assert y' / 4 == 100 * era + yoe / 4;
  }

  lemma YearLength(y: int)
    ensures YearStart(y + 1) - YearStart(y) == if IsLeap(y + 1) then 366 else 365
  {
    QuarterStep(y);
    CenturyStep(y);
    EraStep(y);
    LeapDivisors(y + 1);
  }

  lemma QuarterStep(y: int)
    ensures (y + 1) / 4 - y / 4 == if (y + 1) % 4 == 0 then 1 else 0
  {
  }

  lemma CenturyStep(y: int)
    ensures (y + 1) / 100 - y / 100 == if (y + 1) % 100 == 0 then 1 else 0
  {
  }

  lemma EraStep(y: int)
    ensures (y + 1) / 400 - y / 400 == if (y + 1) % 400 == 0 then 1 else 0
  {
  }

  lemma LeapDivisors(y: int)
    ensures (y % 100 == 0 ==> y % 4 == 0) && (y % 400 == 0 ==> y % 100 == 0)
  {
    assert y % 100 == 0 ==> y == 4 * (25 * (y / 100));
    assert y % 400 == 0 ==> y == 100 * (4 * (y / 400));
  }

  /** The day number `DaysSplit` arrives at, counted from 0000-03-01. */
  function DayNumber(t: Date): int {
    YearStart(if t.m <= 2 then t.y - 1 else t.y) + MonthStart(if t.m > 2 then t.m - 3 else t.m + 9) + t.d - 1
  }

  lemma MonthLength(m: int)
    requires 1 <= m <= 12 && m != 2
    ensures m != 12 ==> MonthStart(if m + 1 > 2 then m - 2 else m + 10) - MonthStart(if m > 2 then m - 3
            else m + 9) == DaysInMonth(0, m)
    ensures MonthStart(10) - MonthStart(9) == 31
  {
  }

  lemma DayNumberStep(t: Date)
    requires ValidDate(t)
    ensures DayNumber(NextDay(t)) == DayNumber(t) + 1
  {
    hide YearStart, MonthStart, IsLeap;
    if t.d < DaysInMonth(t.y, t.m) {
    } else if t.m == 2 {
      YearLength(t.y - 1);
      assert MonthStart(0) == 0 && MonthStart(11) == 337 by { MonthBounds(); }
    } else {
      MonthLength(t.m);
    }
  }

  lemma MonthBounds()
    ensures MonthStart(0) == 0 && MonthStart(11) == 337
  {
  }

  /** One step of the walk is one more day. */
  lemma DaysStep(t: Date)
    requires ValidDate(t)
    ensures Days(NextDay(t)) == Days(t) + 1
  {
    hide DaysFromCivil, YearStart, MonthStart, NextDay;
    var u := NextDay(t);
    DaysSplit(t.y, t.m, t.d);
    DaysSplit(u.y, u.m, u.d);
    DayNumberStep(t);
  }

  /** The formula equals the day-by-day count. */
  lemma {:induction false} DaysCount(n: nat)
    ensures Days(DateOfDay(n)) == n
  {
    if n == 0 {
      assert Days(EPOCH) == 0;
    } else {
      DaysCount(n - 1);
      DaysStep(DateOfDay(n - 1));
    }
  }

  // --- civil_from_days is the inverse ----------------------------------------

  /** The year-of-era estimate is exact for every day of a 400-year era. */
  lemma YearOfEra(yoe: int, doy: int, doe: int)
    requires 0 <= yoe < 400
    requires 0 <= doy < 365 || (doy == 365 && (yoe == 399 || (yoe % 4 == 3 && yoe % 100 != 99)))
    requires doe == 365 * yoe + yoe / 4 - yoe / 100 + doy
    ensures (doe - doe / 1460 + doe / 36_524 - doe / 146_096) / 365 == yoe
  {
    var c, r := yoe / 100, yoe % 100;
    var q, s := r / 4, r % 4;
    assert yoe / 4 == 25 * c + q;
    YearEstimate(c, q, s, doy, doe);
  }

  lemma YearEstimate(c: int, q: int, s: int, doy: int, doe: int)
    requires 0 <= c <= 3 && 0 <= q <= 24 && 0 <= s <= 3 && 0 <= doy <= 365
    requires doy == 365 ==> s == 3 && (q != 24 || c == 3)
    requires doe == 36_524 * c + 1461 * q + 365 * s + doy
    ensures 365 * (100 * c + 4 * q + s)
         <= doe - doe / 1460 + doe / 36_524 - doe / 146_096
          < 365 * (100 * c + 4 * q + s) + 365
  {
    var rem := 24 * c + q + 365 * s + doy;
    var f := 1461 * q + 365 * s + doy;
    assert doe / 1460 == 25 * c + q + (if rem >= 1460 then 1 else 0);
    assert doe / 36_524 == c + (if f >= 36_524 then 1 else 0);
    assert doe / 146_096 == (if doe >= 146_096 then 1 else 0);
  }

  lemma MonthOfYear(mp: int, d: int)
    requires 0 <= mp <= 11 && 1 <= d <= 31
    requires MonthStart(mp) + d - 1 < MonthStart(mp + 1)
    ensures (5 * (MonthStart(mp) + d - 1) + 2) / 153 == mp
  {
  }

  /** `civil_from_days` undoes `days_from_civil` on every valid date, before our era too. */
  lemma CivilInverse(t: Date)
    requires ValidDate(t)
    ensures CivilFromDays(Days(t)) == t
  {
    hide DaysFromCivil, CivilFromDays, YearStart, MonthStart, IsLeap, InEra;
    var y := if t.m <= 2 then t.y - 1 else t.y;
    var mp := if t.m > 2 then t.m - 3 else t.m + 9;
    DaysSplit(t.y, t.m, t.d);
    DayOfYearBound(t);
    EraSplit(y, MonthStart(mp) + t.d - 1);
    MonthOfYear(mp, t.d);
    CivilFromParts(y / 400, y % 400, MonthStart(mp) + t.d - 1, mp, t.d, Days(t));
  }

  /** Day `z` from 0000-03-01 is day `doy` of year `yoe` of the 400-year era `era`, and the
      day of the era determines that year. */
  predicate InEra(era: int, yoe: int, doy: int, z: int) {
    var doe := 365 * yoe + yoe / 4 - yoe / 100 + doy;
    && z == 146_097 * era + doe
    && 0 <= doe < 146_097
    && (doe - doe / 1460 + doe / 36_524 - doe / 146_096) / 365 == yoe
  }

  lemma EraSplit(y: int, doy: int)
    requires 0 <= doy <= 365 && (doy == 365 ==> IsLeap(y + 1))
    ensures InEra(y / 400, y % 400, doy, YearStart(y) + doy)
  {
    var era, yoe := y / 400, y % 400;
    EraDays(era, yoe);
    if doy == 365 {
      LeapInEra(era, yoe);
    }
    YearOfEra(yoe, doy, 365 * yoe + yoe / 4 - yoe / 100 + doy);
  }

  lemma EraDays(era: int, yoe: int)
    requires 0 <= yoe < 400
    ensures YearStart(400 * era + yoe) == 146_097 * era + 365 * yoe + yoe / 4 - yoe / 100
    ensures 365 * yoe + yoe / 4 - yoe / 100 <= 145_731
  {
    assert (400 * era + yoe) / 400 == era;
    assert (400 * era + yoe) / 100 == 4 * era + yoe / 100;
    assert (400 * era + yoe) / 4 == 100 * era + yoe / 4;
  }

  lemma LeapInEra(era: int, yoe: int)
    requires 0 <= yoe < 400 && IsLeap(400 * era + yoe + 1)
    ensures yoe == 399 || (yoe % 4 == 3 && yoe % 100 != 99)
  {
    AddEra(era, yoe + 1);
    LeapDivisors(yoe + 1);
  }

  lemma AddEra(era: int, r: int)
    ensures (400 * era + r) % 4 == r % 4 && (400 * era + r) % 100 == r % 100 && (400 * era + r) % 400 == r % 400
  {
    AddMod4(100 * era, r);
    AddMod100(4 * era, r);
    AddMod400(era, r);
  }

  lemma AddMod4(a: int, r: int)
    ensures (4 * a + r) % 4 == r % 4
  {
  }

  lemma AddMod100(a: int, r: int)
    ensures (100 * a + r) % 100 == r % 100
  {
  }

  lemma AddMod400(a: int, r: int)
    ensures (400 * a + r) % 400 == r % 400
  {
  }

  lemma EraFound(z: int, era: int, doe: int)
    requires z == 146_097 * era + doe && 0 <= doe < 146_097
    ensures TruncDiv(if z >= 0 then z else z - 146_096, 146_097) == era
  {
    if z >= 0 {
      assert z / 146_097 == era;
    } else {
      assert (146_096 - z) / 146_097 == -era;
    }
  }

  lemma YearFound(doe: int, yoe: int)
    requires 0 <= doe < 146_097 && 0 <= yoe < 400
    requires (doe - doe / 1460 + doe / 36_524 - doe / 146_096) / 365 == yoe
    ensures TruncDiv(doe - TruncDiv(doe, 1460) + TruncDiv(doe, 36_524) - TruncDiv(doe, 146_096), 365) == yoe
    ensures TruncDiv(yoe, 4) == yoe / 4 && TruncDiv(yoe, 100) == yoe / 100
  {
    assert doe / 1460 <= doe;
  }

  lemma MonthFound(doy: int, mp: int)
    requires 0 <= doy <= 365 && 0 <= mp <= 11 && (5 * doy + 2) / 153 == mp
    ensures TruncDiv(5 * doy + 2, 153) == mp && TruncDiv(153 * mp + 2, 5) == MonthStart(mp)
  {
  }

  lemma CivilFromParts(era: int, yoe: int, doy: int, mp: int, d: int, days: int)
    requires 0 <= yoe < 400 && 0 <= doy <= 365 && 0 <= mp <= 11 && 1 <= d <= 31
    requires InEra(era, yoe, doy, days + 719_468)
    requires doy == MonthStart(mp) + d - 1 && (5 * doy + 2) / 153 == mp
    ensures var m := if mp < 10 then mp + 3 else mp - 9;
            CivilFromDays(days) == Date(400 * era + yoe + (if m <= 2 then 1 else 0), m, d)
  {
    hide TruncDiv, MonthStart, CivilFromDays;
    var z, doe := days + 719_468, 365 * yoe + yoe / 4 - yoe / 100 + doy;
    EraFound(z, era, doe);
    YearFound(doe, yoe);
    MonthFound(doy, mp);
    CivilAssembled(days, era, doe, yoe, doy, mp, MonthStart(mp));
  }

  /** The parts put together, without another division. */
  lemma CivilAssembled(days: int, era: int, doe: int, yoe: int, doy: int, mp: int, start: int)
    requires var z := days + 719_468;
             TruncDiv(if z >= 0 then z else z - 146_096, 146_097) == era
    requires doe == days + 719_468 - era * 146_097
    requires TruncDiv(doe - TruncDiv(doe, 1460) + TruncDiv(doe, 36_524) - TruncDiv(doe, 146_096), 365) == yoe
    requires doy == doe - (365 * yoe + TruncDiv(yoe, 4) - TruncDiv(yoe, 100))
    requires TruncDiv(5 * doy + 2, 153) == mp && TruncDiv(153 * mp + 2, 5) == start
    ensures var m := if mp < 10 then mp + 3 else mp - 9;
            CivilFromDays(days) == Date(400 * era + yoe + (if m <= 2 then 1 else 0), m, doy - start + 1)
  {
    hide TruncDiv;
  }

  lemma DayOfYearBound(t: Date)
    requires ValidDate(t)
    ensures var y := if t.m <= 2 then t.y - 1 else t.y;
            var mp := if t.m > 2 then t.m - 3 else t.m + 9;
            var doy := MonthStart(mp) + t.d - 1;
            0 <= doy <= 365 && (doy == 365 ==> IsLeap(y + 1)) && doy < MonthStart(mp + 1)
  {
  }

  // --- the walk and the formulas are inverse bijections ----------------------

  lemma {:induction false} WalkFromEpoch(n: nat)
    ensures DateOfDay(n).y >= 1970
  {
    if n == 0 {
    } else {
      WalkFromEpoch(n - 1);
    }
  }

  /** `civil_from_days` is the date that many steps after the epoch. */
  lemma CivilFromDaysIsWalk(n: nat)
    ensures CivilFromDays(n) == DateOfDay(n)
  {
    WalkFromEpoch(n);
    DaysCount(n);
    CivilInverse(DateOfDay(n));
  }

  /** Every valid date from 1970 on is reached by the walk, after `days_from_civil` steps. */
  lemma DaysFromCivilIsWalk(t: Date)
    requires ValidDate(t) && t.y >= 1970
    ensures Days(t) >= 0 && DateOfDay(Days(t)) == t
  {
    hide DaysFromCivil, CivilFromDays, DateOfDay;
    DaysSplit(t.y, t.m, t.d);
    DaysNotNegative(t);
    CivilInverse(t);
    CivilFromDaysIsWalk(Days(t));
  }

  lemma DaysNotNegative(t: Date)
    requires ValidDate(t) && t.y >= 1970
    ensures DayNumber(t) >= 719_468
  {
    var y := if t.m <= 2 then t.y - 1 else t.y;
    YearStartMonotone(if t.m <= 2 then 1969 else 1970, y);
  }

  lemma {:induction false} YearStartMonotone(y: int, z: int)
    requires y <= z
    ensures YearStart(y) <= YearStart(z)
    decreases z - y
  {
    if y < z {
      YearLength(z - 1);
      YearStartMonotone(y, z - 1);
    }
  }

  lemma {:induction false} WalkIncreases(i: nat, j: nat)
    requires i < j
    ensures Before(DateOfDay(i), DateOfDay(j))
  {
    if i < j - 1 {
      WalkIncreases(i, j - 1);
    }
  }

  /** `days_from_civil` orders dates as the calendar does, both ways. */
  lemma DaysIncreasing(a: Date, b: Date)
    requires ValidDate(a) && a.y >= 1970 && ValidDate(b) && b.y >= 1970
    ensures Before(a, b) <==> Days(a) < Days(b)
  {
    DaysFromCivilIsWalk(a);
    DaysFromCivilIsWalk(b);
    if Days(a) < Days(b) {
      WalkIncreases(Days(a), Days(b));
    } else if Days(b) < Days(a) {
      WalkIncreases(Days(b), Days(a));
    }
  }

  // --- periods ---------------------------------------------------------------

  const DAY_MS: nat := 86_400_000

  datatype Per = Day | Week | Month | Quarter | Year | Once

  function StartDays(per: Per, days: int): int
    requires per != Once
  {
    var t := CivilFromDays(days);
    match per
    case Day => days
    case Week => days - (days + 3) % 7
    case Month => DaysFromCivil(t.y, t.m, 1)
    case Quarter => DaysFromCivil(t.y, TruncDiv(t.m - 1, 3) * 3 + 1, 1)
    case Year => DaysFromCivil(t.y, 1, 1)
  }

  /** The start of the period `now` falls in, in epoch milliseconds. */
  function PeriodStart(per: Per, now: nat): Option<nat> {
    if per == Once then None
    else
      var start := StartDays(per, now / DAY_MS);
      Some((if start > 0 then start else 0) * DAY_MS)
  }

  function NextFirst(y: int, m: int): int {
    if m > 12 then DaysFromCivil(y + 1, m - 12, 1) else DaysFromCivil(y, m, 1)
  }

  function EndDays(per: Per, days: int): int
    requires per != Once
  {
    var t := CivilFromDays(days);
    match per
    case Day => days + 1
    case Week => days + 7
    case Month => NextFirst(t.y, t.m + 1)
    case Quarter => NextFirst(t.y, t.m + 3)
    case Year => DaysFromCivil(t.y + 1, 1, 1)
  }

  /** When the period beginning at `start` is over. */
  function PeriodEnd(per: Per, start: nat): Option<int> {
    if per == Once then None else Some(EndDays(per, start / DAY_MS) * DAY_MS)
  }

  /** An allowance's `since`: 0 for `once`. */
  function Since(per: Per, now: nat): nat {
    match PeriodStart(per, now)
    case Some(s) => s
    case None => 0
  }

  // The first date of the period a date is in, and of the one after it.

  function FirstOf(per: Per, t: Date): Date
    requires per == Month || per == Quarter || per == Year
  {
    Date(t.y, if per == Month then t.m else if per == Quarter then (t.m - 1) / 3 * 3 + 1 else 1, 1)
  }

  function FirstAfter(per: Per, t: Date): Date
    requires per == Month || per == Quarter || per == Year
  {
    var m := FirstOf(per, t).m + (if per == Month then 1 else if per == Quarter then 3 else 12);
    if m > 12 then Date(t.y + 1, m - 12, 1) else Date(t.y, m, 1)
  }

  lemma FirstsAreDates(per: Per, t: Date)
    requires per == Month || per == Quarter || per == Year
    requires ValidDate(t)
    ensures ValidDate(FirstOf(per, t)) && FirstOf(per, t).y == t.y
    ensures ValidDate(FirstAfter(per, t)) && FirstAfter(per, t).y >= t.y
    ensures !Before(t, FirstOf(per, t)) && Before(t, FirstAfter(per, t))
    ensures FirstOf(per, FirstAfter(per, t)) == FirstAfter(per, t)
    ensures FirstOf(per, FirstOf(per, t)) == FirstOf(per, t) && FirstAfter(per, FirstOf(per, t)) == FirstAfter(per, t)
  {
  }

  /** Two dates have the same first date when one lies in the other's period. */
  lemma SameFirst(per: Per, t: Date, u: Date)
    requires per == Month || per == Quarter || per == Year
    requires ValidDate(t) && ValidDate(u)
    requires !Before(u, FirstOf(per, t)) && Before(u, FirstAfter(per, t))
    ensures FirstOf(per, u) == FirstOf(per, t)
  {
  }

  lemma StartIsFirst(per: Per, n: nat)
    requires per == Month || per == Quarter || per == Year
    ensures StartDays(per, n) == Days(FirstOf(per, CivilFromDays(n)))
  {
    hide DaysFromCivil, CivilFromDays;
    CivilOfDay(n);
  }

  lemma EndIsFirstAfter(per: Per, n: nat)
    requires per == Month || per == Quarter || per == Year
    requires FirstOf(per, CivilFromDays(n)) == CivilFromDays(n)
    ensures EndDays(per, n) == Days(FirstAfter(per, CivilFromDays(n)))
  {
    hide DaysFromCivil, CivilFromDays;
  }

  lemma CivilOfDay(n: nat)
    ensures ValidDate(CivilFromDays(n)) && CivilFromDays(n).y >= 1970 && Days(CivilFromDays(n)) == n
  {
    CivilFromDaysIsWalk(n);
    WalkFromEpoch(n);
    DaysCount(n);
  }

  lemma PeriodLength(per: Per, t: Date)
    requires per == Month || per == Quarter || per == Year
    requires ValidDate(t) && t.y >= 1970
    ensures Days(FirstAfter(per, t)) - Days(FirstOf(per, t)) <= 366
  {
    hide DaysFromCivil, YearStart, MonthStart, IsLeap;
    var a, b := Date(t.y, 1, 1), Date(t.y + 1, 1, 1);
    FirstsAreDates(per, t);
    DaysIncreasing(FirstOf(per, t), a);
    DaysIncreasing(b, FirstAfter(per, t));
    DaysSplit(t.y, 1, 1);
    DaysSplit(t.y + 1, 1, 1);
    YearLength(t.y - 1);
  }

  /** Month, quarter and year periods, in days: an interval whose every day has its start. */
  lemma CivilPeriod(per: Per, n: nat)
    requires per == Month || per == Quarter || per == Year
    ensures var s := StartDays(per, n);
            var e := EndDays(per, s);
            && 0 <= s <= n < e <= n + 366
            && StartDays(per, e) == e
  {
    hide DaysFromCivil, CivilFromDays, StartDays, EndDays, FirstOf, FirstAfter;
    var t := CivilFromDays(n);
    var first, after := FirstOf(per, t), FirstAfter(per, t);
    CivilOfDay(n);
    FirstsAreDates(per, t);
    StartIsFirst(per, n);
    DaysFromCivilIsWalk(first);
    CivilInverse(first);
    EndIsFirstAfter(per, Days(first));
    DaysIncreasing(t, first);
    DaysIncreasing(t, after);
    PeriodLength(per, t);
    CivilInverse(after);
    StartIsFirst(per, Days(after));
  }

  lemma CivilPeriodHolds(per: Per, n: nat, k: nat)
    requires per == Month || per == Quarter || per == Year
    requires StartDays(per, n) <= k < EndDays(per, StartDays(per, n))
    ensures StartDays(per, k) == StartDays(per, n)
  {
    hide DaysFromCivil, CivilFromDays, StartDays, EndDays, FirstOf, FirstAfter;
    var t, u := CivilFromDays(n), CivilFromDays(k);
    var first, after := FirstOf(per, t), FirstAfter(per, t);
    CivilOfDay(n);
    CivilOfDay(k);
    FirstsAreDates(per, t);
    StartIsFirst(per, n);
    StartIsFirst(per, k);
    DaysFromCivilIsWalk(first);
    CivilInverse(first);
    EndIsFirstAfter(per, Days(first));
    DaysIncreasing(u, first);
    DaysIncreasing(u, after);
    SameFirst(per, t, u);
  }

  // --- periods tile time -----------------------------------------------------

  /** The period `now` falls in, read as an interval: it holds `now`, another begins
      where it ends, and it is the period of exactly the instants it holds. */
  ghost predicate Tiles(per: Per, now: nat)
    requires per != Once
  {
    var s := PeriodStart(per, now).value;
    var e := PeriodEnd(per, s).value;
    && s <= now < e
    && PeriodStart(per, e) == Some(e)
    && forall t: nat :: s <= t < e <==> PeriodStart(per, t) == Some(s)
  }

  lemma WeekTile(n: nat)
    requires n >= 4
    ensures var s := StartDays(Week, n);
            4 <= s <= n < s + 7 && EndDays(Week, s) == s + 7 && StartDays(Week, s + 7) == s + 7
  {
    var r := (n + 3) % 7;
    assert (n - r + 7 + 3) % 7 == 0;
  }

  lemma WeekTileHolds(n: nat, k: nat)
    ensures StartDays(Week, n) <= k < StartDays(Week, n) + 7 <==> StartDays(Week, k) == StartDays(Week, n)
  {
  }

  /** From Monday 1970-01-05 on, whole days are tiled by every kind of period. */
  lemma DayTile(per: Per, n: nat)
    requires per != Once && (per == Week ==> n >= 4)
    ensures var s := StartDays(per, n);
            var e := EndDays(per, s);
            && 0 <= s <= n < e <= n + 366
            && StartDays(per, e) == e
            && (per == Week ==> s >= 4)
  {
    hide DaysFromCivil, CivilFromDays;
    if per == Month || per == Quarter || per == Year {
      CivilPeriod(per, n);
    } else if per == Week {
      WeekTile(n);
    }
  }

  lemma DayTileHolds(per: Per, n: nat, k: nat)
    requires per != Once && (per == Week ==> n >= 4)
    ensures StartDays(per, n) <= k < EndDays(per, StartDays(per, n)) <==> StartDays(per, k) == StartDays(per, n)
  {
    if per == Day {
    } else if per == Week {
      WeekTile(n);
      WeekTileHolds(n, k);
    } else {
      hide StartDays, EndDays;
      CivilPeriod(per, k);
      if StartDays(per, n) <= k < EndDays(per, StartDays(per, n)) {
        CivilPeriodHolds(per, n, k);
      }
    }
  }

  lemma StartIsDayStart(per: Per, now: nat)
    requires per != Once
    ensures PeriodStart(per, now).value ==
            (if StartDays(per, now / DAY_MS) > 0 then StartDays(per, now / DAY_MS) else 0) * DAY_MS
    ensures PeriodStart(per, now).value / DAY_MS ==
            if StartDays(per, now / DAY_MS) > 0 then StartDays(per, now / DAY_MS) else 0
  {
    hide StartDays, EndDays;
  }

  lemma DayNotBeforeStart(per: Per, k: nat)
    requires per != Once
    ensures StartDays(per, k) <= k && (per != Week ==> StartDays(per, k) >= 0)
  {
    if per == Month || per == Quarter || per == Year {
      CivilPeriod(per, k);
    }
  }

  lemma InstantOfPeriod(per: Per, n: nat, t: nat)
    requires per != Once && (per == Week ==> n >= 4)
    ensures var s := StartDays(per, n);
            s * DAY_MS <= t < EndDays(per, s) * DAY_MS <==> PeriodStart(per, t) == Some(s * DAY_MS)
  {
    hide StartDays, EndDays;
    var k := t / DAY_MS;
    DayTile(per, n);
    DayTileHolds(per, n, k);
    StartIsDayStart(per, t);
    DayNotBeforeStart(per, k);
  }

  lemma PeriodBounds(per: Per, now: nat, s: int, e: int)
    requires per != Once && (per == Week ==> now >= 4 * DAY_MS)
    requires s == StartDays(per, now / DAY_MS) && e == EndDays(per, s)
    ensures 0 <= s && s * DAY_MS <= now < e * DAY_MS
    ensures PeriodStart(per, now) == Some(s * DAY_MS) && PeriodEnd(per, s * DAY_MS) == Some(e * DAY_MS)
    ensures PeriodStart(per, e * DAY_MS) == Some(e * DAY_MS)
  {
    hide StartDays, EndDays;
    DayTile(per, now / DAY_MS);
    StartIsDayStart(per, now);
    StartIsDayStart(per, e * DAY_MS);
  }

  /** The first, partial week is clamped to start at the epoch, and overlaps the second. */
  lemma FirstWeekOverlaps(now: nat)
    requires now < 4 * DAY_MS
    ensures PeriodStart(Week, now) == Some(0) && PeriodEnd(Week, 0) == Some(7 * DAY_MS)
    ensures !Tiles(Week, now)
  {
    var late := 4 * DAY_MS;
    assert PeriodEnd(Week, 0) == Some(7 * DAY_MS);
    assert 0 <= late < 7 * DAY_MS && PeriodStart(Week, late) == Some(late);
  }

  /** Whichever instant the clock shows, its period is the interval it is meant to be, except
      in the partial week the calendar starts with: Thursday 1970-01-01 to Sunday 1970-01-04. */
  lemma PeriodsTileTime(per: Per, now: nat)
    requires per != Once
    ensures Tiles(per, now) <==> (per == Week ==> now >= 4 * DAY_MS)
  {
    if per == Week && now < 4 * DAY_MS {
      FirstWeekOverlaps(now);
    } else {
      PeriodsTile(per, now);
    }
  }

  lemma PeriodsTile(per: Per, now: nat)
    requires per != Once && (per == Week ==> now >= 4 * DAY_MS)
    ensures Tiles(per, now)
  {
    hide StartDays, EndDays, PeriodStart, PeriodEnd;
    var n: nat := now / DAY_MS;
    ghost var s := StartDays(per, n);
    PeriodBounds(per, now, s, EndDays(per, s));
    forall t: nat ensures s * DAY_MS <= t < EndDays(per, s) * DAY_MS <==> PeriodStart(per, t) == Some(s * DAY_MS) {
      InstantOfPeriod(per, n, t);
    }
  }

  /** The end of the current period is at most a year off, so it fits the machine's 64 bits
      whenever `now` is a year short of them. */
  lemma PeriodEndFits(per: Per, now: nat)
    requires per != Once
    ensures var s := PeriodStart(per, now).value;
            s <= now && 0 <= PeriodEnd(per, s).value <= now + 366 * DAY_MS
  {
    hide StartDays, EndDays;
    var n := now / DAY_MS;
    StartIsDayStart(per, now);
    if per == Week && n < 4 {
      FirstWeekOverlaps(now);
    } else {
      DayTile(per, n);
    }
  }

  /** A later instant never falls in an earlier period. */
  lemma SinceMonotone(per: Per, t: nat, u: nat)
    requires t <= u
    ensures Since(per, t) <= Since(per, u) <= u
  {
    hide DaysFromCivil, CivilFromDays;
    if per == Week {
      assert t / DAY_MS <= u / DAY_MS;
    } else if per != Once {
      hide StartDays, EndDays;
      PeriodsTileTime(per, u);
      PeriodsTileTime(per, t);
    }
  }

  // --- what the periods are, by the calendar that is walked ------------------

  /** Whether two instants lie in the same period: the same day, the same week from Monday to
      Sunday (the epoch was a Thursday), the same month, quarter or year of the walked calendar;
      and `once` is one period without end. */
  predicate SamePeriod(per: Per, t: nat, u: nat) {
    var m, n := t / 86_400_000, u / 86_400_000;
    var a, b := DateOfDay(m), DateOfDay(n);
    match per
    case Day => m == n
    case Week => (m + 3) / 7 == (n + 3) / 7
    case Month => a.y == b.y && a.m == b.m
    case Quarter => a.y == b.y && (a.m - 1) / 3 == (b.m - 1) / 3
    case Year => a.y == b.y
    case Once => true
  }

  lemma SameFirstDate(per: Per, a: Date, b: Date)
    requires (per == Month || per == Quarter || per == Year) && ValidDate(a) && ValidDate(b)
    ensures FirstOf(per, a) == FirstOf(per, b) <==>
            a.y == b.y && (per == Month ==> a.m == b.m) && (per == Quarter ==> (a.m - 1) / 3 == (b.m - 1) / 3)
  {
  }

  lemma CivilSameStart(per: Per, m: nat, n: nat)
    requires per == Month || per == Quarter || per == Year
    ensures StartDays(per, m) >= 0 && StartDays(per, n) >= 0
    ensures StartDays(per, m) == StartDays(per, n) <==>
            FirstOf(per, DateOfDay(m)) == FirstOf(per, DateOfDay(n))
  {
    hide DaysFromCivil, CivilFromDays, StartDays, FirstOf, DateOfDay;
    var a, b := DateOfDay(m), DateOfDay(n);
    CivilFromDaysIsWalk(m);
    CivilFromDaysIsWalk(n);
    CivilOfDay(m);
    CivilOfDay(n);
    StartIsFirst(per, m);
    StartIsFirst(per, n);
    FirstsAreDates(per, a);
    FirstsAreDates(per, b);
    DaysFromCivilIsWalk(FirstOf(per, a));
    DaysFromCivilIsWalk(FirstOf(per, b));
  }

  /** Two instants have the same `since` exactly when they lie in the same period. */
  lemma SinceIsPeriod(per: Per, t: nat, u: nat)
    ensures Since(per, t) == Since(per, u) <==> SamePeriod(per, t, u)
  {
    hide DaysFromCivil, CivilFromDays, DateOfDay;
    var m, n := t / DAY_MS, u / DAY_MS;
    if per == Month || per == Quarter || per == Year {
      hide StartDays;
      CivilSameStart(per, m, n);
      SameFirstDate(per, DateOfDay(m), DateOfDay(n));
    } else if per == Week {
      WeekSameStart(m, n);
    }
  }

  lemma WeekSameStart(m: nat, n: nat)
    ensures (if StartDays(Week, m) > 0 then StartDays(Week, m) else 0)
            == (if StartDays(Week, n) > 0 then StartDays(Week, n) else 0)
            <==> (m + 3) / 7 == (n + 3) / 7
  {
    assert StartDays(Week, m) == 7 * ((m + 3) / 7) - 3;
    assert StartDays(Week, n) == 7 * ((n + 3) / 7) - 3;
  }

  /** So what is at or after `since` is what lies in the current period or later. */
  lemma SinceExactly(per: Per, t: nat, now: nat)
    ensures t >= Since(per, now) <==> SamePeriod(per, t, now) || t > now
  {
    hide Since, SamePeriod;
    SinceIsPeriod(per, t, now);
    SinceMonotone(per, now, now);
    if t <= now {
      SinceMonotone(per, t, now);
      if t >= Since(per, now) {
        SinceOfSince(per, now);
        SinceMonotone(per, Since(per, now), t);
      } else {
        SinceMonotone(per, t, t);
      }
    } else {
      SinceMonotone(per, now, t);
    }
  }

  /** A period's start lies in the period, and is its own. */
  lemma SinceOfSince(per: Per, now: nat)
    ensures Since(per, Since(per, now)) == Since(per, now)
  {
    hide DaysFromCivil, CivilFromDays;
    if per == Week && now < 4 * DAY_MS {
      FirstWeekOverlaps(now);
      FirstWeekOverlaps(0);
    } else if per != Once {
      PeriodsTileTime(per, now);
      assert PeriodStart(per, Since(per, now)) == Some(Since(per, now));
    }
  }
}
