/** Civil dates from Unix time, as the ISO 8601 formatter computes them. */
module CivilDate {

  datatype Date = Date(y: int, m: int, d: int)
  datatype Stamp = Stamp(date: Date, hour: int, minute: int, second: int)

  /** The straight-line arithmetic of the code: the epoch moved to 0000-03-01, so leap days land last. */
  function DateOf(days: int): Date {
    var z := days + 719_468;
    var era := z / 146_097;
    var doe := z % 146_097;
    var yoe := YearInEra(doe);
    var y := yoe + era * 400;
    var doy := doe - (365 * yoe + yoe / 4 - yoe / 100);
    var mp := (5 * doy + 2) / 153;
    var d := doy - (153 * mp + 2) / 5 + 1;
    var m := if mp < 10 then mp + 3 else mp - 9;
    Date(if m <= 2 then y + 1 else y, m, d)
  }

  function YearInEra(doe: int): int {
    (doe - doe / 1_460 + doe / 36_524 - doe / 146_096) / 365
  }

  function StampOf(unixSecs: nat): Stamp {
    var rem := unixSecs % 86_400;
    Stamp(DateOf(unixSecs / 86_400), rem / 3_600, rem % 3_600 / 60, rem % 60)
  }

  // ----- the calendar ----------------------------------------------------------

  predicate IsLeap(y: int) {
    y % 4 == 0 && (y % 100 != 0 || y % 400 == 0)
  }

  function MonthLen(y: int, m: int): int {
    if m == 2 then (if IsLeap(y) then 29 else 28)
    else if m == 4 || m == 6 || m == 9 || m == 11 then 30
    else 31
  }

  predicate Valid(t: Date) {
    1 <= t.m <= 12 && 1 <= t.d <= MonthLen(t.y, t.m)
  }

  /** The day after, by the calendar alone. */
  function Next(t: Date): Date {
    if t.d < MonthLen(t.y, t.m) then Date(t.y, t.m, t.d + 1)
    else if t.m < 12 then Date(t.y, t.m + 1, 1)
    else Date(t.y + 1, 1, 1)
  }

  // ----- years that start in March ------------------------------------------------

  /** Days before March 1st of year `y`, counted from 0000-03-01. */
  function Base(y: int): int {
    365 * y + y / 4 - y / 100 + y / 400
  }

  function MarchLen(y: int): int {
    if IsLeap(y + 1) then 366 else 365
  }

  function MonthStart(mp: int): int {
    (153 * mp + 2) / 5
  }

  function FromMarch(y: int, doy: int): Date {
    var mp := (5 * doy + 2) / 153;
    var m := if mp < 10 then mp + 3 else mp - 9;
    Date(if m <= 2 then y + 1 else y, m, doy - MonthStart(mp) + 1)
  }

  // A day of the era as centuries, four-year cycles, years and days.
  lemma Decompose(doe: int) returns (c: int, q: int, k: int, doy: int)
    requires 0 <= doe < 146_097
    ensures 0 <= c <= 3 && 0 <= q <= 24 && 0 <= k <= 3 && 0 <= doy <= 365
    ensures doe == 36_524 * c + 1_461 * q + 365 * k + doy
    ensures doy == 365 ==> k == 3 && (q < 24 || c == 3)
  {
    c := if doe >= 109_572 then 3 else if doe >= 73_048 then 2 else if doe >= 36_524 then 1 else 0;
    var r := doe - 36_524 * c;
    q := r / 1_461;
    var w := r - 1_461 * q;
    k := if w >= 1_095 then 3 else if w >= 730 then 2 else if w >= 365 then 1 else 0;
    doy := w - 365 * k;
  }

  lemma FormulaYear(doe: int, c: int, q: int, k: int, doy: int)
    requires 0 <= doe < 146_097 && 0 <= c <= 3 && 0 <= q <= 24 && 0 <= k <= 3 && 0 <= doy <= 365
    requires doe == 36_524 * c + 1_461 * q + 365 * k + doy
    requires doy == 365 ==> k == 3 && (q < 24 || c == 3)
    ensures YearInEra(doe) == 100 * c + 4 * q + k
  {
    var e := if 24 * c + q + 365 * k + doy >= 1_460 then 1 else 0;
    assert doe == 1_460 * (25 * c + q + e) + (24 * c + q + 365 * k + doy - 1_460 * e);
    assert doe / 1_460 == 25 * c + q + e;
    assert doe / 36_524 - doe / 146_096 == c;
  }

  lemma YearParts(c: int, q: int, k: int)
    requires 0 <= c <= 3 && 0 <= q <= 24 && 0 <= k <= 3
    ensures var yoe := 100 * c + 4 * q + k;
            && yoe / 4 == 25 * c + q && yoe / 100 == c && 0 <= yoe < 400
            && (IsLeap(yoe + 1) <==> k == 3 && (q < 24 || c == 3))
  {
    var yoe := 100 * c + 4 * q + k;
    if k == 3 {
      assert (yoe + 1) % 4 == 0;
      assert yoe + 1 == 100 * c + 4 * (q + 1);
      if q < 24 { assert (yoe + 1) % 100 == 4 * (q + 1); } else { assert (yoe + 1) % 100 == 0; }
    } else {
      assert (yoe + 1) % 4 == k + 1;
    }
  }

  /** The year of the 400-year era is the one whose span holds the day. */
  lemma YearOfEra(doe: int)
    requires 0 <= doe < 146_097
    ensures var yoe := YearInEra(doe);
            0 <= yoe < 400 && 0 <= doe - (365 * yoe + yoe / 4 - yoe / 100) < MarchLen(yoe)
  {
    var c, q, k, doy := Decompose(doe);
    FormulaYear(doe, c, q, k, doy);
    YearParts(c, q, k);
  }

  lemma EraBase(era: int, yoe: int)
    requires 0 <= yoe < 400
    ensures Base(400 * era + yoe) == 146_097 * era + 365 * yoe + yoe / 4 - yoe / 100
    ensures MarchLen(400 * era + yoe) == MarchLen(yoe)
  {
    EraQuotients(era, yoe);
    EraLeap(era, yoe + 1);
  }

  lemma EraQuotients(era: int, yoe: int)
    requires 0 <= yoe < 400
    ensures var y := 400 * era + yoe;
            y / 4 == 100 * era + yoe / 4 && y / 100 == 4 * era + yoe / 100 && y / 400 == era
  {
  }

  /** Leap years repeat every 400 years. */
  lemma EraLeap(era: int, y: int)
    ensures IsLeap(400 * era + y) <==> IsLeap(y)
  {
    EraMod4(era, y);
    EraMod100(era, y);
    EraMod400(era, y);
  }

  lemma EraMod4(era: int, y: int)
    ensures (400 * era + y) % 4 == y % 4
  {
    Remainder4(400 * era + y, 100 * era + y / 4, y % 4);
  }

  lemma Remainder4(n: int, q: int, r: int)
    requires 0 <= r < 4 && n == 4 * q + r
    ensures n % 4 == r
  {
  }

  lemma EraMod100(era: int, y: int)
    ensures (400 * era + y) % 100 == y % 100
  {
    Remainder100(400 * era + y, 4 * era + y / 100, y % 100);
  }

  lemma Remainder100(n: int, q: int, r: int)
    requires 0 <= r < 100 && n == 100 * q + r
    ensures n % 100 == r
  {
  }

  lemma EraMod400(era: int, y: int)
    ensures (400 * era + y) % 400 == y % 400
  {
    Remainder400(400 * era + y, era + y / 400, y % 400);
  }

  lemma Remainder400(n: int, q: int, r: int)
    requires 0 <= r < 400 && n == 400 * q + r
    ensures n % 400 == r
  {
  }

  /** A day number is a March year and a day within it. */
  lemma MarchOf(days: int) returns (y: int, doy: int)
    ensures 0 <= doy < MarchLen(y)
    ensures Base(y) + doy == days + 719_468
    ensures DateOf(days) == FromMarch(y, doy)
  {
    var z := days + 719_468;
    var era, doe := z / 146_097, z % 146_097;
    YearOfEra(doe);
    var yoe := YearInEra(doe);
    EraBase(era, yoe);
    y, doy := yoe + era * 400, doe - (365 * yoe + yoe / 4 - yoe / 100);
    EraDay(z);
    DateFromMarch(days, y, doy);
  }

  lemma EraDay(z: int)
    ensures z == 146_097 * (z / 146_097) + z % 146_097 && 0 <= z % 146_097 < 146_097
  {
  }

  lemma DateFromMarch(days: int, y: int, doy: int)
    requires var z := days + 719_468;
             var yoe := YearInEra(z % 146_097);
             y == yoe + z / 146_097 * 400 && doy == z % 146_097 - (365 * yoe + yoe / 4 - yoe / 100)
    ensures DateOf(days) == FromMarch(y, doy)
  {
  }

  lemma BaseStep(y: int)
    ensures Base(y + 1) == Base(y) + MarchLen(y)
  {
    var era, yoe := y / 400, y % 400;
    EraBase(era, yoe);
    if yoe < 399 {
      EraBase(era, yoe + 1);
      LeapCases(yoe);
    } else {
      EraBase(era + 1, 0);
      assert y + 1 == 400 * (era + 1);
    }
  }

  lemma LeapCases(yoe: int)
    requires 0 <= yoe < 399
    ensures MarchLen(yoe) == 365 + (yoe + 1) / 4 - yoe / 4 - ((yoe + 1) / 100 - yoe / 100)
  {
  }

  lemma {:induction false} BaseMonotone(y: int, n: nat)
    ensures Base(y + n) >= Base(y)
  {
    if n > 0 {
      BaseMonotone(y, n - 1);
      BaseStep(y + n - 1);
    }
  }

  /** The March year and day of a day number are unique. */
  lemma MarchUnique(y1: int, d1: int, y2: int, d2: int)
    requires 0 <= d1 < MarchLen(y1) && 0 <= d2 < MarchLen(y2) && Base(y1) + d1 == Base(y2) + d2
    ensures y1 == y2 && d1 == d2
  {
    if y1 < y2 {
      BaseMonotone(y1 + 1, y2 - (y1 + 1));
      BaseStep(y1);
    } else if y2 < y1 {
      BaseMonotone(y2 + 1, y1 - (y2 + 1));
      BaseStep(y2);
    }
  }

  // ----- months within a March year ------------------------------------------------

  lemma MonthOf(doy: int)
    requires 0 <= doy <= 365
    ensures var mp := (5 * doy + 2) / 153;
            0 <= mp <= 11 && MonthStart(mp) <= doy && (mp < 11 ==> doy < MonthStart(mp + 1))
  {
  }

  lemma MonthStarts()
    ensures MonthStart(0) == 0 && MonthStart(1) == 31 && MonthStart(2) == 61 && MonthStart(3) == 92
    ensures MonthStart(4) == 122 && MonthStart(5) == 153 && MonthStart(6) == 184 && MonthStart(7) == 214
    ensures MonthStart(8) == 245 && MonthStart(9) == 275 && MonthStart(10) == 306 && MonthStart(11) == 337
  {
  }

  lemma MarchDateValid(y: int, doy: int)
    requires 0 <= doy < MarchLen(y)
    ensures Valid(FromMarch(y, doy))
  {
    MonthOf(doy);
    MonthStarts();
  }

  lemma MarchDateNext(y: int, doy: int)
    requires 0 <= doy < MarchLen(y)
    ensures Next(FromMarch(y, doy)) == if doy + 1 < MarchLen(y) then FromMarch(y, doy + 1) else FromMarch(y + 1, 0)
  {
    MonthOf(doy);
    MonthOf(if doy + 1 <= 365 then doy + 1 else 0);
    MonthStarts();
  }

  // ----- the formatter's dates are the calendar ---------------------------------------

  /**
   * Starting from 1970-01-01, every following day is the next day of the
   * Gregorian calendar, and every computed date is a valid one.
   */
  lemma DatesFollowCalendar(days: int)
    ensures DateOf(0) == Date(1970, 1, 1)
    ensures Valid(DateOf(days))
    ensures DateOf(days + 1) == Next(DateOf(days))
  {
    EpochDate();
    DateSteps(days);
  }

  lemma EpochDate()
    ensures DateOf(0) == Date(1970, 1, 1)
  {
    assert 719_468 / 146_097 == 4 && 719_468 % 146_097 == 135_080;
    EpochYear();
    assert (5 * 306 + 2) / 153 == 10;
  }

  lemma EpochYear()
    ensures YearInEra(135_080) == 369
  {
    assert 135_080 / 1_460 == 92 && 135_080 / 36_524 == 3 && 135_080 / 146_096 == 0;
  }

  lemma DateSteps(days: int)
    ensures Valid(DateOf(days)) && DateOf(days + 1) == Next(DateOf(days))
  {
    var y, doy := MarchOf(days);
    var y', doy' := MarchOf(days + 1);
    MarchSteps(y, doy, y', doy');
  }

  lemma MarchSteps(y: int, doy: int, y': int, doy': int)
    requires 0 <= doy < MarchLen(y) && 0 <= doy' < MarchLen(y') && Base(y') + doy' == Base(y) + doy + 1
    ensures Valid(FromMarch(y, doy)) && FromMarch(y', doy') == Next(FromMarch(y, doy))
  {
    MarchDateValid(y, doy);
    MarchDateNext(y, doy);
    NextMarch(y, doy, y', doy');
  }

  /** The day after a day of a March year. */
  lemma NextMarch(y: int, doy: int, y': int, doy': int)
    requires 0 <= doy < MarchLen(y) && 0 <= doy' < MarchLen(y') && Base(y') + doy' == Base(y) + doy + 1
    ensures if doy + 1 < MarchLen(y) then y' == y && doy' == doy + 1 else y' == y + 1 && doy' == 0
  {
    BaseStep(y);
    if doy + 1 < MarchLen(y) {
      MarchUnique(y', doy', y, doy + 1);
    } else {
      MarchUnique(y', doy', y + 1, 0);
    }
  }

  /** Days from a civil date: the classic inverse. */
  function DaysOf(t: Date): int {
    var y := if t.m <= 2 then t.y - 1 else t.y;
    var mp := if t.m > 2 then t.m - 3 else t.m + 9;
    Base(y) + MonthStart(mp) + t.d - 1 - 719_468
  }

  lemma DaysOfMarch(y: int, doy: int)
    requires 0 <= doy < MarchLen(y)
    ensures DaysOf(FromMarch(y, doy)) == Base(y) + doy - 719_468
  {
    MonthOf(doy);
  }

  lemma MarchOfDate(t: Date) returns (y: int, doy: int)
    requires Valid(t)
    ensures 0 <= doy < MarchLen(y) && FromMarch(y, doy) == t
  {
    var mp := if t.m > 2 then t.m - 3 else t.m + 9;
    y := if t.m <= 2 then t.y - 1 else t.y;
    doy := MonthStart(mp) + t.d - 1;
    MonthStarts();
    MonthOf(doy);
    assert (5 * doy + 2) / 153 == mp;
  }

  /** The two conversions are inverse to each other, on all day numbers and all valid dates. */
  lemma DatesRoundTrip(days: int, t: Date)
    requires Valid(t)
    ensures DaysOf(DateOf(days)) == days
    ensures DateOf(DaysOf(t)) == t
  {
    var y, doy := MarchOf(days);
    DaysOfMarch(y, doy);
    var ty, tdoy := MarchOfDate(t);
    DaysOfMarch(ty, tdoy);
    var y', doy' := MarchOf(DaysOf(t));
    MarchUnique(y', doy', ty, tdoy);
  }

  // ----- order ---------------------------------------------------------------------------

  predicate DateBefore(a: Date, b: Date) {
    a.y < b.y || (a.y == b.y && (a.m < b.m || (a.m == b.m && a.d < b.d)))
  }

  predicate StampBefore(a: Stamp, b: Stamp) {
    || DateBefore(a.date, b.date)
    || (a.date == b.date && (a.hour < b.hour || (a.hour == b.hour && (a.minute < b.minute
        || (a.minute == b.minute && a.second < b.second)))))
  }

  lemma NextIsAfter(t: Date)
    requires Valid(t)
    ensures DateBefore(t, Next(t))
  {
  }

  lemma BeforeTransitive(a: Date, b: Date, c: Date)
    requires DateBefore(a, b) && DateBefore(b, c)
    ensures DateBefore(a, c)
  {
  }

  lemma {:induction false} StepwiseIncrease(f: int -> Date, days: int, n: nat)
    requires n > 0 && forall d :: DateBefore(f(d), f(d + 1))
    ensures DateBefore(f(days), f(days + n))
  {
    var last := days + (n - 1);
    assert DateBefore(f(last), f(last + 1)) && days + n == last + 1;
    if n > 1 {
      StepwiseIncrease(f, days, n - 1);
      BeforeTransitive(f(days), f(last), f(last + 1));
    }
  }

  lemma DatesIncrease(days: int, n: nat)
    requires n > 0
    ensures DateBefore(DateOf(days), DateOf(days + n))
  {
    forall d: int ensures DateBefore(DateOf(d), DateOf(d + 1)) {
      DateSteps(d);
      NextIsAfter(DateOf(d));
    }
    StepwiseIncrease(DateOf, days, n);
  }

  lemma ClockFields(rem: int)
    requires 0 <= rem < 86_400
    ensures rem == rem / 3_600 * 3_600 + rem % 3_600 / 60 * 60 + rem % 60
    ensures 0 <= rem / 3_600 < 24 && 0 <= rem % 3_600 / 60 < 60 && 0 <= rem % 60 < 60
  {
    var h, r := rem / 3_600, rem % 3_600;
    assert r == r / 60 * 60 + r % 60;
    assert rem % 60 == r % 60;
  }

  /** The six fields determine the second. */
  lemma StampDetermines(s: nat)
    ensures var x := StampOf(s);
            && s == DaysOf(x.date) * 86_400 + x.hour * 3_600 + x.minute * 60 + x.second
            && 0 <= x.hour < 24 && 0 <= x.minute < 60 && 0 <= x.second < 60
  {
    ClockFields(s % 86_400);
    assert Valid(Date(1970, 1, 1));
    DatesRoundTrip(s / 86_400, Date(1970, 1, 1));
  }

  /** The six fields increase strictly, most significant first, as time increases. */
  lemma StampsIncrease(s: nat, t: nat)
    requires s < t
    ensures StampBefore(StampOf(s), StampOf(t))
  {
    var ds, dt := s / 86_400, t / 86_400;
    if ds < dt {
      DatesIncrease(ds, dt - ds);
    } else {
      ClockFields(s % 86_400);
      ClockFields(t % 86_400);
    }
  }
}
