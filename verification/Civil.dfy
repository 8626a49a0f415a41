/** The proleptic-Gregorian day arithmetic of civil.rs, refined against a
    calendar that simply counts the days of years and months. */
module Civil {

  datatype Date = Date(y: int, m: int, d: int)

  // ---- the naive calendar ---------------------------------------------------

  predicate IsLeap(y: int) {
    y % 4 == 0 && (y % 100 != 0 || y % 400 == 0)
  }

  function DaysInYear(y: int): int {
    if IsLeap(y) then 366 else 365
  }

  function DaysInMonth(y: int, m: int): int
    requires 1 <= m <= 12
  {
    if m == 2 then (if IsLeap(y) then 29 else 28)
    else if m == 4 || m == 6 || m == 9 || m == 11 then 30
    else 31
  }

  predicate Valid(dt: Date) {
    1 <= dt.m <= 12 && 1 <= dt.d <= DaysInMonth(dt.y, dt.m)
  }

  /** Days from 1970-01-01 to the first day of year `y`, counted year by year. */
  function DaysToYear(y: int): int
    decreases if y >= 1970 then y - 1970 else 1970 - y
  {
    if y == 1970 then 0
    else if y > 1970 then DaysToYear(y - 1) + DaysInYear(y - 1)
    else DaysToYear(y + 1) - DaysInYear(y)
  }

  /** Days of year `y` before its month `m`, counted month by month. */
  function DaysToMonth(y: int, m: int): int
    requires 1 <= m <= 12
    decreases m
  {
    if m == 1 then 0 else DaysToMonth(y, m - 1) + DaysInMonth(y, m - 1)
  }

  function DayCount(dt: Date): int
    requires Valid(dt)
  {
    DaysToYear(dt.y) + DaysToMonth(dt.y, dt.m) + dt.d - 1
  }

  /** The day after `dt` in the calendar. */
  function Successor(dt: Date): Date
    requires Valid(dt)
  {
    if dt.d < DaysInMonth(dt.y, dt.m) then Date(dt.y, dt.m, dt.d + 1)
    else if dt.m < 12 then Date(dt.y, dt.m + 1, 1)
    else Date(dt.y + 1, 1, 1)
  }

  /** The derived `Ord` of `Date`: year, then month, then day. */
  predicate Before(a: Date, b: Date) {
    a.y < b.y || (a.y == b.y && (a.m < b.m || (a.m == b.m && a.d < b.d)))
  }

  // ---- civil.rs ---------------------------------------------------------------

  /** Integer division rounding toward zero. */
  function TruncDiv(a: int, b: int): int
    requires b > 0
  {
    if a >= 0 then a / b else -(-a / b)
  }

  function ToDays(dt: Date): int {
    var y := if dt.m <= 2 then dt.y - 1 else dt.y;
    var era := TruncDiv(if y >= 0 then y else y - 399, 400);
    var yoe := y - era * 400;
    var doy := (153 * (if dt.m > 2 then dt.m - 3 else dt.m + 9) + 2) / 5 + dt.d - 1;
    var doe := yoe * 365 + yoe / 4 - yoe / 100 + doy;
    era * 146097 + doe - 719468
  }

  /** Days of an era (400 years counted from 1 March) before its year `yoe`. */
  function EraYearStart(yoe: int): int {
    365 * yoe + yoe / 4 - yoe / 100
  }

  /** The year of the era that day `doe` of the era falls in. */
  function EraYear(doe: int): int {
    (doe - doe / 1460 + doe / 36524 - doe / 146096) / 365
  }

  /** The date `doy` days after 1 March of year `y`. */
  function MarchDate(y: int, doy: int): Date {
    var mp := (5 * doy + 2) / 153;
    var d := doy - (153 * mp + 2) / 5 + 1;
    var m := if mp < 10 then mp + 3 else mp - 9;
    Date(y + (if m <= 2 then 1 else 0), m, d)
  }

  function FromDays(days: int): Date {
    var z := days + 719468;
    var era := TruncDiv(if z >= 0 then z else z - 146096, 146097);
    var doe := z - era * 146097;
    var yoe := EraYear(doe);
    MarchDate(yoe + era * 400, doe - EraYearStart(yoe))
  }

  function FromUnix(secs: nat): Date {
    FromDays(secs / 86400)
  }

  function Next(dt: Date): Date {
    FromDays(ToDays(dt) + 1)
  }

  // ---- lemmas -------------------------------------------------------------------

  lemma EraIsFloor(x: int, n: int)
    requires n == 400 || n == 146097
    ensures TruncDiv(if x >= 0 then x else x - (n - 1), n) == x / n
  {
  }

  /** The year count in closed form. */
  lemma {:induction false} DaysToYearClosed(y: int)
    ensures DaysToYear(y) == 365 * (y - 1970) + (y - 1) / 4 - (y - 1) / 100 + (y - 1) / 400 - 477
    decreases if y >= 1970 then y - 1970 else 1970 - y
  {
    if y > 1970 {
      DaysToYearClosed(y - 1);
      LeapStep(y - 1);
    } else if y < 1970 {
      DaysToYearClosed(y + 1);
      LeapStep(y);
    }
  }

  /** One more year adds a leap day exactly when it is a leap year. */
  lemma LeapStep(y: int)
    ensures y / 4 - y / 100 + y / 400 - ((y - 1) / 4 - (y - 1) / 100 + (y - 1) / 400) == if IsLeap(y) then 1 else 0
  {
    FourthStep(y);
    HundredthStep(y);
    FourHundredthStep(y);
    LeapFlags(y);
  }

  lemma LeapFlags(y: int)
    ensures y % 400 == 0 ==> y % 100 == 0
    ensures y % 100 == 0 ==> y % 4 == 0
  {
    FourHundredIsHundred(y);
    HundredIsFour(y);
  }

  lemma FourHundredIsHundred(y: int)
    ensures y % 400 == 0 ==> y % 100 == 0
  {
    assert y == 100 * (4 * (y / 400)) + y % 400;
  }

  lemma HundredIsFour(y: int)
    ensures y % 100 == 0 ==> y % 4 == 0
  {
    assert y == 4 * (25 * (y / 100)) + y % 100;
  }

  lemma FourthStep(y: int)
    ensures y / 4 - (y - 1) / 4 == if y % 4 == 0 then 1 else 0
  {
  }

  lemma HundredthStep(y: int)
    ensures y / 100 - (y - 1) / 100 == if y % 100 == 0 then 1 else 0
  {
  }

  lemma FourHundredthStep(y: int)
    ensures y / 400 - (y - 1) / 400 == if y % 400 == 0 then 1 else 0
  {
  }

  lemma DaysToMonthClosed(y: int, m: int)
    requires 1 <= m <= 12
    ensures m > 2 ==> DaysToMonth(y, m) == (153 * (m - 3) + 2) / 5 + 59 + (if IsLeap(y) then 1 else 0)
    ensures m <= 2 ==> DaysToMonth(y, m) == 31 * (m - 1)
    ensures m <= 2 ==> (153 * (m + 9) + 2) / 5 == 306 + 31 * (m - 1)
  {
    if m > 1 { DaysToMonthClosed(y, m - 1); }
  }

  /** `to_days` is the naive count, for every valid date. */
  lemma ToDaysCounts(dt: Date)
    requires Valid(dt)
    ensures ToDays(dt) == DayCount(dt)
  {
    hide DaysToYear, DaysToMonth, TruncDiv;
    var y := if dt.m <= 2 then dt.y - 1 else dt.y;
    EraIsFloor(y, 400);
    DaysToYearClosed(dt.y);
    DaysToMonthClosed(dt.y, dt.m);
    EraSplit(y);
    if dt.m > 2 { LeapStep(dt.y); }
  }

  lemma EraSplit(y: int)
    ensures var era := y / 400; var yoe := y - era * 400;
            0 <= yoe < 400 && era * 146097 + yoe * 365 + yoe / 4 - yoe / 100 == 365 * y + y / 4 - y / 100 + y / 400
  {
    var era := y / 400;
    var yoe := y - era * 400;
    assert y / 4 == era * 100 + yoe / 4;
    assert y / 100 == era * 4 + yoe / 100;
  }

  /** Whether year `k` of an era, running from March to February, ends on a leap day. */
  predicate LongEraYear(k: int) {
    (k + 1) % 4 == 0 && ((k + 1) % 100 != 0 || k == 399)
  }

  /** The correction terms of `from_days` pick the year whose days hold `doe`. */
  lemma YearOfEra(doe: int)
    requires 0 <= doe < 146097
    ensures var yoe := EraYear(doe);
            && 0 <= yoe < 400
            && 0 <= doe - EraYearStart(yoe) <= 365
            && (doe - EraYearStart(yoe) == 365 ==> LongEraYear(yoe))
  {
    // cut the era into centuries, those into four-year cycles, those into years
    var c := if doe == 146096 then 3 else doe / 36524;
    var inCentury := doe - 36524 * c;
    var q := inCentury / 1461;
    var inCycle := inCentury - 1461 * q;
    var k := if inCycle == 1460 then 3 else inCycle / 365;
    var yoe := 100 * c + 4 * q + k;
    assert yoe / 4 == 25 * c + q && yoe / 100 == c;
    assert EraYearStart(yoe) == 36524 * c + 1461 * q + 365 * k;
    YearOfEraFormula(doe, c, q, k);
  }

  lemma YearOfEraFormula(doe: int, c: int, q: int, k: int)
    requires 0 <= c <= 3 && 0 <= q <= 24 && 0 <= k <= 3
    requires 0 <= doe - (36524 * c + 1461 * q + 365 * k) <= 365
    requires doe - (36524 * c + 1461 * q + 365 * k) == 365 ==> k == 3 && (q < 24 || c == 3)
    ensures EraYear(doe) == 100 * c + 4 * q + k
  {
    var r := doe - (36524 * c + 1461 * q + 365 * k);
    assert doe == 1460 * (25 * c + q) + (24 * c + q + 365 * k + r);
    assert doe / 36524 - doe / 146096 == c;
  }

  lemma MarchDateValid(y: int, doy: int)
    requires 0 <= doy <= 365
    requires doy == 365 ==> IsLeap(y + 1)
    ensures Valid(MarchDate(y, doy))
  {
    MonthOfYear(doy);
  }

  lemma MarchDateDays(era: int, yoe: int, doy: int)
    requires 0 <= yoe < 400 && 0 <= doy <= 365
    ensures ToDays(MarchDate(yoe + era * 400, doy)) == era * 146097 + EraYearStart(yoe) + doy - 719468
  {
    hide TruncDiv, DaysInMonth;
    MonthOfYear(doy);
    var y := yoe + era * 400;
    var dt := MarchDate(y, doy);
    EraIsFloor(y, 400);
    assert y / 400 == era;
    var mp := (5 * doy + 2) / 153;
    assert (if dt.m > 2 then dt.m - 3 else dt.m + 9) == mp;
  }

  /** `from_days` finds the March year and the day within it. */
  lemma FromDaysParts(days: int, era: int, doe: int)
    requires era == (days + 719468) / 146097 && doe == days + 719468 - era * 146097
    ensures FromDays(days) == MarchDate(EraYear(doe) + era * 400, doe - EraYearStart(EraYear(doe)))
  {
    hide MarchDate, EraYear, EraYearStart, TruncDiv;
    EraIsFloor(days + 719468, 146097);
  }

  /** `from_days` yields a valid date, and `to_days` takes it back. */
  lemma FromDaysInverse(days: int)
    ensures Valid(FromDays(days)) && ToDays(FromDays(days)) == days
  {
    hide FromDays, ToDays, MarchDate, Valid, EraYear, EraYearStart;
    var era := (days + 719468) / 146097;
    var doe := days + 719468 - era * 146097;
    FromDaysParts(days, era, doe);
    YearOfEra(doe);
    MarchDateOfEra(era, EraYear(doe), doe - EraYearStart(EraYear(doe)));
  }

  lemma MarchDateOfEra(era: int, yoe: int, doy: int)
    requires 0 <= yoe < 400 && 0 <= doy <= 365 && (doy == 365 ==> LongEraYear(yoe))
    ensures Valid(MarchDate(yoe + era * 400, doy))
    ensures ToDays(MarchDate(yoe + era * 400, doy)) == era * 146097 + EraYearStart(yoe) + doy - 719468
  {
    LeapOfEra(era, yoe);
    MarchDateValid(yoe + era * 400, doy);
    MarchDateDays(era, yoe, doy);
  }

  lemma LeapOfEra(era: int, yoe: int)
    requires 0 <= yoe < 400
    ensures LongEraYear(yoe) == IsLeap(yoe + era * 400 + 1)
  {
    FourShift(yoe + 1, 100 * era);
    HundredShift(yoe + 1, 4 * era);
    FourHundredShift(yoe + 1, era);
    LeapFlags(yoe + 1);
  }

  lemma FourShift(x: int, k: int)
    ensures (x + 4 * k) % 4 == x % 4
  {
  }

  lemma HundredShift(x: int, k: int)
    ensures (x + 100 * k) % 100 == x % 100
  {
  }

  lemma FourHundredShift(x: int, k: int)
    ensures (x + 400 * k) % 400 == x % 400
  {
  }

  /** The month formula, for a year that starts on 1 March. */
  lemma MonthOfYear(doy: int)
    requires 0 <= doy <= 365
    ensures var mp := (5 * doy + 2) / 153;
            var m := if mp < 10 then mp + 3 else mp - 9;
            var d := doy - (153 * mp + 2) / 5 + 1;
            && 0 <= mp <= 11 && 1 <= d
            && (m == 2 ==> d <= 29 && (d == 29 <==> doy == 365))
            && (m != 2 ==> d <= DaysInMonth(2001, m))
  {
    var mp := (5 * doy + 2) / 153;
    assert 153 * mp <= 5 * doy + 2 < 153 * (mp + 1);
    assert mp in {0, 1, 2, 3, 4, 5, 6, 7, 8, 9, 10, 11};
  }

  /** Day numbers are strictly monotone in date order, across any years. */
  lemma ToDaysMonotone(a: Date, b: Date)
    requires Valid(a) && Valid(b)
    ensures Before(a, b) <==> ToDays(a) < ToDays(b)
  {
    ToDaysCounts(a);
    ToDaysCounts(b);
    if Before(a, b) { CountMonotone(a, b); }
    if Before(b, a) { CountMonotone(b, a); }
  }

  lemma CountMonotone(a: Date, b: Date)
    requires Valid(a) && Valid(b) && Before(a, b)
    ensures DayCount(a) < DayCount(b)
  {
    WithinYear(a);
    WithinYear(b);
    if a.y < b.y {
      YearsMonotone(a.y + 1, b.y);
      assert DaysToYear(a.y + 1) == DaysToYear(a.y) + DaysInYear(a.y) by { YearStep(a.y); }
    } else if a.m < b.m {
      MonthsMonotone(a.y, a.m, b.m);
    }
  }

  lemma YearStep(y: int)
    ensures DaysToYear(y + 1) == DaysToYear(y) + DaysInYear(y)
  {
    if y < 1970 { assert DaysToYear(y) == DaysToYear(y + 1) - DaysInYear(y); }
  }

  lemma {:induction false} YearsMonotone(y: int, z: int)
    requires y <= z
    ensures DaysToYear(y) <= DaysToYear(z)
    decreases z - y
  {
    if y < z { YearStep(y); YearsMonotone(y + 1, z); }
  }

  lemma {:induction false} MonthsMonotone(y: int, m: int, n: int)
    requires 1 <= m < n <= 12
    ensures DaysToMonth(y, m) + DaysInMonth(y, m) <= DaysToMonth(y, n)
    decreases n - m
  {
    if m + 1 < n { MonthsMonotone(y, m, n - 1); }
  }

  lemma WithinYear(dt: Date)
    requires Valid(dt)
    ensures 0 <= DaysToMonth(dt.y, dt.m) + dt.d - 1 < DaysInYear(dt.y)
  {
    DaysToMonthClosed(dt.y, dt.m);
  }

  /** The other half of the inversion: every valid date comes back from its day number. */
  lemma ToDaysInverse(dt: Date)
    requires Valid(dt)
    ensures FromDays(ToDays(dt)) == dt
  {
    FromDaysInverse(ToDays(dt));
    ToDaysMonotone(dt, FromDays(ToDays(dt)));
    ToDaysMonotone(FromDays(ToDays(dt)), dt);
  }

  /** A date survives the round trip exactly when it is on the calendar; `parse` decides by this. */
  lemma RoundTripIffValid(dt: Date)
    ensures FromDays(ToDays(dt)) == dt <==> Valid(dt)
  {
    FromDaysInverse(ToDays(dt));
    if Valid(dt) { ToDaysInverse(dt); }
  }

  /** `next` is the calendar's successor. */
  lemma NextIsSuccessor(dt: Date)
    requires Valid(dt)
    ensures Next(dt) == Successor(dt)
  {
    hide FromDays, ToDays, TruncDiv;
    var s := Successor(dt);
    assert Valid(s);
    assert DayCount(s) == DayCount(dt) + 1 by {
      YearStep(dt.y);
      DaysToMonthClosed(dt.y, dt.m);
    }
    ToDaysCounts(dt);
    ToDaysCounts(s);
    ToDaysInverse(s);
  }
}
