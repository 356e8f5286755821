/**
 The calendar behind the date renderers: a date computed from a day count by divisions only,
 proved to be the Gregorian calendar counted out day by day from 1 January 1970.
 */
module Calendar {
  datatype Date = Date(year: int, month: int, day: int)

  /** Days from 1 March of year 0 to 1 January 1970, and days in 400 years. */
  const EPOCH := 719_468
  const ERA := 146_097

  function YearOfEra(doe: int): int {
    (doe - doe / 1460 + doe / 36_524 - doe / 146_096) / 365
  }

  /** Day of the era on which year `yoe`, counted from March, begins. */
  function YearStart(yoe: int): int {
    365 * yoe + yoe / 4 - yoe / 100
  }

  /** Day of the year on which month `mp`, counted from March, begins. */
  function MonthStart(mp: int): int {
    (153 * mp + 2) / 5
  }

  function CivilOf(era: int, yoe: int, doy: int): Date {
    var y := yoe + era * 400;
    var mp := (5 * doy + 2) / 153;
    var d := doy - MonthStart(mp) + 1;
    var m := if mp < 10 then mp + 3 else mp - 9;
    Date(if m <= 2 then y + 1 else y, m, d)
  }

  function CivilInEra(era: int, doe: int): Date {
    CivilOf(era, YearOfEra(doe), doe - YearStart(YearOfEra(doe)))
  }

  /** The date `z` days after 1 January 1970, before it when `z` is negative. */
  function CivilFromDays(z: int): Date {
    CivilInEra((z + EPOCH) / ERA, (z + EPOCH) % ERA)
  }

  // ----- the calendar

  predicate Leap(year: int) {
    year % 4 == 0 && (year % 100 != 0 || year % 400 == 0)
  }

  function DaysInMonth(year: int, month: int): int {
    if month == 2 then (if Leap(year) then 29 else 28)
    else if month in {4, 6, 9, 11} then 30 else 31
  }

  predicate ValidDate(date: Date) {
    1 <= date.month <= 12 && 1 <= date.day <= DaysInMonth(date.year, date.month)
  }

  function Tomorrow(date: Date): Date {
    if date.day < DaysInMonth(date.year, date.month) then date.(day := date.day + 1)
    else if date.month < 12 then Date(date.year, date.month + 1, 1)
    else Date(date.year + 1, 1, 1)
  }

  function DaysAfterEpoch(n: nat): Date {
    if n == 0 then Date(1970, 1, 1) else Tomorrow(DaysAfterEpoch(n - 1))
  }

  /** Days of the year that begins in March of year `yoe`: its February is the next year's. */
  function YearLength(yoe: int): int {
    if Leap(yoe + 1) then 366 else 365
  }

  // ----- years

  lemma By1460(x: int, q: int)
    requires 1460 * q <= x < 1460 * q + 1460
    ensures x / 1460 == q
  {
  }

  lemma By36524(x: int, q: int)
    requires 36_524 * q <= x < 36_524 * q + 36_524
    ensures x / 36_524 == q
  {
  }

  lemma By365(x: int, q: int)
    requires 365 * q <= x < 365 * q + 365
    ensures x / 365 == q
  {
  }

  /** Day `t` of year 100k + 4j + s of the era: `t` is 365 only in a leap year. */
  predicate DayOfYear(k: int, j: int, s: int, t: int) {
    0 <= k < 4 && 0 <= j < 25 && 0 <= s < 4 && 0 <= t <= 365 && (t == 365 ==> s == 3 && (j == 24 ==> k == 3))
  }

  lemma YearFoundAt(k: int, j: int, s: int, t: int)
    requires DayOfYear(k, j, s, t)
    ensures YearOfEra(36_524 * k + 1461 * j + 365 * s + t) == 100 * k + 4 * j + s
  {
    var doe := 36_524 * k + 1461 * j + 365 * s + t;
    var over := if 24 * k + j + 365 * s + t < 1460 then 0 else 1;
    By1460(doe, 25 * k + j + over);
    Centuries(k, j, s, t);
    By365(doe - (25 * k + j + over) + k, 100 * k + 4 * j + s);
  }

  /** The count of centuries is off by one on the last day of the era, and so is that of eras. */
  lemma Centuries(k: int, j: int, s: int, t: int)
    requires DayOfYear(k, j, s, t)
    ensures var doe := 36_524 * k + 1461 * j + 365 * s + t; doe / 36_524 - doe / 146_096 == k
  {
    var doe := 36_524 * k + 1461 * j + 365 * s + t;
    if !(t == 365 && j == 24) {
      By36524(doe, k);
    }
  }

  lemma YearParts(yoe: int)
    requires 0 <= yoe < 400
    ensures var k, j, s := yoe / 100, yoe % 100 / 4, yoe % 4;
            && 0 <= k < 4 && 0 <= j < 25 && 0 <= s < 4 && yoe == 100 * k + 4 * j + s
            && YearStart(yoe) == 36_524 * k + 1461 * j + 365 * s
            && (YearLength(yoe) == 366 ==> s == 3 && (j == 24 ==> k == 3))
  {
    var k, j, s := yoe / 100, yoe % 100 / 4, yoe % 4;
    assert yoe == 100 * k + 4 * j + s;
    assert yoe / 4 == 25 * k + j;
  }

  /** The divisions find the year a day of the era lies in. */
  lemma YearFound(doe: int, yoe: int)
    requires 0 <= yoe < 400 && YearStart(yoe) <= doe < YearStart(yoe) + YearLength(yoe)
    ensures YearOfEra(doe) == yoe
  {
    YearParts(yoe);
    YearFoundAt(yoe / 100, yoe % 100 / 4, yoe % 4, doe - YearStart(yoe));
  }

  /** Years follow each other through the era without gap, and fill it. */
  lemma YearsFollow(yoe: int)
    requires 0 <= yoe < 400
    ensures YearStart(yoe) + YearLength(yoe) == if yoe < 399 then YearStart(yoe + 1) else ERA
    ensures yoe < 399 ==> YearStart(yoe + 1) < ERA
  {
    Quarter(yoe);
    Hundredth(yoe);
  }

  lemma Quarter(yoe: int)
    ensures (yoe + 1) / 4 == yoe / 4 + if (yoe + 1) % 4 == 0 then 1 else 0
  {
  }

  lemma Hundredth(yoe: int)
    ensures (yoe + 1) / 100 == yoe / 100 + if (yoe + 1) % 100 == 0 then 1 else 0
  {
  }

  lemma {:induction false} YearExists(doe: int, yoe: int) returns (y: int)
    requires 0 <= yoe < 400 && YearStart(yoe) <= doe < ERA
    ensures 0 <= y < 400 && YearStart(y) <= doe < YearStart(y) + YearLength(y)
    decreases 400 - yoe
  {
    YearsFollow(yoe);
    if doe < YearStart(yoe) + YearLength(yoe) {
      y := yoe;
    } else {
      y := YearExists(doe, yoe + 1);
    }
  }

  lemma YearOf(doe: int)
    requires 0 <= doe < ERA
    ensures var y := YearOfEra(doe); 0 <= y < 400 && YearStart(y) <= doe < YearStart(y) + YearLength(y)
  {
    var y := YearExists(doe, 0);
    YearFound(doe, y);
  }

  // ----- months

  lemma MonthFound(doy: int)
    requires 0 <= doy < 366
    ensures var mp := (5 * doy + 2) / 153; 0 <= mp < 12 && MonthStart(mp) <= doy < MonthStart(mp + 1)
  {
  }

  lemma MonthUnique(doy: int, mp: int)
    requires 0 <= mp < 12 && MonthStart(mp) <= doy < MonthStart(mp + 1)
    ensures (5 * doy + 2) / 153 == mp
  {
  }

  lemma LeapPeriod(year: int, era: int)
    ensures Leap(year + 400 * era) == Leap(year)
  {
    Period4(year, era);
    Period100(year, era);
    Period400(year, era);
  }

  lemma Period4(year: int, era: int)
    ensures (year + 400 * era) % 4 == year % 4
  {
    Shift4(year, 100 * era);
  }

  lemma Shift4(x: int, q: int)
    ensures (x + 4 * q) % 4 == x % 4
  {
  }

  lemma Period100(year: int, era: int)
    ensures (year + 400 * era) % 100 == year % 100
  {
    Shift100(year, 4 * era);
  }

  lemma Shift100(x: int, q: int)
    ensures (x + 100 * q) % 100 == x % 100
  {
  }

  lemma Period400(year: int, era: int)
    ensures (year + 400 * era) % 400 == year % 400
  {
  }

  /** The month reached from March has the calendar's length. */
  lemma MonthLengths(era: int, yoe: int, mp: int)
    requires 0 <= mp < 12 && 0 <= yoe < 400
    ensures var date := CivilOf(era, yoe, MonthStart(mp));
            && date.day == 1 && date.month == (if mp < 10 then mp + 3 else mp - 9)
            && date.year == yoe + 400 * era + (if mp < 10 then 0 else 1)
            && DaysInMonth(date.year, date.month) ==
               if mp < 11 then MonthStart(mp + 1) - MonthStart(mp) else YearLength(yoe) - MonthStart(11)
  {
    MonthUnique(MonthStart(mp), mp);
    LeapPeriod(yoe + 1, era);
  }

  // ----- days

  /** Within a year from March, the date a day later is the calendar's tomorrow. */
  lemma WithinYear(era: int, yoe: int, doy: int)
    requires 0 <= yoe < 400 && 0 <= doy < YearLength(yoe)
    ensures ValidDate(CivilOf(era, yoe, doy))
    ensures doy + 1 < YearLength(yoe) ==> CivilOf(era, yoe, doy + 1) == Tomorrow(CivilOf(era, yoe, doy))
    ensures doy + 1 == YearLength(yoe) ==> Tomorrow(CivilOf(era, yoe, doy)) == Date(yoe + 400 * era + 1, 3, 1)
  {
    MonthFound(doy);
    var mp := (5 * doy + 2) / 153;
    MonthLengths(era, yoe, mp);
    if doy + 1 < MonthStart(mp + 1) {
      MonthUnique(doy + 1, mp);
    } else if mp < 11 {
      MonthLengths(era, yoe, mp + 1);
    }
  }

  /** The day of the era and the era of the next day. */
  lemma NextOfEra(x: int)
    ensures x % ERA + 1 < ERA ==> (x + 1) / ERA == x / ERA && (x + 1) % ERA == x % ERA + 1
    ensures x % ERA + 1 == ERA ==> (x + 1) / ERA == x / ERA + 1 && (x + 1) % ERA == 0
  {
  }

  /** One more day is one day later, over the whole proleptic calendar. */
  lemma NextDay(z: int)
    ensures ValidDate(CivilFromDays(z)) && CivilFromDays(z + 1) == Tomorrow(CivilFromDays(z))
  {
    NextOfEra(z + EPOCH);
    assert z + 1 + EPOCH == z + EPOCH + 1;
    NextInEra((z + EPOCH) / ERA, (z + EPOCH) % ERA);
  }

  lemma InEra(era: int, yoe: int, doy: int, doe: int)
    requires 0 <= yoe < 400 && 0 <= doy < YearLength(yoe) && doe == YearStart(yoe) + doy
    ensures CivilInEra(era, doe) == CivilOf(era, yoe, doy)
  {
    YearFound(doe, yoe);
  }

  lemma NextInEra(era: int, doe: int)
    requires 0 <= doe < ERA
    ensures ValidDate(CivilInEra(era, doe))
    ensures Tomorrow(CivilInEra(era, doe)) == if doe + 1 < ERA then CivilInEra(era, doe + 1) else CivilInEra(era + 1, 0)
  {
    YearOf(doe);
    NextFrom(era, YearOfEra(doe), doe - YearStart(YearOfEra(doe)), doe);
  }

  lemma NextFrom(era: int, yoe: int, doy: int, doe: int)
    requires 0 <= yoe < 400 && 0 <= doy < YearLength(yoe) && doe == YearStart(yoe) + doy
    ensures ValidDate(CivilInEra(era, doe))
    ensures Tomorrow(CivilInEra(era, doe)) == if doe + 1 < ERA then CivilInEra(era, doe + 1) else CivilInEra(era + 1, 0)
  {
    InEra(era, yoe, doy, doe);
    WithinYear(era, yoe, doy);
    EraNotOver(yoe, doy);
    if doy + 1 < YearLength(yoe) {
      InEra(era, yoe, doy + 1, doe + 1);
    } else {
      NextYear(era, yoe, doe + 1);
    }
  }

  lemma EraNotOver(yoe: int, doy: int)
    requires 0 <= yoe < 400 && 0 <= doy < YearLength(yoe)
    ensures doy + 1 < YearLength(yoe) ==> YearStart(yoe) + doy + 1 < ERA
  {
    YearsFollow(yoe);
  }

  lemma NextYear(era: int, yoe: int, doe: int)
    requires 0 <= yoe < 400 && doe == YearStart(yoe) + YearLength(yoe)
    ensures Date(yoe + 400 * era + 1, 3, 1) == if doe < ERA then CivilInEra(era, doe) else CivilInEra(era + 1, 0)
  {
    YearsFollow(yoe);
    if yoe < 399 {
      FirstOfMarch(era, yoe + 1, doe, yoe + 400 * era + 1);
    } else {
      FirstOfMarch(era + 1, 0, 0, yoe + 400 * era + 1);
    }
  }

  lemma FirstOfMarch(era: int, yoe: int, doe: int, year: int)
    requires 0 <= yoe < 400 && doe == YearStart(yoe) && year == yoe + 400 * era
    ensures CivilInEra(era, doe) == Date(year, 3, 1)
  {
    InEra(era, yoe, 0, doe);
  }

  lemma Epoch()
    ensures CivilFromDays(0) == Date(1970, 1, 1)
  {
    assert EPOCH / ERA == 4 && EPOCH % ERA == 135_080;
    InEra(4, 369, 306, 135_080);
  }

  lemma NextDayIs(z: int, next: int)
    requires next == z + 1
    ensures CivilFromDays(next) == Tomorrow(CivilFromDays(z))
  {
    NextDay(z);
  }

  lemma {:induction false} Counted(f: int -> Date, n: nat)
    requires f(0) == Date(1970, 1, 1)
    requires forall z, next :: next == z + 1 ==> f(next) == Tomorrow(f(z))
    ensures f(n) == DaysAfterEpoch(n)
  {
    if n > 0 {
      Counted(f, n - 1);
    }
  }

  /** The computed date is the calendar counted out from the epoch. */
  lemma CivilIsCalendar(n: nat)
    ensures CivilFromDays(n) == DaysAfterEpoch(n)
  {
    Epoch();
    forall z, next | next == z + 1 ensures CivilFromDays(next) == Tomorrow(CivilFromDays(z)) {
      NextDayIs(z, next);
    }
    Counted(CivilFromDays, n);
  }

  // ----- and back

  function DaysFromCivil(date: Date): int {
    var y := if date.month <= 2 then date.year - 1 else date.year;
    var mp := if date.month > 2 then date.month - 3 else date.month + 9;
    y / 400 * ERA + YearStart(y % 400) + MonthStart(mp) + date.day - 1 - EPOCH
  }

  lemma Split400(y: int, era: int, yoe: int)
    requires y == yoe + era * 400 && 0 <= yoe < 400
    ensures y / 400 == era && y % 400 == yoe
  {
  }

  lemma BackInEra(era: int, yoe: int, doy: int)
    requires 0 <= yoe < 400 && 0 <= doy < YearLength(yoe)
    ensures DaysFromCivil(CivilOf(era, yoe, doy)) == era * ERA + YearStart(yoe) + doy - EPOCH
  {
    MonthFound(doy);
    Split400(yoe + era * 400, era, yoe);
  }

  /** A date names its day: every day is found again from its date. */
  lemma DaysFromCivilFromDays(z: int)
    ensures DaysFromCivil(CivilFromDays(z)) == z
  {
    BackFromEra((z + EPOCH) / ERA, (z + EPOCH) % ERA);
  }

  lemma BackFromEra(era: int, doe: int)
    requires 0 <= doe < ERA
    ensures DaysFromCivil(CivilInEra(era, doe)) == era * ERA + doe - EPOCH
  {
    YearOf(doe);
    BackFrom(era, YearOfEra(doe), doe - YearStart(YearOfEra(doe)), doe);
  }

  lemma BackFrom(era: int, yoe: int, doy: int, doe: int)
    requires 0 <= yoe < 400 && 0 <= doy < YearLength(yoe) && doe == YearStart(yoe) + doy
    ensures DaysFromCivil(CivilInEra(era, doe)) == era * ERA + doe - EPOCH
  {
    InEra(era, yoe, doy, doe);
    BackInEra(era, yoe, doy);
  }

  /** Up to the last day of 9999 the year has four digits. */
  lemma FourDigitYear(z: int)
    requires 0 <= z <= 2_932_896
    ensures 1970 <= CivilFromDays(z).year <= 9999
  {
    var era, doe := (z + EPOCH) / ERA, (z + EPOCH) % ERA;
    YearOf(doe);
    YearBounds(era, YearOfEra(doe), doe - YearStart(YearOfEra(doe)), z);
  }

  lemma YearBounds(era: int, yoe: int, doy: int, z: int)
    requires 0 <= yoe < 400 && 0 <= doy < YearLength(yoe)
    requires 0 <= z <= 2_932_896 && z + EPOCH == era * ERA + YearStart(yoe) + doy
    ensures 1970 <= CivilOf(era, yoe, doy).year <= 9999
  {
    YearsFollow(yoe);
    MonthFound(doy);
    assert 4 <= era <= 24;
    if era == 4 {
      LateYear(yoe, doy);
    }
  }

  lemma LateYear(yoe: int, doy: int)
    requires 0 <= yoe < 400 && 0 <= doy < YearLength(yoe) && YearStart(yoe) + doy >= 135_080
    ensures yoe > 369 || (yoe == 369 && doy >= 306)
  {
  }
}
