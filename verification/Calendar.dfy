/**
 The proleptic Gregorian calendar as day numbers relative to 1970-01-01.
 */
module Calendar {

  /** Division as C++ does it: rounding toward zero. The divisor is positive everywhere here. */
  function TruncDiv(a: int, b: int): int
    requires b > 0
  {
    if a >= 0 then a / b else -((-a) / b)
  }

  datatype CivilDate = CivilDate(year: int, month: int, day: int)

  predicate IsLeapYear(year: int) {
    if year % 4 != 0 then false else if year % 100 != 0 then true else year % 400 == 0
  }

  function DaysInMonth(year: int, month: int): int
    requires 1 <= month <= 12
  {
    var base := [31, 28, 31, 30, 31, 30, 31, 31, 30, 31, 30, 31][month - 1];
    if month == 2 && IsLeapYear(year) then base + 1 else base
  }

  predicate ValidDate(c: CivilDate) {
    1 <= c.month <= 12 && 1 <= c.day <= DaysInMonth(c.year, c.month)
  }

  function DaysFromCivil(year: int, month: int, day: int): int {
    var y := year - (if month <= 2 then 1 else 0);
    var era := TruncDiv(if y >= 0 then y else y - 399, 400);
    var yoe := y - era * 400;
    var doy := (153 * (month + (if month > 2 then -3 else 9)) + 2) / 5 + day - 1;
    var doe := yoe * 365 + yoe / 4 - yoe / 100 + yoe / 400 + doy;
    era * 146097 + doe - 719468
  }

  function CivilFromDays(days: int): CivilDate {
    var z := days + 719468;
    var era := TruncDiv(if z >= 0 then z else z - 146096, 146097);
    DateInEra(era, z - era * 146097)
  }

  /** The date of day `doe` of a 400-year era, the part of the conversion that repeats in every era. */
  function DateInEra(era: int, doe: int): CivilDate {
    var yoe := (doe - doe / 1460 + doe / 36524 - doe / 146096) / 365;
    var y := yoe + era * 400;
    var doy := doe - (365 * yoe + yoe / 4 - yoe / 100);
    var mp := (5 * doy + 2) / 153;
    var d := doy - (153 * mp + 2) / 5 + 1;
    var m := mp + (if mp < 10 then 3 else -9);
    CivilDate(y + (if m <= 2 then 1 else 0), m, d)
  }

  /** The calendar's own rule for the day after `c`. */
  function NextDay(c: CivilDate): CivilDate
    requires ValidDate(c)
  {
    if c.day < DaysInMonth(c.year, c.month) then CivilDate(c.year, c.month, c.day + 1)
    else if c.month < 12 then CivilDate(c.year, c.month + 1, 1)
    else CivilDate(c.year + 1, 1, 1)
  }

  // ----- years that begin in March, counted inside a 400-year era

  /** Day of the era on which March-based year `yoe` begins. */
  function YearStart(yoe: int): int {
    365 * yoe + yoe / 4 - yoe / 100 + yoe / 400
  }

  function YearLength(yoe: int): int {
    if IsLeapYear(yoe + 1) then 366 else 365
  }

  /** Day of the March-based year on which its month `mp` begins. */
  function MonthStart(mp: int): int {
    (153 * mp + 2) / 5
  }

  lemma DivStep(y: int, n: int)
    requires n == 4 || n == 100 || n == 400
    ensures (y + 1) / n == y / n + (if (y + 1) % n == 0 then 1 else 0)
  {
  }

  lemma CenturiesAreMultiplesOfFour(y: int)
    ensures y % 100 == 0 ==> y % 4 == 0
    ensures y % 400 == 0 ==> y % 100 == 0
  {
    assert y % 100 == 0 ==> y == 4 * (25 * (y / 100));
    assert y % 400 == 0 ==> y == 100 * (4 * (y / 400));
  }

  lemma NextYearStart(yoe: int)
    ensures YearStart(yoe + 1) == YearStart(yoe) + YearLength(yoe)
  {
    DivStep(yoe, 4);
    DivStep(yoe, 100);
    DivStep(yoe, 400);
    CenturiesAreMultiplesOfFour(yoe + 1);
  }

  /** The floor form of the era computation in both directions. */
  lemma EraIsFloor(z: int, n: int)
    requires n == 400 || n == 146097
    ensures TruncDiv(if z >= 0 then z else z - (n - 1), n) == z / n
  {
  }

  /** The same with the year split as 100a + 4b + c; only the last day of the era divides by 146096. */
  lemma YearOfEraParts(a: int, b: int, c: int, doy: int)
    requires 0 <= a <= 3 && 0 <= b <= 24 && 0 <= c <= 3
    requires 0 <= doy < (if c == 3 && (b < 24 || a == 3) then 366 else 365)
    ensures
      var doe := 36524 * a + 1461 * b + 365 * c + doy;
      && 0 <= doe < 146097
      && (doe - doe / 1460 + doe / 36524 - doe / 146096) / 365 == 100 * a + 4 * b + c
  {
    var doe := 36524 * a + 1461 * b + 365 * c + doy;
    var r := 24 * a + b + 365 * c + doy;
    assert doe == 1460 * (25 * a + b) + r && 0 <= r < 2920;
    var carry := if r >= 1460 then 1 else 0;
    assert doe / 1460 == 25 * a + b + carry;
    var last := if doe == 146096 then 1 else 0;
    assert doe / 146096 == last;
    assert doe / 36524 == a + last;
  }

  /** The closed formula for the year of the era inverts `YearStart`. */
  lemma YearOfEra(yoe: int, doy: int)
    requires 0 <= yoe < 400 && 0 <= doy < YearLength(yoe)
    ensures
      var doe := 365 * yoe + yoe / 4 - yoe / 100 + doy;
      0 <= doe < 146097 && (doe - doe / 1460 + doe / 36524 - doe / 146096) / 365 == yoe
  {
    var a := yoe / 100;
    var b := (yoe - 100 * a) / 4;
    var c := yoe - 100 * a - 4 * b;
    assert yoe == 100 * a + 4 * b + c && 0 <= a <= 3 && 0 <= b <= 24 && 0 <= c <= 3;
    var doe := 365 * yoe + yoe / 4 - yoe / 100 + doy;
    assert doe == 36524 * a + 1461 * b + 365 * c + doy by {
      assert yoe / 4 == 25 * a + b;
    }
    assert IsLeapYear(yoe + 1) ==> c == 3 && (b < 24 || a == 3);
    YearOfEraParts(a, b, c, doy);
  }

  /** Every day of an era lies in exactly one of its 400 years. */
  lemma EraCovered(doe: int) returns (yoe: int)
    requires 0 <= doe < 146097
    ensures 0 <= yoe < 400 && YearStart(yoe) <= doe < YearStart(yoe) + YearLength(yoe)
  {
    yoe := 0;
    while doe >= YearStart(yoe) + YearLength(yoe)
      invariant 0 <= yoe < 400 && YearStart(yoe) <= doe
      decreases 400 - yoe
    {
      NextYearStart(yoe);
      yoe := yoe + 1;
    }
  }

  lemma MonthOfYear(doy: int)
    requires 0 <= doy < 366
    ensures
      var mp := (5 * doy + 2) / 153;
      0 <= mp <= 11 && MonthStart(mp) <= doy && (mp < 11 ==> doy < MonthStart(mp + 1))
  {
  }

  lemma MonthOfYearUnique(mp: int, d: int)
    requires 0 <= mp <= 11 && 1 <= d && MonthStart(mp) + d - 1 < 366
    requires mp < 11 ==> d <= MonthStart(mp + 1) - MonthStart(mp)
    ensures (5 * (MonthStart(mp) + d - 1) + 2) / 153 == mp
  {
  }

  lemma MonthLengths(year: int, month: int)
    requires 1 <= month <= 12
    ensures month > 2 ==> DaysInMonth(year, month) == MonthStart(month - 2) - MonthStart(month - 3)
    ensures month == 1 ==> DaysInMonth(year, month) == MonthStart(11) - MonthStart(10)
    ensures month == 2 ==> DaysInMonth(year, month) == YearLength(year - 1) - MonthStart(11)
  {
  }

  // ----- the two conversions through (era, year of era, day of year)

  /** March-based coordinates of a valid date, and its day number in terms of them. */
  lemma MarchBased(c: CivilDate) returns (era: int, yoe: int, mp: int)
    requires ValidDate(c)
    ensures InYear(yoe, mp, c.day) && c == FromMarch(era, yoe, mp, c.day)
    ensures DaysFromCivil(c.year, c.month, c.day) ==
            era * 146097 + YearStart(yoe) + MonthStart(mp) + c.day - 1 - 719468
  {
    var y := c.year - (if c.month <= 2 then 1 else 0);
    EraIsFloor(y, 400);
    era, yoe := y / 400, y % 400;
    mp := if c.month > 2 then c.month - 3 else c.month + 9;
    MonthLengths(c.year, c.month);
    LeapYearsRepeat(era, yoe + 1);
  }

  lemma LeapYearsRepeat(era: int, y: int)
    ensures IsLeapYear(400 * era + y) == IsLeapYear(y)
  {
    assert (400 * era + y) % 4 == y % 4 by { SameRemainder(100 * era, y, 4); }
    assert (400 * era + y) % 100 == y % 100 by { SameRemainder(4 * era, y, 100); }
    assert (400 * era + y) % 400 == y % 400 by { SameRemainder(era, y, 400); }
  }

  lemma SameRemainder(k: int, y: int, n: int)
    requires n == 4 || n == 100 || n == 400
    ensures (n * k + y) % n == y % n
  {
  }

  lemma SplitIntoEra(era: int, doe: int)
    requires 0 <= doe < 146097
    ensures (era * 146097 + doe) / 146097 == era
  {
  }

  lemma CivilFromEra(days: int, era: int, doe: int)
    requires 0 <= doe < 146097 && days == era * 146097 + doe - 719468
    ensures CivilFromDays(days) == DateInEra(era, doe)
  {
    EraIsFloor(days + 719468, 146097);
    SplitIntoEra(era, doe);
  }

  lemma DateInEraIsFromMarch(era: int, doe: int, yoe: int, doy: int, mp: int)
    requires yoe == (doe - doe / 1460 + doe / 36524 - doe / 146096) / 365
    requires doe == 365 * yoe + yoe / 4 - yoe / 100 + doy
    requires 0 <= doy && mp == (5 * doy + 2) / 153 <= 11
    ensures DateInEra(era, doe) == FromMarch(era, yoe, mp, doy - MonthStart(mp) + 1)
  {
  }

  /** The civil date with the given March-based coordinates. */
  function FromMarch(era: int, yoe: int, mp: int, d: int): CivilDate {
    CivilDate(400 * era + yoe + (if mp < 10 then 0 else 1), if mp < 10 then mp + 3 else mp - 9, d)
  }

  /** March-based coordinates name a day of their year. */
  ghost predicate InYear(yoe: int, mp: int, d: int) {
    && 0 <= yoe < 400 && 0 <= mp <= 11 && 1 <= d
    && MonthStart(mp) + d - 1 < YearLength(yoe)
    && (mp < 11 ==> d <= MonthStart(mp + 1) - MonthStart(mp))
  }

  /** What `CivilFromDays` computes for a day given in March-based coordinates. */
  lemma CivilFromMarchBased(days: int, era: int, yoe: int, mp: int, d: int)
    requires InYear(yoe, mp, d)
    requires days == era * 146097 + YearStart(yoe) + MonthStart(mp) + d - 1 - 719468
    ensures CivilFromDays(days) == FromMarch(era, yoe, mp, d)
  {
    var doy := MonthStart(mp) + d - 1;
    YearOfEra(yoe, doy);
    MonthOfYearUnique(mp, d);
    var doe := 365 * yoe + yoe / 4 - yoe / 100 + doy;
    assert YearStart(yoe) + doy == doe;
    CivilFromEra(days, era, doe);
    DateInEraIsFromMarch(era, doe, yoe, doy, mp);
  }

  /** Date to day number and back is the identity on every valid date. */
  lemma DateRoundTrip(c: CivilDate)
    requires ValidDate(c)
    ensures CivilFromDays(DaysFromCivil(c.year, c.month, c.day)) == c
  {
    var era, yoe, mp := MarchBased(c);
    CivilFromMarchBased(DaysFromCivil(c.year, c.month, c.day), era, yoe, mp, c.day);
  }

  /** Every day number has March-based coordinates. */
  lemma DayInMarchBased(days: int) returns (era: int, yoe: int, mp: int, d: int)
    ensures InYear(yoe, mp, d)
    ensures days == era * 146097 + YearStart(yoe) + MonthStart(mp) + d - 1 - 719468
  {
    var z := days + 719468;
    era := z / 146097;
    var doe := z % 146097;
    yoe := EraCovered(doe);
    var doy := doe - YearStart(yoe);
    MonthOfYear(doy);
    mp := (5 * doy + 2) / 153;
    d := doy - MonthStart(mp) + 1;
  }

  /** March-based coordinates within bounds name a valid date, and determine its day number. */
  lemma MarchBasedIsValid(era: int, yoe: int, mp: int, d: int)
    requires InYear(yoe, mp, d)
    ensures
      var c := FromMarch(era, yoe, mp, d);
      && ValidDate(c)
      && DaysFromCivil(c.year, c.month, c.day) ==
         era * 146097 + YearStart(yoe) + MonthStart(mp) + d - 1 - 719468
  {
    var c := FromMarch(era, yoe, mp, d);
    MonthLengths(c.year, c.month);
    LeapYearsRepeat(era, yoe + 1);
    var era', yoe', mp' := MarchBased(c);
    assert era' == era && yoe' == yoe && mp' == mp;
  }

  /** Day number to date and back is the identity on every integer, and the date is a valid one. */
  lemma DayNumberRoundTrip(days: int)
    ensures
      var c := CivilFromDays(days);
      ValidDate(c) && DaysFromCivil(c.year, c.month, c.day) == days
  {
    var era, yoe, mp, d := DayInMarchBased(days);
    CivilFromMarchBased(days, era, yoe, mp, d);
    MarchBasedIsValid(era, yoe, mp, d);
  }

  /** The day number rises by one from any date to the calendar's next day. */
  lemma NextDayIsNextNumber(c: CivilDate)
    requires ValidDate(c)
    ensures
      var n := NextDay(c);
      ValidDate(n) && DaysFromCivil(n.year, n.month, n.day) == DaysFromCivil(c.year, c.month, c.day) + 1
  {
    var era, yoe, mp := MarchBased(c);
    MarchMonthLength(era, yoe, mp, c.day);
    if c.day < MarchMonth(yoe, mp) {
      MarchBasedIsValid(era, yoe, mp, c.day + 1);
      assert NextDay(c) == FromMarch(era, yoe, mp, c.day + 1);
    } else if mp < 11 {
      MonthFits(yoe, mp + 1);
      MarchBasedIsValid(era, yoe, mp + 1, 1);
      assert NextDay(c) == FromMarch(era, yoe, mp + 1, 1);
    } else {
      var era', yoe' := if yoe < 399 then era else era + 1, if yoe < 399 then yoe + 1 else 0;
      NextMarch(era, yoe, era', yoe');
      MonthFits(yoe', 0);
      MarchBasedIsValid(era', yoe', 0, 1);
      assert NextDay(c) == FromMarch(era', yoe', 0, 1);
    }
  }

  function MarchMonth(yoe: int, mp: int): int {
    if mp < 11 then MonthStart(mp + 1) - MonthStart(mp) else YearLength(yoe) - MonthStart(11)
  }

  lemma MarchMonthLength(era: int, yoe: int, mp: int, d: int)
    requires InYear(yoe, mp, d)
    ensures var c := FromMarch(era, yoe, mp, d); DaysInMonth(c.year, c.month) == MarchMonth(yoe, mp)
    ensures d < MarchMonth(yoe, mp) ==> InYear(yoe, mp, d + 1)
  {
    var c := FromMarch(era, yoe, mp, d);
    MonthLengths(c.year, c.month);
    LeapYearsRepeat(era, yoe + 1);
  }

  lemma MonthFits(yoe: int, mp: int)
    requires 0 <= yoe < 400 && 0 <= mp <= 11
    ensures InYear(yoe, mp, 1)
  {
  }

  /** 1 March follows the last day of February, across eras too. */
  lemma NextMarch(era: int, yoe: int, era': int, yoe': int)
    requires 0 <= yoe < 400 && 0 <= yoe' < 400 && 400 * era' + yoe' == 400 * era + yoe + 1
    ensures 146097 * era' + YearStart(yoe') == 146097 * era + YearStart(yoe) + YearLength(yoe)
  {
    NextYearStart(yoe);
    assert YearStart(400) == 146097 && YearStart(0) == 0;
    if yoe < 399 {
      assert era' == era && yoe' == yoe + 1;
    } else {
      assert era' == era + 1 && yoe' == 0;
    }
  }

  /** The numbering is anchored at the Unix epoch and at the FILETIME epoch. */
  lemma Epochs()
    ensures DaysFromCivil(1970, 1, 1) == 0
    ensures DaysFromCivil(1601, 1, 1) == -134774
  {
  }

  /** Lexicographic order on dates. */
  predicate Before(a: CivilDate, b: CivilDate) {
    || a.year < b.year
    || (a.year == b.year && (a.month < b.month || (a.month == b.month && a.day < b.day)))
  }

  /** Day numbers order dates exactly as the calendar does. */
  lemma DayNumbersOrderDates(a: CivilDate, b: CivilDate)
    requires ValidDate(a) && ValidDate(b)
    ensures Before(a, b) <==> DaysFromCivil(a.year, a.month, a.day) < DaysFromCivil(b.year, b.month, b.day)
  {
    if Before(a, b) {
      EarlierHasSmallerNumber(a, b);
    } else if Before(b, a) {
      EarlierHasSmallerNumber(b, a);
    } else {
      assert a == b;
    }
  }

  lemma EarlierHasSmallerNumber(a: CivilDate, b: CivilDate)
    requires ValidDate(a) && ValidDate(b) && Before(a, b)
    ensures DaysFromCivil(a.year, a.month, a.day) < DaysFromCivil(b.year, b.month, b.day)
  {
    var era, yoe, mp := MarchBased(a);
    var era', yoe', mp' := MarchBased(b);
    if era == era' && yoe == yoe' {
      MonthStartsAscend(mp, mp');
    } else {
      YearStartsAscend(era, yoe, era', yoe');
    }
  }

  lemma MonthStartsAscend(mp: int, mp': int)
    requires 0 <= mp <= 11 && 0 <= mp' <= 11
    ensures mp < mp' ==> MonthStart(mp + 1) <= MonthStart(mp')
  {
  }

  lemma YearStartsAscend(era: int, yoe: int, era': int, yoe': int)
    requires 0 <= yoe < 400 && 0 <= yoe' < 400 && 400 * era + yoe < 400 * era' + yoe'
    ensures 146097 * era + YearStart(yoe) + YearLength(yoe) <= 146097 * era' + YearStart(yoe')
    decreases 400 * (era' - era) + yoe' - yoe
  {
    var era1, yoe1 := if yoe < 399 then era else era + 1, if yoe < 399 then yoe + 1 else 0;
    NextMarch(era, yoe, era1, yoe1);
    if 400 * era1 + yoe1 < 400 * era' + yoe' {
      YearStartsAscend(era1, yoe1, era', yoe');
      LongYear(yoe1);
    } else {
      assert era1 == era' && yoe1 == yoe';
    }
  }

  lemma LongYear(yoe: int)
    ensures YearLength(yoe) > 0
  {
  }
}
