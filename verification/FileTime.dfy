/**
 SYSTEMTIME and FILETIME: the same instants as broken-down UTC fields and as a count of
 100-nanosecond ticks since 1601-01-01.
 */
module FileTimes {
  import opened Wrappers
  import opened Calendar

  const HUNDRED_NS_PER_SECOND := 10_000_000
  const HUNDRED_NS_PER_MILLISECOND := 10_000
  const SECONDS_PER_DAY := 86_400
  const TICKS_PER_DAY := SECONDS_PER_DAY * HUNDRED_NS_PER_SECOND
  const UNIX_TIME_ZERO := 11_644_473_600 * HUNDRED_NS_PER_SECOND
  const MAX_VALID_FILETIME := 0x8000_0000_0000_0000
  const DAYS_TO_UNIX_EPOCH := 134_774

  type Word = w: int | 0 <= w < 0x1_0000
  type Dword = w: int | 0 <= w < 0x1_0000_0000

  datatype FileTime = FileTime(low: Dword, high: Dword)

  datatype SystemTime = SystemTime(
    year: Word, month: Word, dayOfWeek: Word, day: Word,
    hour: Word, minute: Word, second: Word, milliseconds: Word)

  /** The narrowing cast to a 16-bit field. */
  function ToWord(v: int): Word {
    v % 0x1_0000
  }

  function Duration(ft: FileTime): int {
    ft.high * 0x1_0000_0000 + ft.low
  }

  function FromDuration(ticks: int): FileTime
    requires 0 <= ticks < 0x1_0000_0000_0000_0000
  {
    FileTime(ticks % 0x1_0000_0000, ticks / 0x1_0000_0000)
  }

  function Date(st: SystemTime): CivilDate {
    CivilDate(st.year, st.month, st.day)
  }

  predicate ValidateSystemTime(st: SystemTime) {
    if st.year < 1601 then false
    else if st.month < 1 || st.month > 12 then false
    else if st.day < 1 || st.day > DaysInMonth(st.year, st.month) then false
    else if st.hour > 23 then false
    else if st.minute > 59 then false
    else if st.second > 59 then false
    else st.milliseconds <= 999
  }

  /** Seconds since the Unix epoch and the ticks of the running second. */
  function SystemTimeToUnixParts(st: SystemTime): Option<(int, int)> {
    if !ValidateSystemTime(st) then None
    else
      var days := DaysFromCivil(st.year, st.month, st.day);
      var secondsOfDay := st.hour * 3600 + st.minute * 60 + st.second;
      Some((days * SECONDS_PER_DAY + secondsOfDay, st.milliseconds * HUNDRED_NS_PER_MILLISECOND))
  }

  function UnixPartsToFileTime(seconds: int, hundreds: int): Option<FileTime> {
    if hundreds >= HUNDRED_NS_PER_SECOND then None
    else
      var total := seconds * HUNDRED_NS_PER_SECOND + hundreds + UNIX_TIME_ZERO;
      if total < 0 || total > 0xFFFF_FFFF_FFFF_FFFF then None else Some(FromDuration(total))
  }

  function SystemTimeToFileTime(st: SystemTime): Option<FileTime> {
    match SystemTimeToUnixParts(st)
    case None => None
    case Some((seconds, hundreds)) =>
      match UnixPartsToFileTime(seconds, hundreds)
      case None => None
      case Some(ft) => if Duration(ft) >= MAX_VALID_FILETIME then None else Some(ft)
  }

  function FileTimeToSystemTime(ft: FileTime): Option<SystemTime> {
    var ticks := Duration(ft);
    if ticks >= MAX_VALID_FILETIME then None
    else
      var daysSince1601 := ticks / TICKS_PER_DAY;
      var ticksOfDay := ticks % TICKS_PER_DAY;
      var secondsOfDay := ticksOfDay / HUNDRED_NS_PER_SECOND;
      var hundredNs := ticksOfDay % HUNDRED_NS_PER_SECOND;
      var date := CivilFromDays(daysSince1601 - DAYS_TO_UNIX_EPOCH);
      Some(SystemTime(
        ToWord(date.year), ToWord(date.month), ToWord((daysSince1601 + 1) % 7), ToWord(date.day),
        ToWord(secondsOfDay / 3600), ToWord(secondsOfDay % 3600 / 60), ToWord(secondsOfDay % 60),
        ToWord(hundredNs / HUNDRED_NS_PER_MILLISECOND)))
  }

  // ----- ticks as day, millisecond of the day, and rest

  lemma DurationInverse(ticks: int)
    requires 0 <= ticks < 0x1_0000_0000_0000_0000
    ensures Duration(FromDuration(ticks)) == ticks
  {
  }

  function MillisecondOfDay(st: SystemTime): int {
    ((st.hour * 60 + st.minute) * 60 + st.second) * 1000 + st.milliseconds
  }

  /** The instant of a broken-down time, in milliseconds since 1601. */
  function Instant(st: SystemTime): int {
    (DaysFromCivil(st.year, st.month, st.day) + DAYS_TO_UNIX_EPOCH) * 86_400_000 + MillisecondOfDay(st)
  }

  /** A valid time converts to its instant, or fails when that lies beyond the last FILETIME. */
  lemma ConversionIsInstant(st: SystemTime)
    requires ValidateSystemTime(st)
    ensures 0 <= MillisecondOfDay(st) < 86_400_000
    ensures 0 <= Instant(st)
    ensures SystemTimeToFileTime(st).Some? <==> Instant(st) * 10_000 < MAX_VALID_FILETIME
    ensures SystemTimeToFileTime(st).Some? ==> Duration(SystemTimeToFileTime(st).value) == Instant(st) * 10_000
  {
    assert DaysFromCivil(st.year, st.month, st.day) >= -134_774 by {
      Epochs();
      DayNumbersOrderDates(Date(st), CivilDate(1601, 1, 1));
    }
    var parts := SystemTimeToUnixParts(st).value;
    var total := parts.0 * HUNDRED_NS_PER_SECOND + parts.1 + UNIX_TIME_ZERO;
    assert total == Instant(st) * 10_000;
    if total <= 0xFFFF_FFFF_FFFF_FFFF {
      DurationInverse(total);
    }
  }

  /** The fields of a millisecond of the day. */
  lemma SplitMillisecond(ms: int)
    requires 0 <= ms < 86_400_000
    ensures
      var s := ms / 1000;
      && 0 <= s / 3600 <= 23 && 0 <= s % 3600 / 60 <= 59 && 0 <= s % 60 <= 59 && 0 <= ms % 1000 <= 999
      && ((s / 3600 * 60 + s % 3600 / 60) * 60 + s % 60) * 1000 + ms % 1000 == ms
  {
    var s := ms / 1000;
    assert s % 3600 % 60 == s % 60;
  }

  lemma JoinMillisecond(h: int, m: int, s: int, ms: int)
    requires 0 <= h <= 23 && 0 <= m <= 59 && 0 <= s <= 59 && 0 <= ms <= 999
    ensures
      var t := ((h * 60 + m) * 60 + s) * 1000 + ms;
      && 0 <= t < 86_400_000 && t % 1000 == ms
      && t / 1000 / 3600 == h && t / 1000 % 3600 / 60 == m && t / 1000 % 60 == s
  {
  }

  /** The divisions of `FileTimeToSystemTime`, restated over milliseconds. */
  lemma TicksToMilliseconds(ticks: int)
    requires 0 <= ticks
    ensures
      var ms := ticks / 10_000;
      && ticks / TICKS_PER_DAY == ms / 86_400_000
      && ticks % TICKS_PER_DAY / HUNDRED_NS_PER_SECOND == ms % 86_400_000 / 1000
      && ticks % TICKS_PER_DAY % HUNDRED_NS_PER_SECOND / HUNDRED_NS_PER_MILLISECOND == ms % 86_400_000 % 1000
  {
    var day, ofDay := ticks / TICKS_PER_DAY, ticks % TICKS_PER_DAY;
    var s, h := ofDay / HUNDRED_NS_PER_SECOND, ofDay % HUNDRED_NS_PER_SECOND;
    assert ticks == day * TICKS_PER_DAY + s * HUNDRED_NS_PER_SECOND + h;
    assert ticks / 10_000 == day * 86_400_000 + s * 1000 + h / 10_000;
  }

  /** The last day a FILETIME below 2^63 can fall on is in the year 30828. */
  lemma YearFits(days: int)
    requires 0 <= days <= 10_675_199
    ensures
      var c := CivilFromDays(days - DAYS_TO_UNIX_EPOCH);
      1601 <= c.year <= 30828
  {
    var c := CivilFromDays(days - DAYS_TO_UNIX_EPOCH);
    DayNumberRoundTrip(days - DAYS_TO_UNIX_EPOCH);
    Epochs();
    DayNumbersOrderDates(c, CivilDate(1601, 1, 1));
    DayNumbersOrderDates(CivilDate(30828, 12, 31), c);
    assert DaysFromCivil(30828, 12, 31) > 10_675_199 - 134_774;
  }

  /** The fields for millisecond `ms` of the given date. */
  function Fields(date: CivilDate, dayOfWeek: int, ms: int): SystemTime {
    var s := ms / 1000;
    SystemTime(
      ToWord(date.year), ToWord(date.month), ToWord(dayOfWeek), ToWord(date.day),
      ToWord(s / 3600), ToWord(s % 3600 / 60), ToWord(s % 60), ToWord(ms % 1000))
  }

  lemma DecodesFields(ft: FileTime)
    requires Duration(ft) < MAX_VALID_FILETIME
    ensures
      var ms := Duration(ft) / 10_000;
      var day := ms / 86_400_000;
      FileTimeToSystemTime(ft) ==
      Some(Fields(CivilFromDays(day - DAYS_TO_UNIX_EPOCH), (day + 1) % 7, ms % 86_400_000))
  {
    TicksToMilliseconds(Duration(ft));
  }

  lemma FieldsAreValid(date: CivilDate, dayOfWeek: int, ms: int)
    requires ValidDate(date) && 1601 <= date.year <= 30828
    requires 0 <= dayOfWeek < 7 && 0 <= ms < 86_400_000
    ensures
      var st := Fields(date, dayOfWeek, ms);
      && ValidateSystemTime(st) && Date(st) == date
      && st.dayOfWeek == dayOfWeek && MillisecondOfDay(st) == ms
  {
    SplitMillisecond(ms);
    var s := ms / 1000;
    WordsStay(date.year, date.month, dayOfWeek, date.day);
    WordsStay(s / 3600, s % 3600 / 60, s % 60, ms % 1000);
    DaysFit(date.year, date.month);
  }

  lemma WordsStay(a: int, b: int, c: int, d: int)
    ensures 0 <= a < 0x1_0000 ==> ToWord(a) == a
    ensures 0 <= b < 0x1_0000 ==> ToWord(b) == b
    ensures 0 <= c < 0x1_0000 ==> ToWord(c) == c
    ensures 0 <= d < 0x1_0000 ==> ToWord(d) == d
  {
  }

  lemma DaysFit(year: int, month: int)
    requires 1 <= month <= 12
    ensures DaysInMonth(year, month) <= 31
  {
  }

  lemma DateOfDay(day: int)
    requires 0 <= day <= 10_675_199
    ensures
      var date := CivilFromDays(day - DAYS_TO_UNIX_EPOCH);
      && ValidDate(date) && 1601 <= date.year <= 30828
      && DaysFromCivil(date.year, date.month, date.day) == day - DAYS_TO_UNIX_EPOCH
  {
    YearFits(day);
    DayNumberRoundTrip(day - DAYS_TO_UNIX_EPOCH);
  }

  lemma InstantOfFields(date: CivilDate, dayOfWeek: int, day: int, ms: int)
    requires ValidDate(date) && 1601 <= date.year <= 30828
    requires DaysFromCivil(date.year, date.month, date.day) == day - DAYS_TO_UNIX_EPOCH
    requires 0 <= dayOfWeek < 7 && 0 <= ms < 86_400_000
    ensures
      var st := Fields(date, dayOfWeek, ms);
      ValidateSystemTime(st) && st.dayOfWeek == dayOfWeek && Instant(st) == day * 86_400_000 + ms
  {
    FieldsAreValid(date, dayOfWeek, ms);
  }

  /** Millisecond `ms` of day `day` has fields that are valid and denote it. */
  lemma FieldsOfInstant(day: int, ms: int) returns (st: SystemTime)
    requires 0 <= day <= 10_675_199 && 0 <= ms < 86_400_000
    ensures st == Fields(CivilFromDays(day - DAYS_TO_UNIX_EPOCH), (day + 1) % 7, ms)
    ensures ValidateSystemTime(st) && st.dayOfWeek == (day + 1) % 7 && Instant(st) == day * 86_400_000 + ms
  {
    DateOfDay(day);
    var date := CivilFromDays(day - DAYS_TO_UNIX_EPOCH);
    InstantOfFields(date, (day + 1) % 7, day, ms);
    st := Fields(date, (day + 1) % 7, ms);
  }

  /** What `FileTimeToSystemTime` returns for every FILETIME below 2^63. */
  lemma DecodesInstant(ft: FileTime) returns (st: SystemTime)
    requires Duration(ft) < MAX_VALID_FILETIME
    ensures FileTimeToSystemTime(ft) == Some(st)
    ensures ValidateSystemTime(st) && Instant(st) == Duration(ft) / 10_000
    ensures st.dayOfWeek == (Duration(ft) / 10_000 / 86_400_000 + 1) % 7
  {
    var ms := Duration(ft) / 10_000;
    DecodesFields(ft);
    st := FieldsOfInstant(ms / 86_400_000, ms % 86_400_000);
  }

  // ----- the conversions are inverse to each other

  /** Ticks survive the round trip rounded down to a whole millisecond. */
  lemma FileTimeRoundTrip(ft: FileTime)
    ensures FileTimeToSystemTime(ft).Some? <==> Duration(ft) < MAX_VALID_FILETIME
    ensures Duration(ft) < MAX_VALID_FILETIME ==>
      var back := SystemTimeToFileTime(FileTimeToSystemTime(ft).value);
      back.Some? && Duration(back.value) == Duration(ft) - Duration(ft) % HUNDRED_NS_PER_MILLISECOND
  {
    if Duration(ft) < MAX_VALID_FILETIME {
      var st := DecodesInstant(ft);
      ConversionIsInstant(st);
    }
  }

  lemma SameDay(a: SystemTime, b: SystemTime)
    requires ValidateSystemTime(a) && ValidateSystemTime(b) && Instant(a) == Instant(b)
    ensures DaysFromCivil(a.year, a.month, a.day) == DaysFromCivil(b.year, b.month, b.day)
    ensures MillisecondOfDay(a) == MillisecondOfDay(b)
  {
  }

  /** Two valid times with the same instant differ at most in the day-of-week field. */
  lemma InstantDetermines(a: SystemTime, b: SystemTime)
    requires ValidateSystemTime(a) && ValidateSystemTime(b) && Instant(a) == Instant(b)
    ensures a == b.(dayOfWeek := a.dayOfWeek)
  {
    SameDay(a, b);
    DateRoundTrip(Date(a));
    DateRoundTrip(Date(b));
    JoinMillisecond(a.hour, a.minute, a.second, a.milliseconds);
    JoinMillisecond(b.hour, b.minute, b.second, b.milliseconds);
  }

  lemma SameInstantSameFields(st: SystemTime, ft: FileTime)
    requires ValidateSystemTime(st) && Duration(ft) == Instant(st) * 10_000 < MAX_VALID_FILETIME
    ensures FileTimeToSystemTime(ft) == Some(st.(dayOfWeek := (Instant(st) / 86_400_000 + 1) % 7))
  {
    var decoded := DecodesInstant(ft);
    InstantDetermines(decoded, st);
  }

  lemma DayOfInstant(day: int, ms: int)
    requires 0 <= ms < 86_400_000
    ensures (day * 86_400_000 + ms) / 86_400_000 == day
  {
  }

  /** Every field but the day of week survives; that one is recomputed from the date. */
  lemma SystemTimeRoundTrip(st: SystemTime)
    requires SystemTimeToFileTime(st).Some?
    ensures
      var days := DaysFromCivil(st.year, st.month, st.day) + DAYS_TO_UNIX_EPOCH;
      FileTimeToSystemTime(SystemTimeToFileTime(st).value) == Some(st.(dayOfWeek := (days + 1) % 7))
  {
    ConversionIsInstant(st);
    SameInstantSameFields(st, SystemTimeToFileTime(st).value);
    DayOfInstant(DaysFromCivil(st.year, st.month, st.day) + DAYS_TO_UNIX_EPOCH, MillisecondOfDay(st));
  }

  // ----- order

  /** Lexicographic order on the fields, most significant first; the day of week plays no part. */
  predicate Earlier(a: SystemTime, b: SystemTime) {
    || Before(Date(a), Date(b))
    || (Date(a) == Date(b) &&
        (|| a.hour < b.hour
         || (a.hour == b.hour &&
             (|| a.minute < b.minute
              || (a.minute == b.minute &&
                  (a.second < b.second || (a.second == b.second && a.milliseconds < b.milliseconds)))))))
  }

  lemma InstantsOrderTimes(a: SystemTime, b: SystemTime)
    requires ValidateSystemTime(a) && ValidateSystemTime(b)
    ensures Earlier(a, b) <==> Instant(a) < Instant(b)
  {
    ConversionIsInstant(a);
    ConversionIsInstant(b);
    DayNumbersOrderDates(Date(a), Date(b));
    DayNumbersOrderDates(Date(b), Date(a));
    if Date(a) != Date(b) {
      assert Before(Date(a), Date(b)) || Before(Date(b), Date(a));
    }
  }

  /** Conversion is strictly monotone in, and reflects, the lexicographic order. */
  lemma ConversionIsMonotone(a: SystemTime, b: SystemTime)
    ensures SystemTimeToFileTime(a).Some? && SystemTimeToFileTime(b).Some? ==>
              (Earlier(a, b) <==>
               Duration(SystemTimeToFileTime(a).value) < Duration(SystemTimeToFileTime(b).value))
  {
    if SystemTimeToFileTime(a).Some? && SystemTimeToFileTime(b).Some? {
      ConversionIsInstant(a);
      ConversionIsInstant(b);
      InstantsOrderTimes(a, b);
    }
  }

  /** Exactly the valid times up to 30828-09-14 02:48:05.477 have a FILETIME. */
  lemma ConvertibleTimes(st: SystemTime)
    ensures SystemTimeToFileTime(st).Some? <==>
            ValidateSystemTime(st) && !Earlier(SystemTime(30828, 9, 0, 14, 2, 48, 5, 477), st)
  {
    if ValidateSystemTime(st) {
      var last := SystemTime(30828, 9, 0, 14, 2, 48, 5, 477);
      LastInstant();
      InstantsOrderTimes(last, st);
      ConversionIsInstant(st);
    }
  }

  lemma LastInstant()
    ensures
      var last := SystemTime(30828, 9, 0, 14, 2, 48, 5, 477);
      ValidateSystemTime(last) && Instant(last) == 922_337_203_685_477
  {
  }
}
