/** Unix seconds to a UTC calendar date and time of day. */
module Calendar {
  import opened Prelude

  datatype Date = Date(year: int, month: int, day: int)

  // ----- the calendar of RFC 3339: month lengths of section 5.7, leap years of appendix C -----

  predicate Leap(y: int) {
    y % 4 == 0 && (y % 100 != 0 || y % 400 == 0)
  }

  function MonthLength(y: int, m: int): int {
    if m == 2 then (if Leap(y) then 29 else 28)
    else if m == 4 || m == 6 || m == 9 || m == 11 then 30
    else 31
  }

  predicate Real(d: Date) {
    1 <= d.month <= 12 && 1 <= d.day <= MonthLength(d.year, d.month)
  }

  /** The day after. */
  function Tomorrow(d: Date): Date {
    if d.day < MonthLength(d.year, d.month) then Date(d.year, d.month, d.day + 1)
    else if d.month < 12 then Date(d.year, d.month + 1, 1)
    else Date(d.year + 1, 1, 1)
  }

  // ----- the conversion -----

  function YearOfEra(doe: int): int {
    (doe - doe / 1460 + doe / 36524 - doe / 146096) / 365
  }

  /** First day of year `y` of an era, counting years from March. */
  function Start(y: int): int {
    365 * y + y / 4 - y / 100
  }

  /** Day `doy` of the year that starts in March of `y`. */
  function MarchDate(y: int, doy: int): Date {
    var mp := (5 * doy + 2) / 153;
    var d := doy - (153 * mp + 2) / 5 + 1;
    var mo := if mp < 10 then mp + 3 else mp - 9;
    Date(if mo <= 2 then y + 1 else y, mo, d)
  }

  /** Day `doe` of a 400-year era. */
  function EraDate(era: int, doe: int): Date {
    MarchDate(YearOfEra(doe) + era * 400, doe - Start(YearOfEra(doe)))
  }

  function DateOf(days: int): Date {
    EraDate((days + 719468) / 146097, (days + 719468) % 146097)
  }

  function Civil(secs: u64): (r: (int, int, int, int, int, int)) {
    var date := DateOf(secs / 86400);
    var rem := secs % 86400;
    (date.year, date.month, date.day, rem / 3600, rem % 3600 / 60, rem % 60)
  }

  // ----- years of an era -----

  /** `doe` falls in year `y` of the era. */
  predicate InYear(doe: int, y: int) {
    0 <= y <= 399 && Start(y) <= doe && (doe < Start(y + 1) || (y == 399 && doe == 146096))
  }

  /** Century `c`, four-year block `q` and day `r` of the block: the ordinary days of an era. */
  lemma StartOfBlock(c: int, q: int, k: int)
    requires 0 <= c <= 3 && 0 <= q <= 24 && 0 <= k <= 3
    ensures Start(100 * c + 4 * q + k) == 36524 * c + 1461 * q + 365 * k
  {
    var y := 100 * c + 4 * q + k;
    assert y / 4 == 25 * c + q;
    assert y / 100 == c;
  }

  lemma StartOfNextBlock(c: int, q: int)
    requires 0 <= c <= 3 && 0 <= q <= 24
    ensures Start(100 * c + 4 * q + 4) == if q < 24 then 36524 * c + 1461 * (q + 1) else 36524 * (c + 1)
  {
    var y := 100 * c + 4 * q + 4;
    assert y / 4 == 25 * c + q + 1;
    assert y / 100 == if q < 24 then c else c + 1;
  }

  function YearInBlock(r: int): int {
    if r < 1460 then r / 365 else 3
  }

  lemma BlockFormula(c: int, q: int, r: int)
    requires 0 <= c <= 3 && 0 <= q <= 24 && 0 <= r <= 1460
    requires 1461 * q + r < 36524
    ensures YearOfEra(36524 * c + 1461 * q + r) == 100 * c + 4 * q + YearInBlock(r)
  {
    var doe := 36524 * c + 1461 * q + r;
    var e := (24 * c + q + r) / 1460;
    assert 0 <= e <= 1;
    assert doe == 1460 * (25 * c + q) + (24 * c + q + r);
    assert doe / 1460 == 25 * c + q + e;
    assert doe / 36524 == c;
    assert doe / 146096 == 0;
    var n := doe - doe / 1460 + doe / 36524 - doe / 146096;
    assert n == 365 * (100 * c + 4 * q) + (r - e);
    assert (r - e) / 365 == YearInBlock(r);
    assert n / 365 == 100 * c + 4 * q + (r - e) / 365;
  }

  lemma Decompose(doe: int) returns (c: int, q: int, r: int)
    requires 0 <= doe < 146096
    ensures 0 <= c <= 3 && 0 <= q <= 24 && 0 <= r <= 1460 && 1461 * q + r < 36524
    ensures doe == 36524 * c + 1461 * q + r
  {
    c := doe / 36524;
    var s := doe % 36524;
    q := s / 1461;
    r := s % 1461;
  }

  lemma InBlock(c: int, q: int, r: int)
    requires 0 <= c <= 3 && 0 <= q <= 24 && 0 <= r <= 1460 && 1461 * q + r < 36524
    ensures InYear(36524 * c + 1461 * q + r, 100 * c + 4 * q + YearInBlock(r))
  {
    hide Start;
    var k := YearInBlock(r);
    StartOfBlock(c, q, k);
    if k < 3 { StartOfBlock(c, q, k + 1); } else { StartOfNextBlock(c, q); }
  }

  lemma YearFound(doe: int)
    requires 0 <= doe < 146097
    ensures InYear(doe, YearOfEra(doe))
  {
    if doe < 146096 {
      hide YearOfEra, InYear;
      var c, q, r := Decompose(doe);
      BlockFormula(c, q, r);
      InBlock(c, q, r);
    } else {
      EraEnds();
    }
  }

  lemma StartGrows(a: int, b: int)
    requires 0 <= a < b <= 400
    ensures Start(a) + 365 <= Start(b)
  {
  }

  lemma YearUnique(doe: int, a: int, b: int)
    requires InYear(doe, a) && InYear(doe, b)
    ensures a == b
  {
    if a < b { StartGrows(a + 1, b + 1); }
    if b < a { StartGrows(b + 1, a + 1); }
  }

  // ----- days of a year -----

  function YearLength(y: int): int {
    if Leap(y + 1) then 366 else 365
  }

  /** Where month `mp` of a March year starts. */
  function MonthStart(mp: int): int {
    (153 * mp + 2) / 5
  }

  lemma MonthFound(doy: int)
    requires 0 <= doy <= 365
    ensures 0 <= (5 * doy + 2) / 153 <= 11
    ensures MonthStart((5 * doy + 2) / 153) <= doy < MonthStart((5 * doy + 2) / 153 + 1)
  {
    var mp := (5 * doy + 2) / 153;
    assert 153 * mp <= 5 * doy + 2 < 153 * mp + 153;
  }

  lemma MonthUnique(doy: int, mp: int)
    requires 0 <= doy <= 365 && 0 <= mp <= 11 && MonthStart(mp) <= doy < MonthStart(mp + 1)
    ensures (5 * doy + 2) / 153 == mp
  {
  }

  function MonthOf(mp: int): int {
    if mp < 10 then mp + 3 else mp - 9
  }

  lemma MonthSpan(y: int, mp: int)
    requires 0 <= mp <= 10
    ensures MonthStart(mp + 1) - MonthStart(mp) == MonthLength(y, MonthOf(mp))
  {
    if mp == 0 {} else if mp == 1 {} else if mp == 2 {} else if mp == 3 {} else if mp == 4 {} else if mp == 5 {}
    else if mp == 6 {} else if mp == 7 {} else if mp == 8 {} else if mp == 9 {} else {}
  }

  /** Within a March year, the next day of the year is tomorrow. */
  lemma StepWithin(y: int, doy: int)
    requires 0 <= doy && doy + 1 < YearLength(y)
    ensures MarchDate(y, doy + 1) == Tomorrow(MarchDate(y, doy))
  {
    var mp := (5 * doy + 2) / 153;
    MonthFound(doy);
    var year := if MonthOf(mp) <= 2 then y + 1 else y;
    if mp < 11 {
      MonthSpan(year, mp);
      if doy + 1 < MonthStart(mp + 1) {
        MonthUnique(doy + 1, mp);
      } else {
        assert MonthStart(mp + 2) - MonthStart(mp + 1) > 0;
        MonthUnique(doy + 1, mp + 1);
      }
    } else {
      assert MonthStart(11) == 337;
      MonthUnique(doy + 1, 11);
    }
  }

  /** After the last day of February comes the first of March. */
  lemma StepAcross(y: int)
    ensures MarchDate(y + 1, 0) == Tomorrow(MarchDate(y, YearLength(y) - 1))
  {
    MonthUnique(YearLength(y) - 1, 11);
    MonthUnique(0, 0);
  }

  lemma MarchReal(y: int, doy: int)
    requires 0 <= doy < YearLength(y)
    ensures Real(MarchDate(y, doy))
  {
    var mp := (5 * doy + 2) / 153;
    MonthFound(doy);
    if mp < 11 {
      MonthSpan(if MonthOf(mp) <= 2 then y + 1 else y, mp);
    } else {
      assert MonthStart(11) == 337;
    }
  }

  lemma Shift4(x: int, k: int)
    ensures (x + 4 * k) % 4 == x % 4
  {
  }

  lemma Shift100(x: int, k: int)
    ensures (x + 100 * k) % 100 == x % 100
  {
  }

  lemma Shift400(x: int, k: int)
    ensures (x + 400 * k) % 400 == x % 400
  {
  }

  lemma LeapOfEra(era: int, yoe: int)
    ensures Leap(yoe + era * 400 + 1) == Leap(yoe + 1)
  {
    Shift4(yoe + 1, era * 100);
    Shift100(yoe + 1, era * 4);
    Shift400(yoe + 1, era);
    var y := yoe + era * 400 + 1;
    assert y == yoe + 1 + 4 * (era * 100) == yoe + 1 + 100 * (era * 4) == yoe + 1 + 400 * era;
  }

  lemma YearSpan(yoe: int)
    requires 0 <= yoe <= 398
    ensures Start(yoe + 1) - Start(yoe) == if Leap(yoe + 1) then 366 else 365
  {
    var y := yoe + 1;
    assert y / 4 - yoe / 4 == if y % 4 == 0 then 1 else 0;
    assert y / 100 - yoe / 100 == if y % 100 == 0 then 1 else 0;
  }

  /** The day of an era as a March year and a day of it. */
  lemma PlaceInYear(era: int, doe: int)
    requires 0 <= doe < 146097
    ensures 0 <= doe - Start(YearOfEra(doe)) < YearLength(YearOfEra(doe) + era * 400)
  {
    YearFound(doe);
    var yoe := YearOfEra(doe);
    LeapOfEra(era, yoe);
    hide YearOfEra;
    if yoe <= 398 {
      YearSpan(yoe);
    } else {
      assert Start(399) == 145731;
    }
  }

  /** The next day of an era is the next day of the same year, or the first of the next year. */
  lemma NextPlace(doe: int)
    requires 0 <= doe && doe + 1 < 146097
    ensures var yoe := YearOfEra(doe);
            if yoe == 399 || doe + 1 < Start(yoe + 1) then YearOfEra(doe + 1) == yoe
            else YearOfEra(doe + 1) == yoe + 1 && doe + 1 == Start(yoe + 1)
  {
    hide YearOfEra, Start, InYear;
    YearFound(doe);
    YearFound(doe + 1);
    NextYear(doe, YearOfEra(doe), YearOfEra(doe + 1));
  }

  lemma NextYear(doe: int, yoe: int, next: int)
    requires InYear(doe, yoe) && InYear(doe + 1, next) && doe + 1 < 146097
    ensures if yoe == 399 || doe + 1 < Start(yoe + 1) then next == yoe else next == yoe + 1 && doe + 1 == Start(yoe + 1)
  {
    hide Start;
    if yoe == 399 {
      LastYear();
      YearUnique(doe + 1, next, yoe);
    } else if doe + 1 < Start(yoe + 1) {
      YearUnique(doe + 1, next, yoe);
    } else {
      StartGrows(yoe + 1, yoe + 2);
      YearUnique(doe + 1, next, yoe + 1);
    }
  }

  lemma LastYear()
    ensures Start(399) == 145731 && Start(400) == 146096
  {
  }

  /** Consecutive days of an era are consecutive dates. */
  lemma StepInEra(era: int, doe: int)
    requires 0 <= doe && doe + 1 < 146097
    ensures EraDate(era, doe + 1) == Tomorrow(EraDate(era, doe))
  {
    hide MarchDate, Tomorrow, YearOfEra, Leap, Start;
    var yoe := YearOfEra(doe);
    YearFound(doe);
    NextPlace(doe);
    PlaceInYear(era, doe);
    LeapOfEra(era, yoe);
    EraEnds();
    var y := yoe + era * 400;
    if yoe <= 398 { YearSpan(yoe); } else { LeapYear400(); }
    if yoe == 399 || doe + 1 < Start(yoe + 1) {
      StepWithin(y, doe - Start(yoe));
    } else {
      StepAcross(y);
    }
  }

  lemma LeapYear400()
    ensures Leap(400)
  {
  }

  lemma StepAcrossEra(era: int)
    ensures EraDate(era + 1, 0) == Tomorrow(EraDate(era, 146096))
  {
    EraEnds();
    LeapOfEra(era, 399);
    LeapYear400();
    hide MarchDate, Tomorrow, YearOfEra, Leap, Start;
    StepAcross(399 + era * 400);
  }

  lemma EraReal(era: int, doe: int)
    requires 0 <= doe < 146097
    ensures Real(EraDate(era, doe))
  {
    hide MarchDate, Real, YearOfEra, Start;
    PlaceInYear(era, doe);
    MarchReal(YearOfEra(doe) + era * 400, doe - Start(YearOfEra(doe)));
  }

  // ----- the theorem -----

  /** Every day gets a real date, and the day after gets the date after. */
  lemma DatesAreConsecutive(days: int)
    requires 0 <= days
    ensures DateOf(0) == Date(1970, 1, 1)
    ensures Real(DateOf(days))
    ensures DateOf(days + 1) == Tomorrow(DateOf(days))
  {
    hide EraDate, Tomorrow, Real;
    EpochDate();
    var z := days + 719468;
    EraReal(z / 146097, z % 146097);
    NextDivision(z);
    if z % 146097 + 1 < 146097 {
      StepInEra(z / 146097, z % 146097);
    } else {
      StepAcrossEra(z / 146097);
    }
  }

  lemma NextDivision(z: int)
    ensures if z % 146097 + 1 < 146097 then (z + 1) / 146097 == z / 146097 && (z + 1) % 146097 == z % 146097 + 1
            else (z + 1) / 146097 == z / 146097 + 1 && (z + 1) % 146097 == 0
  {
  }

  lemma EraEnds()
    ensures YearOfEra(146096) == 399 && Start(399) == 145731 && Start(400) == 146096 && YearOfEra(0) == 0
    ensures Start(0) == 0
  {
  }

  lemma EpochDate()
    ensures DateOf(0) == Date(1970, 1, 1)
  {
    assert 719468 / 146097 == 4 && 719468 % 146097 == 135080;
    assert YearOfEra(135080) == 369;
    assert Start(369) == 134774;
  }

  /** Calendar order. */
  predicate Earlier(a: Date, b: Date) {
    a.year < b.year || (a.year == b.year && (a.month < b.month || (a.month == b.month && a.day < b.day)))
  }

  /** Later days get later dates, so no two days share one. */
  lemma {:induction false} DatesInOrder(a: int, b: int)
    requires 0 <= a < b
    ensures Earlier(DateOf(a), DateOf(b))
    decreases b - a
  {
    hide DateOf;
    DatesAreConsecutive(b - 1);
    if a < b - 1 { DatesInOrder(a, b - 1); }
  }

  // ----- and back -----

  function DaysBeforeYear(y: int): int
    decreases y
  {
    if y <= 1970 then 0 else DaysBeforeYear(y - 1) + (if Leap(y - 1) then 366 else 365)
  }

  function DaysBeforeMonth(y: int, m: int): int
    decreases m
  {
    if m <= 1 then 0 else DaysBeforeMonth(y, m - 1) + MonthLength(y, m - 1)
  }

  /** Days from 1970-01-01, counted year by year and month by month. */
  function DayNumber(d: Date): int {
    DaysBeforeYear(d.year) + DaysBeforeMonth(d.year, d.month) + d.day - 1
  }

  lemma MonthsOfYear(y: int)
    ensures DaysBeforeMonth(y, 12) == if Leap(y) then 335 else 334
  {
    assert DaysBeforeMonth(y, 3) == if Leap(y) then 60 else 59;
    assert DaysBeforeMonth(y, 5) == DaysBeforeMonth(y, 3) + 61;
    assert DaysBeforeMonth(y, 7) == DaysBeforeMonth(y, 5) + 61;
    assert DaysBeforeMonth(y, 9) == DaysBeforeMonth(y, 7) + 62;
    assert DaysBeforeMonth(y, 11) == DaysBeforeMonth(y, 9) + 61;
  }

  lemma TomorrowCounts(d: Date)
    requires Real(d) && d.year >= 1970
    ensures DayNumber(Tomorrow(d)) == DayNumber(d) + 1 && Tomorrow(d).year >= 1970
  {
    if d.day == MonthLength(d.year, d.month) && d.month == 12 {
      MonthsOfYear(d.year);
    }
  }

  lemma {:induction false} CountsBack(days: int)
    requires 0 <= days
    ensures DayNumber(DateOf(days)) == days && DateOf(days).year >= 1970
  {
    hide DateOf, DayNumber, Tomorrow, Real;
    EpochDate();
    if days == 0 {
      FirstDay();
    } else {
      CountsBack(days - 1);
      DatesAreConsecutive(days - 1);
      TomorrowCounts(DateOf(days - 1));
    }
  }

  lemma FirstDay()
    ensures DayNumber(Date(1970, 1, 1)) == 0
  {
  }

  /** For every second count: a real date and time of day, and the same count back. */
  lemma CivilExact(secs: u64)
    ensures var (y, mo, d, h, mi, s) := Civil(secs);
            && Real(Date(y, mo, d)) && 0 <= h < 24 && 0 <= mi < 60 && 0 <= s < 60
            && DayNumber(Date(y, mo, d)) * 86400 + h * 3600 + mi * 60 + s == secs
  {
    hide DateOf, DayNumber, Real;
    DatesAreConsecutive(secs / 86400);
    CountsBack(secs / 86400);
    TimeOfDay(secs % 86400);
  }

  lemma TimeOfDay(rem: int)
    requires 0 <= rem < 86400
    ensures 0 <= rem / 3600 < 24 && 0 <= rem % 3600 / 60 < 60
    ensures rem / 3600 * 3600 + rem % 3600 / 60 * 60 + rem % 60 == rem
  {
    var x := rem % 3600;
    assert rem == rem / 3600 * 3600 + x;
    assert x == x / 60 * 60 + x % 60;
    Shift60(x, rem / 3600 * 60);
  }

  lemma Shift60(x: int, k: int)
    ensures (x + 60 * k) % 60 == x % 60
  {
  }
}
