/**
 Unix nanoseconds to civil fields by closed formula, against a calendar that only knows how to turn
 one day into the next.
 */
module Calendar {
  import opened Words
  import opened FloorDivision

  const NS_PER_S: nat := 1_000_000_000
  const DAY_S: nat := 86_400

  datatype Date = Date(year: int, month: int, day: int)

  datatype CivilTime = CivilTime(
    date: Date, hour: nat, minute: nat, second: nat, nanosecond: nat, weekday: nat)

  // ------------------------------------------------------------------------
  // The formula
  // ------------------------------------------------------------------------

  // Days since 0000-03-01, so that leap days fall at the end of a year.
  const EPOCH_SHIFT: nat := 719_468
  const ERA_DAYS: nat := 146_097

  function YearOfEra(doe: nat): int {
    (doe - doe / 1460 + doe / 36524 - doe / 146_096) / 365
  }

  // A March-based year and the day within it, as a January-based date.
  function FromYearDay(y: int, doy: int): Date {
    var mp := (5 * doy + 2) / 153;
    var day := doy - (153 * mp + 2) / 5 + 1;
    var month := if mp < 10 then mp + 3 else mp - 9;
    Date(if month <= 2 then y + 1 else y, month, day)
  }

  function CivilFromDays(days: nat): Date {
    var z := days + EPOCH_SHIFT;
    var era := z / ERA_DAYS;
    var doe := z % ERA_DAYS;
    var yoe := YearOfEra(doe);
    var doy := doe - (365 * yoe + yoe / 4 - yoe / 100);
    FromYearDay(yoe + era * 400, doy)
  }

  // The instant the fields describe: shifted by the offset, and never before the epoch.
  function Adjusted(unixNs: u64, offsetMinutes: int): nat {
    var shifted := unixNs + offsetMinutes * 60 * NS_PER_S;
    if shifted < 0 then 0 else shifted
  }

  function CivilFromUnixNs(unixNs: u64, offsetMinutes: int): CivilTime {
    var adjusted := Adjusted(unixNs, offsetMinutes);
    var totalSecs := adjusted / NS_PER_S;
    var days := totalSecs / DAY_S;
    var secsOfDay := totalSecs % DAY_S;
    CivilTime(CivilFromDays(days), secsOfDay / 3600, secsOfDay / 60 % 60, secsOfDay % 60,
              adjusted % NS_PER_S, (days + 4) % 7)
  }

  // ------------------------------------------------------------------------
  // The calendar, one day at a time
  // ------------------------------------------------------------------------

  predicate IsLeap(year: int) {
    year % 4 == 0 && (year % 100 != 0 || year % 400 == 0)
  }

  function DaysInMonth(year: int, month: int): nat {
    if month == 2 then (if IsLeap(year) then 29 else 28)
    else if month in {4, 6, 9, 11} then 30
    else 31
  }

  predicate ValidDate(d: Date) {
    1 <= d.month <= 12 && 1 <= d.day <= DaysInMonth(d.year, d.month)
  }

  function NextDay(d: Date): Date {
    if d.day < DaysInMonth(d.year, d.month) then d.(day := d.day + 1)
    else if d.month < 12 then Date(d.year, d.month + 1, 1)
    else Date(d.year + 1, 1, 1)
  }

  // The date `n` days after Thursday 1970-01-01.
  function DateAfter(n: nat): Date {
    if n == 0 then Date(1970, 1, 1) else NextDay(DateAfter(n - 1))
  }

  // Sunday is 0, so the epoch's Thursday is 4.
  function WeekdayAfter(n: nat): nat {
    if n == 0 then 4 else (WeekdayAfter(n - 1) + 1) % 7
  }

  // ------------------------------------------------------------------------
  // Years of an era
  // ------------------------------------------------------------------------

  function YearStart(yoe: nat): nat {
    365 * yoe + yoe / 4 - yoe / 100
  }

  // A March-based year has 366 days when the February it ends with has 29.
  function YearLength(yoe: nat): nat {
    if IsLeap(yoe + 1) then 366 else 365
  }

  // Year `100 * c + 4 * q + r` of an era starts after whole centuries, four-year cycles and years.
  lemma YearStartSplits(c: nat, q: nat, r: nat)
    requires c < 4 && q < 25 && r < 4
    ensures YearStart(100 * c + 4 * q + r) == 36524 * c + 1461 * q + 365 * r
    ensures YearLength(100 * c + 4 * q + r) == if r == 3 && (q < 24 || c == 3) then 366 else 365
  {
    var yoe := 100 * c + 4 * q + r;
    assert yoe / 4 == 25 * c + q && yoe / 100 == c;
    assert (yoe + 1) % 4 == (r + 1) % 4;
    assert (yoe + 1) % 100 == (4 * q + r + 1) % 100;
  }

  lemma CenturyOf(c: nat, q: nat, r: nat, doy: nat)
    requires c < 4 && q < 25 && r < 4 && doy < if r == 3 && (q < 24 || c == 3) then 366 else 365
    ensures var doe := 36524 * c + 1461 * q + 365 * r + doy;
            doe / 36524 - doe / 146_096 == c
  {
  }

  lemma CyclesOf(c: nat, q: nat, r: nat, doy: nat)
    requires c < 4 && q < 25 && r < 4 && doy < if r == 3 && (q < 24 || c == 3) then 366 else 365
    ensures var doe := 36524 * c + 1461 * q + 365 * r + doy;
            doe / 1460 == 25 * c + q + if 24 * c + q + 365 * r + doy >= 1460 then 1 else 0
  {
  }

  lemma EraYear(c: nat, q: nat, r: nat, doy: nat)
    requires c < 4 && q < 25 && r < 4 && doy < if r == 3 && (q < 24 || c == 3) then 366 else 365
    ensures YearOfEra(36524 * c + 1461 * q + 365 * r + doy) == 100 * c + 4 * q + r
  {
    CenturyOf(c, q, r, doy);
    CyclesOf(c, q, r, doy);
    LeapDaysFit(c, q, r, doy);
    var extra := if 24 * c + q + 365 * r + doy >= 1460 then 1 else 0;
    DivIs(365 * (100 * c + 4 * q + r) + (doy - extra), 365, 100 * c + 4 * q + r);
  }

  /** The closed formula finds the year every day of it belongs to. */
  lemma YearOfEraExact(yoe: nat, doy: nat)
    requires yoe < 400 && doy < YearLength(yoe)
    ensures YearOfEra(YearStart(yoe) + doy) == yoe
    ensures YearStart(yoe) + doy < ERA_DAYS
  {
    var c, q, r := yoe / 100, yoe % 100 / 4, yoe % 4;
    assert yoe == 100 * c + 4 * q + r;
    YearStartSplits(c, q, r);
    EraYear(c, q, r, doy);
  }

  // The day the cycle count is out by one is one the year has to spare.
  lemma LeapDaysFit(c: nat, q: nat, r: nat, doy: nat)
    requires c < 4 && q < 25 && r < 4 && doy < if r == 3 && (q < 24 || c == 3) then 366 else 365
    ensures 0 <= doy - (if 24 * c + q + 365 * r + doy >= 1460 then 1 else 0) < 365
  {
  }

  lemma CivilOfParts(days: nat, era: nat, yoe: nat, doy: nat)
    requires yoe < 400 && doy < YearLength(yoe)
    requires days + EPOCH_SHIFT == era * ERA_DAYS + YearStart(yoe) + doy
    ensures CivilFromDays(days) == FromYearDay(yoe + era * 400, doy)
  {
    YearOfEraExact(yoe, doy);
    var doe := YearStart(yoe) + doy;
    DivIs(days + EPOCH_SHIFT, ERA_DAYS, era);
    DivBounds(days + EPOCH_SHIFT, ERA_DAYS);
    assert (days + EPOCH_SHIFT) % ERA_DAYS == doe;
  }

  // ------------------------------------------------------------------------
  // Days of a year
  // ------------------------------------------------------------------------

  // The day of a March-based year on which month `mp` begins.
  function MonthStart(mp: nat): nat {
    (153 * mp + 2) / 5
  }

  lemma MonthOf(doy: nat)
    requires doy <= 365
    ensures var mp := (5 * doy + 2) / 153;
            mp <= 11 && MonthStart(mp) <= doy && (mp < 11 ==> doy < MonthStart(mp + 1))
  {
  }

  lemma MonthLengths(mp: nat)
    requires mp < 11
    ensures MonthStart(mp + 1) - MonthStart(mp) == if mp in {1, 3, 6, 8} then 30 else 31
  {
  }

  lemma MonthIs(doy: nat, mp: nat)
    requires doy <= 365 && mp <= 11 && MonthStart(mp) <= doy && (mp < 11 ==> doy < MonthStart(mp + 1))
    ensures (5 * doy + 2) / 153 == mp
  {
  }

  lemma LeapShifts(yoe: nat, era: nat)
    ensures IsLeap(yoe + era * 400 + 1) == IsLeap(yoe + 1)
  {
  }

  // The date on day `day` of month `mp` of a March-based year.
  function DateIn(y: int, mp: int, day: int): Date {
    Date(if mp < 10 then y else y + 1, if mp < 10 then mp + 3 else mp - 9, day)
  }

  lemma InMonth(y: int, doy: nat, mp: nat)
    requires doy <= 365 && mp <= 11 && MonthStart(mp) <= doy && (mp < 11 ==> doy < MonthStart(mp + 1))
    ensures FromYearDay(y, doy) == DateIn(y, mp, doy - MonthStart(mp) + 1)
  {
    MonthIs(doy, mp);
  }

  lemma NextInMonth(y: int, mp: nat, day: nat)
    requires mp <= 11 && 0 < day <= DaysInMonth(DateIn(y, mp, day).year, DateIn(y, mp, day).month)
    ensures ValidDate(DateIn(y, mp, day))
    ensures NextDay(DateIn(y, mp, day)) ==
            if day < DaysInMonth(DateIn(y, mp, day).year, DateIn(y, mp, day).month) then DateIn(y, mp, day + 1)
            else if mp < 11 then DateIn(y, mp + 1, 1)
            else DateIn(y + 1, 0, 1)
  {
  }

  // Every month but the last of a March-based year has the length its start and the next one's tell.
  lemma LengthIn(y: int, mp: nat)
    requires mp <= 11
    ensures DaysInMonth(DateIn(y, mp, 1).year, DateIn(y, mp, 1).month) ==
            if mp < 11 then MonthStart(mp + 1) - MonthStart(mp) else if IsLeap(y + 1) then 29 else 28
  {
    if mp < 11 { MonthLengths(mp); }
  }

  // One day on, within month `mp` or into the month after it.
  lemma NextFrom(y: int, mp: nat, day: nat, length: nat)
    requires mp <= 11 && 0 < day <= length == DaysInMonth(DateIn(y, mp, 1).year, DateIn(y, mp, 1).month)
    requires mp < 11 || day < length
    ensures ValidDate(DateIn(y, mp, day))
    ensures NextDay(DateIn(y, mp, day)) == if day < length then DateIn(y, mp, day + 1) else DateIn(y, mp + 1, 1)
  {
    NextInMonth(y, mp, day);
  }

  lemma MonthAfter(doy: nat, mp: nat)
    requires doy < 365 && mp <= 11 && MonthStart(mp) <= doy && (mp < 11 ==> doy < MonthStart(mp + 1))
    ensures mp < 11 && doy + 1 == MonthStart(mp + 1) ==> mp < 10 ==> doy + 1 < MonthStart(mp + 2)
  {
    if mp < 10 { MonthLengths(mp + 1); }
  }

  // Within a year, the next day's date is the next date.
  lemma NextInYear(y: int, doy: nat)
    requires doy + 1 <= 365 && (doy == 364 ==> IsLeap(y + 1))
    ensures FromYearDay(y, doy + 1) == NextDay(FromYearDay(y, doy))
    ensures ValidDate(FromYearDay(y, doy))
  {
    var mp := (5 * doy + 2) / 153;
    MonthOf(doy);
    NextInYearFrom(y, doy, mp);
  }

  lemma NextInYearFrom(y: int, doy: nat, mp: nat)
    requires doy + 1 <= 365 && (doy == 364 ==> IsLeap(y + 1))
    requires mp <= 11 && MonthStart(mp) <= doy && (mp < 11 ==> doy < MonthStart(mp + 1))
    ensures FromYearDay(y, doy + 1) == NextDay(FromYearDay(y, doy))
    ensures ValidDate(FromYearDay(y, doy))
  {
    var start, day := MonthStart(mp), doy - MonthStart(mp) + 1;
    var length := DaysInMonth(DateIn(y, mp, 1).year, DateIn(y, mp, 1).month);
    LengthIn(y, mp);
    InMonth(y, doy, mp);
    NextFrom(y, mp, day, length);
    MonthAfter(doy, mp);
    if day < length { InMonth(y, doy + 1, mp); } else { InMonth(y, doy + 1, mp + 1); }
  }

  // The last day of a March-based year is the last of February.
  lemma NextAcrossYears(y: int)
    ensures var last := if IsLeap(y + 1) then 365 else 364;
            && FromYearDay(y + 1, 0) == NextDay(FromYearDay(y, last))
            && ValidDate(FromYearDay(y, last))
  {
  }

  // ------------------------------------------------------------------------
  // The induction over days
  // ------------------------------------------------------------------------

  // A day of the calendar, as an era of 400 years, a year of the era, and a day of that year.
  datatype Parts = Parts(era: nat, yoe: nat, doy: nat)

  predicate ValidParts(p: Parts) {
    p.yoe < 400 && p.doy < YearLength(p.yoe)
  }

  function NextParts(p: Parts): Parts {
    if p.doy + 1 < YearLength(p.yoe) then p.(doy := p.doy + 1)
    else if p.yoe < 399 then Parts(p.era, p.yoe + 1, 0)
    else Parts(p.era + 1, 0, 0)
  }

  function DayOfParts(p: Parts): nat {
    p.era * ERA_DAYS + YearStart(p.yoe) + p.doy
  }

  function DateOfParts(p: Parts): Date
    requires ValidParts(p)
  {
    FromYearDay(p.yoe + p.era * 400, p.doy)
  }

  lemma YearEnds(yoe: nat)
    requires yoe < 400
    ensures YearStart(yoe) + YearLength(yoe) == if yoe == 399 then ERA_DAYS else YearStart(yoe + 1)
  {
    var c, q, r := yoe / 100, yoe % 100 / 4, yoe % 4;
    assert yoe == 100 * c + 4 * q + r;
    YearStartSplits(c, q, r);
    if r < 3 { YearStartSplits(c, q, r + 1); }
    else if q < 24 { YearStartSplits(c, q + 1, 0); }
    else if c < 3 { YearStartSplits(c + 1, 0, 0); }
  }

  lemma NextPartsCount(p: Parts)
    requires ValidParts(p)
    ensures ValidParts(NextParts(p)) && DayOfParts(NextParts(p)) == DayOfParts(p) + 1
  {
    YearEnds(p.yoe);
  }

  // A year's length, told by its place in the era or by its number.
  lemma LengthOf(yoe: nat, era: nat)
    ensures YearLength(yoe) == if IsLeap(yoe + era * 400 + 1) then 366 else 365
  {
    LeapShifts(yoe, era);
  }

  lemma NextPartsIs(p: Parts)
    requires ValidParts(p)
    ensures ValidParts(NextParts(p))
    ensures var y := p.yoe + p.era * 400;
            DateOfParts(NextParts(p)) ==
            if p.doy + 1 < YearLength(p.yoe) then FromYearDay(y, p.doy + 1) else FromYearDay(y + 1, 0)
  {
    if p.doy + 1 >= YearLength(p.yoe) && p.yoe == 399 {
      assert (p.era + 1) * 400 == p.yoe + p.era * 400 + 1;
    }
  }

  lemma NextOfYear(y: int, doy: nat, length: nat)
    requires doy < length == if IsLeap(y + 1) then 366 else 365
    ensures NextDay(FromYearDay(y, doy)) == if doy + 1 < length then FromYearDay(y, doy + 1) else FromYearDay(y + 1, 0)
  {
    if doy + 1 < length { NextInYear(y, doy); } else { NextAcrossYears(y); }
  }

  lemma NextPartsDate(p: Parts)
    requires ValidParts(p) && ValidParts(NextParts(p))
    ensures DateOfParts(NextParts(p)) == NextDay(DateOfParts(p))
  {
    LengthOf(p.yoe, p.era);
    NextPartsIs(p);
    NextOfYear(p.yoe + p.era * 400, p.doy, YearLength(p.yoe));
  }

  lemma {:induction false} PartsOf(n: nat) returns (p: Parts)
    ensures ValidParts(p) && n + EPOCH_SHIFT == DayOfParts(p)
    ensures DateAfter(n) == DateOfParts(p) && ValidDate(DateAfter(n))
  {
    if n == 0 {
      p := Parts(4, 369, 306);
    } else {
      var before := PartsOf(n - 1);
      NextPartsCount(before);
      NextPartsDate(before);
      ValidNext(DateAfter(n - 1));
      p := NextParts(before);
    }
  }

  lemma ValidNext(d: Date)
    requires ValidDate(d)
    ensures ValidDate(NextDay(d))
  {
  }

  /** The formula and the calendar agree on every day. */
  lemma FormulaFollowsCalendar(n: nat)
    ensures CivilFromDays(n) == DateAfter(n) && ValidDate(DateAfter(n))
  {
    var p := PartsOf(n);
    CivilOfParts(n, p.era, p.yoe, p.doy);
  }

  predicate Before(a: Date, b: Date) {
    a.year < b.year || (a.year == b.year && (a.month < b.month || (a.month == b.month && a.day < b.day)))
  }

  lemma {:induction false} LaterIsAfter(a: nat, b: nat)
    requires a < b
    ensures Before(DateAfter(a), DateAfter(b))
    decreases b
  {
    if a < b - 1 { LaterIsAfter(a, b - 1); }
  }

  lemma {:induction false} WeekdayFollows(n: nat)
    ensures WeekdayAfter(n) == (n + 4) % 7
  {
    if n > 0 { WeekdayFollows(n - 1); }
  }

  // The instant some fields name, when `days` is their date's distance from the epoch.
  function Recomposed(days: nat, t: CivilTime): nat {
    ((days * 24 + t.hour) * 60 + t.minute) * 60 * NS_PER_S + t.second * NS_PER_S + t.nanosecond
  }

  lemma TimeRecomposes(adjusted: nat)
    ensures var secs := adjusted / NS_PER_S;
            var days, sod := secs / DAY_S, secs % DAY_S;
            && sod / 3600 < 24 && sod / 60 % 60 < 60 && sod % 60 < 60
            && ((days * 24 + sod / 3600) * 60 + sod / 60 % 60) * 60 + sod % 60 == secs
  {
    var secs := adjusted / NS_PER_S;
    var sod := secs % DAY_S;
    assert sod / 60 == sod / 3600 * 60 + sod / 60 % 60;
  }

  /**
   For every instant and offset the fields are in range, name the date reached by stepping the
   calendar that many days from Thursday 1970-01-01, and recompose to exactly the shifted instant;
   no other day of the calendar has that date.
   */
  lemma CivilIsExact(unixNs: u64, offsetMinutes: int) returns (days: nat)
    ensures var t, adjusted := CivilFromUnixNs(unixNs, offsetMinutes), Adjusted(unixNs, offsetMinutes);
            && days == adjusted / (DAY_S * NS_PER_S)
            && t.date == DateAfter(days) && ValidDate(t.date) && t.weekday == WeekdayAfter(days)
            && t.hour < 24 && t.minute < 60 && t.second < 60 && t.nanosecond < NS_PER_S
            && Recomposed(days, t) == adjusted
            && (var shifted := unixNs + offsetMinutes * 60_000_000_000; adjusted == if shifted < 0 then 0 else shifted)
            && (forall n :: n != days ==> DateAfter(n) != t.date)
  {
    var adjusted := Adjusted(unixNs, offsetMinutes);
    days := adjusted / NS_PER_S / DAY_S;
    FormulaFollowsCalendar(days);
    WeekdayFollows(days);
    TimeRecomposes(adjusted);
    forall n: nat | n != days ensures DateAfter(n) != DateAfter(days) {
      if n < days { LaterIsAfter(n, days); } else { LaterIsAfter(days, n); }
    }
  }
}
