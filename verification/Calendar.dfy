/**
 The civil date arithmetic behind the `Received:` date, for every integer day.
 */
module Calendar {

  datatype Date = Date(year: int, month: int, day: int)

  // --------------------------------------------------------------- the source

  /** Rust's `/` on signed integers truncates toward zero. */
  function TruncDiv(a: int, b: int): int
    requires b > 0
  {
    if a >= 0 then a / b else -((-a) / b)
  }

  function YearOfEra(doe: int): int {
    TruncDiv(doe - TruncDiv(doe, 1460) + TruncDiv(doe, 36_524) - TruncDiv(doe, 146_096), 365)
  }

  /** Days of an era before its year `yoe` (years starting on 1 March). */
  function DaysBefore(yoe: int): int {
    365 * yoe + TruncDiv(yoe, 4) - TruncDiv(yoe, 100)
  }

  function MonthIndex(doy: int): int {
    TruncDiv(5 * doy + 2, 153)
  }

  function DaysBeforeMonth(mp: int): int {
    TruncDiv(153 * mp + 2, 5)
  }

  function Era(z: int): int {
    TruncDiv(if z >= 0 then z else z - 146_096, 146_097)
  }

  /** `civil_from_days`. */
  function CivilFromDays(days: int): Date {
    var z := days + 719_468;
    var era := Era(z);
    var doe := z - era * 146_097;
    var yoe := YearOfEra(doe);
    var y := yoe + era * 400;
    var doy := doe - DaysBefore(yoe);
    var mp := MonthIndex(doy);
    var d := doy - DaysBeforeMonth(mp) + 1;
    var m := if mp < 10 then mp + 3 else mp - 9;
    Date(if m <= 2 then y + 1 else y, m, d)
  }

  // ------------------------------------------------------- Gregorian calendar

  predicate Leap(year: int) {
    year % 4 == 0 && (year % 100 != 0 || year % 400 == 0)
  }

  function DaysInMonth(year: int, month: int): int {
    if month == 2 then (if Leap(year) then 29 else 28)
    else if month in {4, 6, 9, 11} then 30
    else 31
  }

  predicate ValidDate(d: Date) {
    1 <= d.month <= 12 && 1 <= d.day <= DaysInMonth(d.year, d.month)
  }

  /** The day after `d`. */
  function Next(d: Date): Date {
    if d.day < DaysInMonth(d.year, d.month) then d.(day := d.day + 1)
    else if d.month < 12 then Date(d.year, d.month + 1, 1)
    else Date(d.year + 1, 1, 1)
  }

  // --------------------------------------------------------- position in an era

  /** A day of an era by century, four-year cycle, year and day of the year. */
  datatype Position = Position(c: int, q: int, r: int, doy: int) {

    function Year(): int {
      100 * c + 4 * q + r
    }

    function Day(): int {
      36_524 * c + 1461 * q + 365 * r + doy
    }

    predicate LongYear() {
      r == 3 && (q < 24 || c == 3)
    }

    predicate Valid() {
      0 <= c <= 3 && 0 <= q <= 24 && 0 <= r <= 3 && 0 <= doy < if LongYear() then 366 else 365
    }
  }

  function Clamp(a: int, top: int): int {
    if a > top then top else a
  }

  function Locate(doe: int): (p: Position)
    requires 0 <= doe <= 146_096
    ensures p.Valid() && p.Day() == doe
  {
    var c := Clamp(doe / 36_524, 3);
    var doc := doe - 36_524 * c;
    var q := Clamp(doc / 1461, 24);
    var doq := doc - 1461 * q;
    var r := Clamp(doq / 365, 3);
    Position(c, q, r, doq - 365 * r)
  }

  lemma CenturyTerm(p: Position)
    requires p.Valid()
    ensures p.Day() / 36_524 - p.Day() / 146_096 == p.c
  {
  }

  lemma CycleTerm(p: Position)
    requires p.Valid()
    ensures var e := 24 * p.c + p.q + 365 * p.r + p.doy;
            p.Day() / 1460 == 25 * p.c + p.q + (if e >= 1460 then 1 else 0)
  {
    var e := 24 * p.c + p.q + 365 * p.r + p.doy;
    assert p.Day() == 1460 * (25 * p.c + p.q) + e;
  }

  /** The year formula recovers the year of every position. */
  lemma YearFormula(p: Position)
    requires p.Valid()
    ensures YearOfEra(p.Day()) == p.Year() && p.Day() - DaysBefore(p.Year()) == p.doy
  {
    CenturyTerm(p);
    CycleTerm(p);
    var x := p.Day() - p.Day() / 1460 + p.c;
    assert 365 * p.Year() <= x < 365 * (p.Year() + 1);
    assert p.Year() / 4 == 25 * p.c + p.q && p.Year() / 100 == p.c;
  }

  // ---------------------------------------------------------- days of one year

  /** The date of day `doy` of the year that starts on 1 March of `y`. */
  function InYear(y: int, doy: int): Date {
    var mp := MonthIndex(doy);
    var m := if mp < 10 then mp + 3 else mp - 9;
    Date(if m <= 2 then y + 1 else y, m, doy - DaysBeforeMonth(mp) + 1)
  }

  /** The first day of each month of a year that starts on 1 March. */
  const STARTS: seq<int> := [0, 31, 61, 92, 122, 153, 184, 214, 245, 275, 306, 337, 367]

  lemma MonthTable(mp: int)
    requires 0 <= mp <= 12
    ensures DaysBeforeMonth(mp) == STARTS[mp]
  {
  }

  lemma MonthUnique(doy: int, mp: int)
    requires 0 <= mp <= 11 && STARTS[mp] <= doy < STARTS[mp + 1]
    ensures MonthIndex(doy) == mp
  {
  }

  lemma MonthExists(doy: int) returns (mp: int)
    requires 0 <= doy <= 366
    ensures 0 <= mp <= 11 && STARTS[mp] <= doy < STARTS[mp + 1]
  {
    mp := 0;
    while STARTS[mp + 1] <= doy
      invariant 0 <= mp <= 11 && STARTS[mp] <= doy
    {
      mp := mp + 1;
    }
  }

  function MonthLength(mp: int, leap: bool): int {
    if mp == 11 then (if leap then 29 else 28) else if mp in {1, 3, 6, 8} then 30 else 31
  }

  lemma TableLengths(mp: int)
    requires 0 <= mp < 11
    ensures STARTS[mp + 1] - STARTS[mp] == MonthLength(mp, false)
  {
  }

  /** The date of day `doy` by month and day of the month. */
  lemma InYearAt(y: int, doy: int, mp: int)
    requires 0 <= mp <= 11 && STARTS[mp] <= doy < STARTS[mp + 1]
    ensures InYear(y, doy) == (if mp < 10 then Date(y, mp + 3, doy - STARTS[mp] + 1)
                               else Date(y + 1, mp - 9, doy - STARTS[mp] + 1))
  {
    hide MonthIndex, DaysBeforeMonth;
    MonthUnique(doy, mp);
    MonthTable(mp);
  }

  /** Consecutive days of a year are consecutive dates, each of them valid. */
  lemma YearSteps(y: int, doy: int)
    requires 0 <= doy <= (if Leap(y + 1) then 365 else 364)
    ensures ValidDate(InYear(y, doy))
    ensures doy < (if Leap(y + 1) then 365 else 364) ==> InYear(y, doy + 1) == Next(InYear(y, doy))
    ensures doy == (if Leap(y + 1) then 365 else 364) ==> InYear(y + 1, 0) == Next(InYear(y, doy))
  {
    hide InYear, Leap, MonthIndex, DaysBeforeMonth;
    var mp := MonthExists(doy);
    InYearAt(y, doy, mp);
    if mp < 11 { TableLengths(mp); }
    if doy + 1 < STARTS[mp + 1] {
      InYearAt(y, doy + 1, mp);
    } else {
      InYearAt(y, doy + 1, mp + 1);
    }
    InYearAt(y + 1, 0, 0);
  }

  // ------------------------------------------------------------ the day counter

  lemma EraOf(z: int, era: int, doe: int)
    requires z == era * 146_097 + doe && 0 <= doe <= 146_096
    ensures Era(z) == era
  {
  }

  lemma CivilParts(days: int, era: int, doe: int, yoe: int, doy: int)
    requires Era(days + 719_468) == era && days + 719_468 - era * 146_097 == doe
    requires YearOfEra(doe) == yoe && doe - DaysBefore(yoe) == doy
    ensures CivilFromDays(days) == InYear(yoe + 400 * era, doy)
  {
    hide Era, YearOfEra, DaysBefore, MonthIndex, DaysBeforeMonth;
  }

  /** The date of a position: the formulas undo the decomposition. */
  lemma CivilOf(days: int, era: int, p: Position)
    requires p.Valid() && days + 719_468 == era * 146_097 + p.Day()
    ensures CivilFromDays(days) == InYear(p.Year() + 400 * era, p.doy)
  {
    hide *;
    YearFormula(p);
    EraEnds(p);
    EraOf(days + 719_468, era, p.Day());
    CivilParts(days, era, p.Day(), p.Year(), p.doy);
  }

  lemma Decompose(days: int) returns (era: int, p: Position)
    ensures p.Valid() && days + 719_468 == era * 146_097 + p.Day()
    ensures CivilFromDays(days) == InYear(p.Year() + 400 * era, p.doy)
  {
    hide CivilFromDays, InYear;
    var z := days + 719_468;
    era := z / 146_097;
    p := Locate(z - era * 146_097);
    CivilOf(days, era, p);
  }

  lemma Mod4(a: int, k: int)
    ensures (a + 4 * k) % 4 == a % 4
  {
  }

  lemma Mod100(a: int, k: int)
    ensures (a + 100 * k) % 100 == a % 100
  {
  }

  lemma Mod400(a: int, k: int)
    ensures (a + 400 * k) % 400 == a % 400
  {
  }

  lemma LongYears(p: Position)
    requires p.Valid()
    ensures p.LongYear() <==> Leap(p.Year() + 1)
  {
  }

  lemma LeapYears(p: Position, era: int)
    requires p.Valid()
    ensures p.LongYear() <==> Leap(p.Year() + 400 * era + 1)
  {
    var y := p.Year() + 1;
    Mod4(y, 100 * era);
    Mod100(y, 4 * era);
    Mod400(y, era);
    LongYears(p);
  }

  /** The position of the following day. */
  function After(p: Position): (p': Position)
    requires p.Valid() && p.Day() < 146_096
    ensures p'.Valid() && p'.Day() == p.Day() + 1
    ensures (p'.Year() == p.Year() && p'.doy == p.doy + 1) || (p'.doy == 0 && p'.Year() == p.Year() + 1)
    ensures p'.doy == 0 <==> p.doy == (if p.LongYear() then 365 else 364)
  {
    if p.doy < (if p.LongYear() then 365 else 364) then p.(doy := p.doy + 1)
    else if p.r < 3 then Position(p.c, p.q, p.r + 1, 0)
    else if p.q < 24 then Position(p.c, p.q + 1, 0, 0)
    else Position(p.c + 1, 0, 0, 0)
  }

  const FIRST_DAY := Position(0, 0, 0, 0)

  lemma LargestDay(c: int, w: int, q: int, x: int, r: int, doy: int)
    requires c <= 3 && q <= 24 && r <= 3 && doy <= 365 && (doy == 365 ==> r == 3)
    requires w == 1461 * q + x && x == 365 * r + doy
    ensures x <= 1460 && w <= 36_524 && 36_524 * c + w <= 146_096
    ensures 36_524 * c + w == 146_096 ==> c == 3 && q == 24 && r == 3 && doy == 365
  {
    assert x == 1460 ==> r == 3;
    assert w == 36_524 ==> q == 24 && x == 1460;
  }

  lemma FirstDay()
    ensures FIRST_DAY.Valid() && FIRST_DAY.Day() == 0 && FIRST_DAY.Year() == 0 && FIRST_DAY.doy == 0
  {
    hide TruncDiv, YearOfEra, DaysBefore, MonthIndex, DaysBeforeMonth, Era, CivilFromDays, Leap, DaysInMonth, Next, Clamp, Locate;
    var p := FIRST_DAY;
    assert p.c == 0 && p.q == 0 && p.r == 0 && p.doy == 0;
  }

  lemma EraEnds(p: Position)
    requires p.Valid()
    ensures 0 <= p.doy <= if p.LongYear() then 365 else 364
    ensures 0 <= p.Day() <= 146_096
    ensures p.Day() == 146_096 ==> p == Position(3, 24, 3, 365)
  {
    var Position(c, q, r, doy) := p;
    var x := 365 * r + doy;
    var w := 1461 * q + x;
    LargestDay(c, w, q, x, r, doy);
    assert p.Day() == 36_524 * c + w;
  }

  lemma LastDay()
    ensures Position(3, 24, 3, 365).Year() == 399 && Position(3, 24, 3, 365).LongYear()
  {
  }

  /** Every day's date is valid, and the next day's date is its successor. */
  lemma CivilStep(days: int)
    ensures ValidDate(CivilFromDays(days))
    ensures CivilFromDays(days + 1) == Next(CivilFromDays(days))
  {
    hide *;
    var era, p := Decompose(days);
    LeapYears(p, era);
    EraEnds(p);
    var y := p.Year() + 400 * era;
    YearSteps(y, p.doy);
    if p.Day() < 146_096 {
      CivilOf(days + 1, era, After(p));
    } else {
      LastDay();
      FirstDay();
      CivilOf(days + 1, era + 1, FIRST_DAY);
      assert p.Year() + 400 * era + 1 == FIRST_DAY.Year() + 400 * (era + 1);
    }
  }

  /** `n` successor steps from a date. */
  function Advance(d: Date, n: nat): Date {
    if n == 0 then d else Next(Advance(d, n - 1))
  }

  lemma {:induction false} CivilAdvance(days: int, n: nat)
    ensures CivilFromDays(days + n) == Advance(CivilFromDays(days), n)
  {
    hide CivilFromDays, Next;
    if n > 0 {
      CivilAdvance(days, n - 1);
      CivilStep(days + n - 1);
    }
  }

  const EPOCH := Date(1970, 1, 1)

  lemma CivilEpoch()
    ensures CivilFromDays(0) == Date(1970, 1, 1) == EPOCH
  {
    assert Era(719_468) == 4;
    assert YearOfEra(135_080) == 369;
    assert DaysBefore(369) == 134_774;
    assert MonthIndex(306) == 10 && DaysBeforeMonth(10) == 306;
    hide Era, YearOfEra, DaysBefore, MonthIndex, DaysBeforeMonth, TruncDiv;
  }

  /** The date of a day is the calendar walked that many days from 1 January 1970,
      forwards or backwards. */
  lemma CivilIsCalendar(days: int)
    ensures days >= 0 ==> CivilFromDays(days) == Advance(EPOCH, days)
    ensures days <= 0 ==> Advance(CivilFromDays(days), -days) == EPOCH
  {
    hide *;
    CivilEpoch();
    if days >= 0 { CivilAdvance(0, days); }
    if days <= 0 { CivilAdvance(days, -days); }
  }

  // -------------------------------------------------------------- time of day

  datatype Moment = Moment(weekday: int, date: Date, hour: int, minute: int, second: int)

  function WeekdayOf(days: int): int {
    (days % 7 + 4) % 7
  }

  /** `rfc5322_date` before formatting (weekday 0 is Sunday). */
  function MomentOf(secs: int): Moment {
    var days := secs / 86_400;
    var (hour, minute, second) := Clock(secs % 86_400);
    Moment(WeekdayOf(days), CivilFromDays(days), hour, minute, second)
  }

  function Clock(tod: int): (int, int, int) {
    (tod / 3600, (tod % 3600) / 60, tod % 60)
  }

  /** Second 0 is midnight on Thursday, 1 January 1970. */
  lemma MomentEpoch()
    ensures MomentOf(0) == Moment(4, Date(1970, 1, 1), 0, 0, 0)
  {
    hide CivilFromDays;
    CivilEpoch();
  }

  lemma ClockAt(h: int, m: int, s: int)
    requires 0 <= h <= 24 && 0 <= m <= 59 && 0 <= s <= 59
    ensures Clock(3600 * h + 60 * m + s) == (h, m, s)
  {
    Hours(h, 60 * m + s);
    Minutes(m, s);
    Minutes(60 * h + m, s);
    assert 3600 * h + 60 * m + s == 60 * (60 * h + m) + s;
  }

  lemma Hours(h: int, rest: int)
    requires 0 <= rest < 3600
    ensures (3600 * h + rest) / 3600 == h && (3600 * h + rest) % 3600 == rest
  {
  }

  lemma Minutes(m: int, s: int)
    requires 0 <= s < 60
    ensures (60 * m + s) / 60 == m && (60 * m + s) % 60 == s
  {
  }

  lemma ClockStep(tod: int)
    requires 0 <= tod <= 86_399
    ensures var (h, m, s) := Clock(tod);
            && 0 <= h <= 23 && 0 <= m <= 59 && 0 <= s <= 59
            && (tod == 86_399 <==> (h, m, s) == (23, 59, 59))
            && (s < 59 ==> Clock(tod + 1) == (h, m, s + 1))
            && (s == 59 && m < 59 ==> Clock(tod + 1) == (h, m + 1, 0))
            && (s == 59 && m == 59 && h < 23 ==> Clock(tod + 1) == (h + 1, 0, 0))
  {
    var (h, m, s) := Clock(tod);
    assert tod == 3600 * h + 60 * m + s;
    hide Clock;
    if s < 59 {
      ClockAt(h, m, s + 1);
    } else if m < 59 {
      ClockAt(h, m + 1, 0);
    } else {
      ClockAt(h + 1, 0, 0);
    }
  }

  lemma DayOfSecond(secs: int)
    ensures var days, tod := secs / 86_400, secs % 86_400;
            && 0 <= tod <= 86_399
            && (tod < 86_399 ==> (secs + 1) / 86_400 == days && (secs + 1) % 86_400 == tod + 1)
            && (tod == 86_399 ==> (secs + 1) / 86_400 == days + 1 && (secs + 1) % 86_400 == 0)
  {
  }

  lemma WeekdayStep(days: int)
    ensures 0 <= WeekdayOf(days) <= 6 && WeekdayOf(days + 1) == (WeekdayOf(days) + 1) % 7
  {
  }

  /** One second later: the clock rolls over into the next date and weekday. */
  lemma MomentStep(secs: int)
    ensures var m, m' := MomentOf(secs), MomentOf(secs + 1);
            && 0 <= m.weekday <= 6 && 0 <= m.hour <= 23 && 0 <= m.minute <= 59 && 0 <= m.second <= 59
            && ValidDate(m.date)
            && (if m.second < 59 then m' == m.(second := m.second + 1)
                else if m.minute < 59 then m' == m.(minute := m.minute + 1, second := 0)
                else if m.hour < 23 then m' == m.(hour := m.hour + 1, minute := 0, second := 0)
                else m' == Moment((m.weekday + 1) % 7, Next(m.date), 0, 0, 0))
    ensures MomentOf(0) == Moment(4, EPOCH, 0, 0, 0)
  {
    hide CivilFromDays, Next, ValidDate, Clock;
    CivilStep(secs / 86_400);
    CivilEpoch();
    DayOfSecond(secs);
    WeekdayStep(secs / 86_400);
    ClockStep(secs % 86_400);
    ClockStep(0);
    ClockZero();
  }

  lemma ClockZero()
    ensures Clock(0) == (0, 0, 0)
  {
  }
}
