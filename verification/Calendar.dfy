/**
 The calendar arithmetic of `date`: a day number since 1970-01-01 to a year, a
 month and a day, without a table. The rules it has to agree with are written
 out first.
 */
module Calendar {

  datatype Date = Date(year: int, month: int, day: int)

  /* ---- the calendar's own rules ---- */

  predicate Leap(y: int) {
    y % 4 == 0 && (y % 100 != 0 || y % 400 == 0)
  }

  function DaysIn(y: int, m: int): int
    requires 1 <= m <= 12
  {
    if m == 2 then (if Leap(y) then 29 else 28)
    else if m == 4 || m == 6 || m == 9 || m == 11 then 30
    else 31
  }

  predicate Proper(t: Date) {
    1 <= t.month <= 12 && 1 <= t.day <= DaysIn(t.year, t.month)
  }

  function Tomorrow(t: Date): (u: Date)
    requires Proper(t)
    ensures Proper(u)
  {
    if t.day < DaysIn(t.year, t.month) then t.(day := t.day + 1)
    else if t.month < 12 then Date(t.year, t.month + 1, 1)
    else Date(t.year + 1, 1, 1)
  }

  /** Days in the months before `m`. */
  function MonthsBefore(y: int, m: int): int
    requires 1 <= m <= 12
    decreases m
  {
    if m == 1 then 0 else MonthsBefore(y, m - 1) + DaysIn(y, m - 1)
  }

  /** Days from 0001-01-01 to the first of January, counting back before year 1. */
  function YearsBefore(y: int): int {
    365 * (y - 1) + (y - 1) / 4 - (y - 1) / 100 + (y - 1) / 400
  }

  /** 1970-01-01 by that count. */
  const EPOCH := 719162

  function DayNumber(t: Date): int
    requires Proper(t)
  {
    YearsBefore(t.year) + MonthsBefore(t.year, t.month) + t.day - 1 - EPOCH
  }

  lemma YearLength(y: int)
    ensures YearsBefore(y + 1) - YearsBefore(y) == if Leap(y) then 366 else 365
  {
    Carry(y, 4);
    Carry(y, 100);
    Carry(y, 400);
    var q, m := y / 400, y % 400;
    if m == 0 { By100(y, 4 * q, 0); By4(y, 100 * q, 0); }
    var c, n := y / 100, y % 100;
    if n == 0 { By4(y, 25 * c, 0); }
  }

  /** A quotient goes up by one on the multiples of the divisor. */
  lemma Carry(y: int, k: int)
    requires k == 4 || k == 100 || k == 400
    ensures y / k - (y - 1) / k == if y % k == 0 then 1 else 0
  {
    if k == 4 {
      By4(y, y / 4, y % 4);
      if y % 4 == 0 { By4(y - 1, y / 4 - 1, 3); } else { By4(y - 1, y / 4, y % 4 - 1); }
    } else if k == 100 {
      By100(y, y / 100, y % 100);
      if y % 100 == 0 { By100(y - 1, y / 100 - 1, 99); } else { By100(y - 1, y / 100, y % 100 - 1); }
    } else {
      By400(y, y / 400, y % 400);
      if y % 400 == 0 { By400(y - 1, y / 400 - 1, 399); } else { By400(y - 1, y / 400, y % 400 - 1); }
    }
  }

  lemma By4(y: int, q: int, m: int)
    requires y == 4 * q + m && 0 <= m < 4
    ensures y / 4 == q && y % 4 == m
  {
  }

  lemma By100(y: int, q: int, m: int)
    requires y == 100 * q + m && 0 <= m < 100
    ensures y / 100 == q && y % 100 == m
  {
  }

  lemma By400(y: int, q: int, m: int)
    requires y == 400 * q + m && 0 <= m < 400
    ensures y / 400 == q && y % 400 == m
  {
  }

  lemma MonthTable(y: int)
    ensures MonthsBefore(y, 2) == 31
    ensures var k := if Leap(y) then 29 else 28;
      MonthsBefore(y, 3) == 31 + k && MonthsBefore(y, 4) == 62 + k && MonthsBefore(y, 5) == 92 + k
      && MonthsBefore(y, 6) == 123 + k && MonthsBefore(y, 7) == 153 + k && MonthsBefore(y, 8) == 184 + k
      && MonthsBefore(y, 9) == 215 + k && MonthsBefore(y, 10) == 245 + k && MonthsBefore(y, 11) == 276 + k
      && MonthsBefore(y, 12) == 306 + k
  {
    assert MonthsBefore(y, 2) == 31;
    assert MonthsBefore(y, 3) == MonthsBefore(y, 2) + DaysIn(y, 2);
    assert MonthsBefore(y, 4) == MonthsBefore(y, 3) + 31;
    assert MonthsBefore(y, 5) == MonthsBefore(y, 4) + 30;
    assert MonthsBefore(y, 6) == MonthsBefore(y, 5) + 31;
    assert MonthsBefore(y, 7) == MonthsBefore(y, 6) + 30;
    assert MonthsBefore(y, 8) == MonthsBefore(y, 7) + 31;
    assert MonthsBefore(y, 9) == MonthsBefore(y, 8) + 31;
    assert MonthsBefore(y, 10) == MonthsBefore(y, 9) + 30;
    assert MonthsBefore(y, 11) == MonthsBefore(y, 10) + 31;
    assert MonthsBefore(y, 12) == MonthsBefore(y, 11) + 30;
  }

  /** Tomorrow is one day later. */
  lemma TomorrowIsNext(t: Date)
    requires Proper(t)
    ensures DayNumber(Tomorrow(t)) == DayNumber(t) + 1
  {
    YearLength(t.year);
    MonthTable(t.year);
  }

  /* ---- the conversion ---- */

  const MARCH_0000 := 719468
  const ERA := 146097
  const UINT32 := 0x1_0000_0000

  /** Division as C does it. */
  function Truncated(a: int, b: int): int
    requires b > 0
  {
    if a >= 0 then a / b else -(-a / b)
  }

  function EraOf(z: int): int {
    Truncated(if z >= 0 then z else z - 146096, ERA)
  }

  function YearOfEra(doe: int): int {
    (doe - doe / 1460 + doe / 36524 - doe / 146096) / 365
  }

  /** Days of an era before its year `y`, years running from March. */
  function EraDays(y: int): int {
    365 * y + y / 4 - y / 100
  }

  /** Days of a March-first year before its month `mp`. */
  function MarchDays(mp: int): int {
    (153 * mp + 2) / 5
  }

  function CivilFromDays(days: int): Date {
    var z := days + MARCH_0000;
    var era := EraOf(z);
    var doe := z - era * ERA;
    var yoe := YearOfEra(doe);
    var yr := yoe + era * 400;
    var doy := doe - EraDays(yoe);
    var mp := (5 * doy + 2) / 153;
    var dy := doy - MarchDays(mp) + 1;
    var mn := (mp + if mp < 10 then 3 else UINT32 - 9) % UINT32;
    Date(if mn <= 2 then yr + 1 else yr, mn, dy)
  }

  /* ---- proof: eras, then years of an era, then months of a March-first year ---- */

  lemma EraIsFloor(z: int)
    ensures EraOf(z) == z / ERA && 0 <= z - EraOf(z) * ERA < ERA
  {
  }

  /** The length of year `y` of an era: the leap day, if any, falls at its end. */
  function EraYear(y: int): int {
    if Leap(y + 1) then 366 else 365
  }

  /** Year `100c + 4a + b` of an era. */
  lemma EraForm(c: int, a: int, b: int)
    requires 0 <= c < 4 && 0 <= a < 25 && 0 <= b < 4
    ensures var y := 100 * c + 4 * a + b;
      y / 4 == 25 * c + a && y / 100 == c
      && EraDays(y) == 36524 * c + 1461 * a + 365 * b
      && (Leap(y + 1) <==> b == 3 && (a < 24 || c == 3))
  {
  }

  /** The year is recovered from any of its days. */
  lemma YearRecovered(c: int, a: int, b: int, t: int)
    requires 0 <= c < 4 && 0 <= a < 25 && 0 <= b < 4
    requires 0 <= t < EraYear(100 * c + 4 * a + b)
    ensures var y := 100 * c + 4 * a + b; YearOfEra(EraDays(y) + t) == y && 0 <= EraDays(y) + t < ERA
  {
    EraForm(c, a, b);
    hide EraDays, EraYear, Leap;
    LeapDays(c, a, b, t);
    var doe := 36524 * c + 1461 * a + 365 * b + t;
    var over := if b == 3 && 24 * c + a + t >= 365 then 1 else 0;
    assert doe / 1460 == 25 * c + a + over;
    var last := if doe == 146096 then 1 else 0;
    assert doe / 36524 == c + last;
    assert doe / 146096 == last;
  }

  lemma LeapDays(c: int, a: int, b: int, t: int)
    requires 0 <= c < 4 && 0 <= a < 25 && 0 <= b < 4
    requires 0 <= t < EraYear(100 * c + 4 * a + b)
    ensures t < 365 || (t == 365 && b == 3 && (a < 24 || c == 3))
  {
    EraForm(c, a, b);
  }

  /** Every day of an era is a day of one of its years. */
  lemma YearFound(doe: int) returns (c: int, a: int, b: int, t: int)
    requires 0 <= doe < ERA
    ensures 0 <= c < 4 && 0 <= a < 25 && 0 <= b < 4
    ensures var y := 100 * c + 4 * a + b; 0 <= t < EraYear(y) && doe == EraDays(y) + t
  {
    c := if doe / 36524 < 3 then doe / 36524 else 3;
    var r := doe - 36524 * c;
    a := if r / 1461 < 24 then r / 1461 else 24;
    var s := r - 1461 * a;
    b := if s / 365 < 3 then s / 365 else 3;
    t := s - 365 * b;
    EraForm(c, a, b);
  }

  lemma MarchTable()
    ensures MarchDays(0) == 0 && MarchDays(1) == 31 && MarchDays(2) == 61 && MarchDays(3) == 92
    ensures MarchDays(4) == 122 && MarchDays(5) == 153 && MarchDays(6) == 184 && MarchDays(7) == 214
    ensures MarchDays(8) == 245 && MarchDays(9) == 275 && MarchDays(10) == 306 && MarchDays(11) == 337
    ensures MarchDays(12) == 367
  {
  }

  /** The month is the one whose days hold this day of the year. */
  lemma MonthSpan(doy: int, mp: int)
    ensures (5 * doy + 2) / 153 == mp <==> MarchDays(mp) <= doy < MarchDays(mp + 1)
  {
  }

  function MarchYear(t: Date): int {
    if t.month <= 2 then t.year - 1 else t.year
  }

  function MarchMonth(t: Date): int {
    if t.month <= 2 then t.month + 9 else t.month - 3
  }

  function DayOfMarchYear(t: Date): int {
    MarchDays(MarchMonth(t)) + t.day - 1
  }

  /** A day of a month is a day of that month's span, and February's leap day is the last. */
  lemma DayInYear(t: Date)
    requires Proper(t)
    ensures 0 <= DayOfMarchYear(t) < EraYear(MarchYear(t))
    ensures MarchDays(MarchMonth(t)) <= DayOfMarchYear(t) < MarchDays(MarchMonth(t) + 1)
  {
    hide MarchDays, Leap;
    MarchTable();
  }

  /** The same day counted in years and months that begin in March. */
  lemma MarchCount(t: Date)
    requires Proper(t)
    ensures DayNumber(t) + MARCH_0000 == YearsBefore(MarchYear(t) + 1) + DayOfMarchYear(t)
  {
    hide MarchDays, Leap, YearsBefore;
    MarchTable();
    MonthTable(t.year);
    YearLength(MarchYear(t));
  }

  lemma EraCount(y: int)
    ensures YearsBefore(y + 1) == y / 400 * ERA + EraDays(y % 400)
  {
    var n, r := y / 400, y % 400;
    assert y == 400 * n + r;
    assert y / 4 == 100 * n + r / 4;
    assert y / 100 == 4 * n + r / 100;
  }

  lemma EraLeaps(y: int)
    ensures EraYear(y) == EraYear(y % 400)
  {
    var n, k := y / 400, y % 400 + 1;
    assert y + 1 == 400 * n + k;
    Remainder(n, k, 4);
    Remainder(n, k, 100);
    Remainder(n, k, 400);
  }

  lemma Remainder(n: int, k: int, d: int)
    requires d == 4 || d == 100 || d == 400
    ensures (400 * n + k) % d == k % d
  {
    if d == 4 {
      By4(400 * n + k, 100 * n + k / 4, k % 4);
    } else if d == 100 {
      By100(400 * n + k, 4 * n + k / 100, k % 100);
    } else {
      By400(400 * n + k, n + k / 400, k % 400);
    }
  }

  /** The year of an era, in the form the year lemmas use. */
  lemma YearOfEraRecovered(y: int, t: int)
    requires 0 <= y < 400 && 0 <= t < EraYear(y)
    ensures YearOfEra(EraDays(y) + t) == y && 0 <= EraDays(y) + t < ERA
  {
    hide EraYear, EraDays, YearOfEra;
    assert y == 100 * (y / 100) + 4 * (y % 100 / 4) + y % 4;
    YearRecovered(y / 100, y % 100 / 4, y % 4, t);
  }

  /** The conversion takes apart exactly what it is given as era, year and day. */
  lemma PartsRecovered(days: int, y: int, doy: int)
    requires 0 <= doy < EraYear(y)
    requires days + MARCH_0000 == YearsBefore(y + 1) + doy
    ensures var era := EraOf(days + MARCH_0000);
      era == y / 400 && days + MARCH_0000 - era * ERA == EraDays(y % 400) + doy
      && YearOfEra(EraDays(y % 400) + doy) == y % 400
  {
    hide EraYear, EraDays, YearOfEra, YearsBefore, EraOf;
    EraCount(y);
    EraLeaps(y);
    YearOfEraRecovered(y % 400, doy);
    EraIsFloor(days + MARCH_0000);
  }

  /** The date the conversion puts together from an era, a year and a day of it. */
  lemma Assembled(days: int, era: int, yoe: int, doy: int, mp: int)
    requires EraOf(days + MARCH_0000) == era && YearOfEra(days + MARCH_0000 - era * ERA) == yoe
    requires days + MARCH_0000 - era * ERA == EraDays(yoe) + doy
    requires (5 * doy + 2) / 153 == mp && 0 <= mp < 12
    ensures CivilFromDays(days) ==
      Date(if mp < 10 then 400 * era + yoe else 400 * era + yoe + 1, if mp < 10 then mp + 3 else mp - 9,
           doy - MarchDays(mp) + 1)
  {
    hide YearOfEra, EraOf, EraDays, MarchDays;
  }

  /** The conversion finds every date from its number. */
  lemma DateRecovered(t: Date)
    requires Proper(t)
    ensures CivilFromDays(DayNumber(t)) == t
  {
    hide DayNumber, EraYear, YearOfEra, YearsBefore, EraOf, EraDays, MarchDays, CivilFromDays;
    MarchCount(t);
    DayInYear(t);
    PartsRecovered(DayNumber(t), MarchYear(t), DayOfMarchYear(t));
    MonthSpan(DayOfMarchYear(t), MarchMonth(t));
    var y := MarchYear(t);
    Assembled(DayNumber(t), y / 400, y % 400, DayOfMarchYear(t), MarchMonth(t));
    assert 400 * (y / 400) + y % 400 == y;
  }

  /** Some date has this number. */
  lemma DateExists(z: int) returns (t: Date)
    ensures Proper(t) && DayNumber(t) == z
  {
    hide EraYear, EraDays, EraOf, YearsBefore, Leap, DayNumber;
    EraIsFloor(z + MARCH_0000);
    var era := (z + MARCH_0000) / ERA;
    var c, a, b, doy := YearFound(z + MARCH_0000 - era * ERA);
    var yoe := 100 * c + 4 * a + b;
    var y := 400 * era + yoe;
    assert y / 400 == era && y % 400 == yoe;
    EraCount(y);
    EraLeaps(y);
    t := MonthFound(y, doy);
    MarchCount(t);
  }

  lemma MonthFound(y: int, doy: int) returns (t: Date)
    requires 0 <= doy < EraYear(y)
    ensures Proper(t) && MarchYear(t) == y && DayOfMarchYear(t) == doy
  {
    hide MarchDays, Leap;
    MarchTable();
    var mp :| 0 <= mp < 12 && MarchDays(mp) <= doy < MarchDays(mp + 1);
    t := if mp < 10 then Date(y, mp + 3, doy - MarchDays(mp) + 1) else Date(y + 1, mp - 9, doy - MarchDays(mp) + 1);
  }

  /** Every day number has a proper date, and the conversion delivers it. */
  lemma DateFound(z: int)
    ensures Proper(CivilFromDays(z)) && DayNumber(CivilFromDays(z)) == z
  {
    var t := DateExists(z);
    DateRecovered(t);
  }

  /** Successive day numbers are successive days of the calendar, starting from 1970-01-01. */
  lemma DaysFollowTheCalendar(z: int)
    ensures Proper(CivilFromDays(z)) && CivilFromDays(z + 1) == Tomorrow(CivilFromDays(z))
    ensures CivilFromDays(0) == Date(1970, 1, 1)
  {
    Epoch();
    hide CivilFromDays, DayNumber, Tomorrow, Proper;
    DateFound(z);
    TomorrowIsNext(CivilFromDays(z));
    DateRecovered(Tomorrow(CivilFromDays(z)));
    DateRecovered(Date(1970, 1, 1));
  }

  lemma Epoch()
    ensures Proper(Date(1970, 1, 1)) && DayNumber(Date(1970, 1, 1)) == 0
  {
  }

  const INT32_MIN := -0x8000_0000
  const INT32_MAX := 0x7FFF_FFFF

  /**
   For every 32-bit day number the shift does not overflow on, no signed step
   overflows and no unsigned one goes below zero, so the C types change nothing.
   */
  lemma WidthsSuffice(days: int)
    requires INT32_MIN <= days <= INT32_MAX - MARCH_0000
    ensures var z := days + MARCH_0000;
      var era := EraOf(z);
      var doe := z - era * ERA;
      var doy := doe - EraDays(YearOfEra(doe));
      && INT32_MIN <= z <= INT32_MAX && INT32_MIN <= z - 146096 && INT32_MIN <= era * ERA <= INT32_MAX
      && 0 <= doe < ERA && 0 <= YearOfEra(doe) < 400 && 0 <= doy < 366
      && INT32_MIN <= CivilFromDays(days).year <= INT32_MAX
  {
    hide EraOf, YearOfEra;
    var z := days + MARCH_0000;
    EraIsFloor(z);
    var c, a, b, doy := YearFound(z - EraOf(z) * ERA);
    YearRecovered(c, a, b, doy);
  }
}
