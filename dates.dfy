/**
 * Date arithmetic on instants of local wall-clock time: whole-day shifts
 * (`addDays`/`subDays`), calendar-day comparison (`isSameDay`) and the
 * proleptic Gregorian year/month/day of a day number (`getYear`,
 * `getMonth`, `startOfMonth`).
 *
 * Day numbers count days from 1970-01-01. The conversion splits a day number
 * into 400-year eras that start on 1 March, then into centuries, 4-year
 * blocks and years, so that the leap day is the last day of its block.
 */
module Dates {
  import opened Types

  const MsPerDay: int := 86_400_000

  /** The calendar day an instant falls on (floor division: the divisor is positive). */
  function DayNumber(t: Instant): int
  {
    t / MsPerDay
  }

  function TimeOfDay(t: Instant): (r: int)
    ensures 0 <= r < MsPerDay
  {
    t % MsPerDay
  }

  /** date-fns `addDays`. */
  function AddDays(t: Instant, n: int): Instant
  {
    t + n * MsPerDay
  }

  /** date-fns `subDays`. */
  function SubDays(t: Instant, n: int): Instant
  {
    AddDays(t, -n)
  }

  /** Shifting by `n` days keeps the time of day and moves the calendar day by `n`, either way. */
  lemma AddDaysSpec(t: Instant, n: int)
    ensures DayNumber(AddDays(t, n)) == DayNumber(t) + n
    ensures TimeOfDay(AddDays(t, n)) == TimeOfDay(t)
    ensures DayNumber(SubDays(t, n)) == DayNumber(t) - n
    ensures TimeOfDay(SubDays(t, n)) == TimeOfDay(t)
  {
    ShiftByDays(t, n);
    ShiftByDays(t, -n);
  }

  lemma ShiftByDays(t: Instant, n: int)
    ensures (t + n * MsPerDay) / MsPerDay == t / MsPerDay + n
    ensures (t + n * MsPerDay) % MsPerDay == t % MsPerDay
  {
    var q, r := t / MsPerDay, t % MsPerDay;
    assert t + n * MsPerDay == (q + n) * MsPerDay + r;
  }

  /** date-fns `isSameDay`. */
  predicate IsSameDay(a: Instant, b: Instant)
  {
    DayNumber(a) == DayNumber(b)
  }

  /** A proleptic Gregorian date; `month` runs from 1 (January) to 12. */
  datatype Civil = Civil(year: int, month: int, day: int)

  /** Days from 0000-03-01 to 1970-01-01. */
  const EpochShift: int := 719_468
  /** Days in a 400-year era. */
  const DaysPerEra: int := 146_097

  /** The first day of the March-based month `mp` (0 = March, 11 = February) within its year. */
  function MonthStart(mp: int): int
  {
    (153 * mp + 2) / 5
  }

  /**
   * Splits a day of an era (0 .. 146096) into the year of the era (0 .. 399)
   * and the day of that March-based year (0 .. 365).
   */
  function YearOfEra(doe: int): (int, int)
    requires 0 <= doe < DaysPerEra
  {
    var c := if doe / 36524 < 3 then doe / 36524 else 3;
    var r1 := doe - 36524 * c;
    var u := r1 / 1461;
    var r2 := r1 - 1461 * u;
    var v := if r2 / 365 < 3 then r2 / 365 else 3;
    (100 * c + 4 * u + v, r2 - 365 * v)
  }

  /**
   * The year of the era lies in 0 .. 399, the day of that year in 0 .. 365,
   * and they add back up to the day of the era.
   */
  lemma YearOfEraSpec(doe: int)
    requires 0 <= doe < DaysPerEra
    ensures var r := YearOfEra(doe);
      && 0 <= r.0 < 400 && 0 <= r.1 <= 365
      && doe == 365 * r.0 + r.0 / 4 - r.0 / 100 + r.1
  {
    var c, u, v, r2 := YearOfEraParts(doe);
    YearOfEraDivisions(c, u, v, r2 - 365 * v);
  }

  /**
   * The steps of YearOfEra: `c` centuries, `u` four-year cycles and `v` years
   * into the era, and `r2` days into the four-year cycle; only the last day
   * of a leap year is day 365, and only the last day of the era closes a
   * full fourth century.
   */
  lemma YearOfEraParts(doe: int) returns (c: int, u: int, v: int, r2: int)
    requires 0 <= doe < DaysPerEra
    ensures 0 <= c < 4 && 0 <= u < 25 && 0 <= v < 4 && 0 <= r2 - 365 * v <= 365 && 0 <= r2 < 1461
    ensures r2 - 365 * v == 365 ==> v == 3
    ensures 1461 * u + r2 <= 36524 && (1461 * u + r2 == 36524 ==> c == 3)
    ensures doe == 36524 * c + 1461 * u + 365 * v + (r2 - 365 * v)
    ensures YearOfEra(doe) == (100 * c + 4 * u + v, r2 - 365 * v)
  {
    c := if doe / 36524 < 3 then doe / 36524 else 3;
    var r1 := doe - 36524 * c;
    u := r1 / 1461;
    r2 := r1 - 1461 * u;
    assert 0 <= u < 25 && 0 <= r2 < 1461 by {
      assert 1461 * u <= r1 < 1461 * u + 1461;
    }
    v := if r2 / 365 < 3 then r2 / 365 else 3;
  }

  /** The year of the era written as centuries, four-year cycles and years, and its days. */
  lemma YearOfEraDivisions(c: int, u: int, v: int, d: int)
    requires 0 <= c < 4 && 0 <= u < 25 && 0 <= v < 4
    ensures var yoe := 100 * c + 4 * u + v;
      && yoe / 4 == 25 * c + u && yoe / 100 == c
      && 365 * yoe + yoe / 4 - yoe / 100 + d == 36524 * c + 1461 * u + 365 * v + d
  {
    var yoe := 100 * c + 4 * u + v;
    assert yoe / 4 == 25 * c + u && yoe / 100 == c;
  }

  /** A year of the era splits into centuries, four-year cycles and years. */
  lemma YearDigits(yoe: int) returns (c: int, u: int, v: int)
    requires 0 <= yoe < 400
    ensures 0 <= c < 4 && 0 <= u < 25 && 0 <= v < 4 && yoe == 100 * c + 4 * u + v
  {
    c, u, v := yoe / 100, (yoe % 100) / 4, (yoe % 100) % 4;
  }

  /** The split of a day of the era into centuries, cycles, years and days is unique. */
  lemma MixedRadixUnique(doe: int, c: int, u: int, v: int, d: int, c': int, u': int, v': int, d': int)
    requires 0 <= c < 4 && 0 <= u < 25 && 0 <= v < 4 && 0 <= d < 365
    requires 0 <= c' < 4 && 0 <= u' < 25 && 0 <= v' < 4 && 0 <= d' <= 365
    requires d' == 365 ==> v' == 3
    requires 1461 * u' + 365 * v' + d' <= 36524 && (1461 * u' + 365 * v' + d' == 36524 ==> c' == 3)
    requires doe == 36524 * c + 1461 * u + 365 * v + d
    requires doe == 36524 * c' + 1461 * u' + 365 * v' + d'
    ensures c == c' && u == u' && v == v' && d == d'
  {
  }

  /** YearOfEra of a day given by its centuries, cycles, years and days (before the last day of a year). */
  lemma YearOfEraAt(doe: int, c: int, u: int, v: int, doy: int)
    requires 0 <= c < 4 && 0 <= u < 25 && 0 <= v < 4 && 0 <= doy < 365
    requires doe == 36524 * c + 1461 * u + 365 * v + doy
    ensures 0 <= doe < DaysPerEra && YearOfEra(doe) == (100 * c + 4 * u + v, doy)
  {
    var c', u', v', r2' := YearOfEraParts(doe);
    MixedRadixUnique(doe, c, u, v, doy, c', u', v', r2' - 365 * v');
  }

  /** The Gregorian date of a day number (date-fns `getYear`, `getMonth` + 1, `getDate`). */
  function CivilFromDays(z: int): Civil
  {
    var zz := z + EpochShift;
    CivilOfEraDay(zz / DaysPerEra, zz % DaysPerEra)
  }

  /** The date on day `doe` of era `era`. */
  function CivilOfEraDay(era: int, doe: int): Civil
    requires 0 <= doe < DaysPerEra
  {
    var yd := YearOfEra(doe);
    CivilOfYearDay(era * 400 + yd.0, yd.1)
  }

  /** The date on day `doy` of the March-based year `yy` (which ends in February of `yy + 1`). */
  function CivilOfYearDay(yy: int, doy: int): Civil
  {
    var mp := (5 * doy + 2) / 153;
    var m := if mp < 10 then mp + 3 else mp - 9;
    Civil(yy + (if m <= 2 then 1 else 0), m, doy - MonthStart(mp) + 1)
  }

  /** The day number of a Gregorian date with 1 <= month <= 12. */
  function DaysFromCivil(y: int, m: int, d: int): int
  {
    var yy := if m <= 2 then y - 1 else y;
    var era := yy / 400;
    var yoe := yy % 400;
    var mp := if m > 2 then m - 3 else m + 9;
    era * DaysPerEra + 365 * yoe + yoe / 4 - yoe / 100 + MonthStart(mp) + d - 1 - EpochShift
  }

  /** A date computed from a day number has a month in 1 .. 12 and a day from 1 on. */
  lemma CivilFromDaysRange(z: int)
    ensures 1 <= CivilFromDays(z).month <= 12 && CivilFromDays(z).day >= 1
  {
    var doe := (z + EpochShift) % DaysPerEra;
    YearOfEraSpec(doe);
    var doy := YearOfEra(doe).1;
    MonthStartBelow(doy);
    assert 0 <= (5 * doy + 2) / 153 < 12;
  }

  /** The first day of each month after March ends the previous one: a month never starts later than its days. */
  lemma MonthStartBelow(doy: int)
    requires 0 <= doy <= 365
    ensures MonthStart((5 * doy + 2) / 153) <= doy
  {
    var mp := (5 * doy + 2) / 153;
    assert 153 * mp <= 5 * doy + 2;
  }

  /** YearOfEra recovers the year and the day of any day before the last of a year. */
  lemma YearOfEraInverse(yoe: int, doy: int)
    requires 0 <= yoe < 400 && 0 <= doy < 365
    ensures 0 <= 365 * yoe + yoe / 4 - yoe / 100 + doy < DaysPerEra
    ensures YearOfEra(365 * yoe + yoe / 4 - yoe / 100 + doy) == (yoe, doy)
  {
    var c, u, v := YearDigits(yoe);
    YearOfEraDivisions(c, u, v, doy);
    YearOfEraAt(365 * yoe + yoe / 4 - yoe / 100 + doy, c, u, v, doy);
  }

  /** The March-based month index and the calendar month number determine each other. */
  lemma MonthNumberRoundTrip(mp: int)
    requires 0 <= mp < 12
    ensures var m := if mp < 10 then mp + 3 else mp - 9;
      1 <= m <= 12 && (if m > 2 then m - 3 else m + 9) == mp && (m <= 2 <==> mp >= 10)
  {
  }

  /** The date on a day of a March-based year names that year and that day again. */
  lemma YearDayRoundTrip(yy: int, doy: int)
    requires 0 <= doy <= 365
    ensures var c := CivilOfYearDay(yy, doy);
      && (if c.month <= 2 then c.year - 1 else c.year) == yy
      && MonthStart(if c.month > 2 then c.month - 3 else c.month + 9) + c.day - 1 == doy
  {
    var mp := (5 * doy + 2) / 153;
    assert 0 <= mp < 12;
    MonthNumberRoundTrip(mp);
  }

  /** The day number of the date on day `doy` of the March-based year `yy`. */
  lemma DaysFromCivilOfYearDay(yy: int, doy: int)
    requires 0 <= doy <= 365
    ensures var c := CivilOfYearDay(yy, doy); var yoe := yy % 400;
      DaysFromCivil(c.year, c.month, c.day)
        == (yy / 400) * DaysPerEra + 365 * yoe + yoe / 4 - yoe / 100 + doy - EpochShift
  {
    YearDayRoundTrip(yy, doy);
  }

  /** The arithmetic of the way back: the era and the day of the era give the day number again. */
  lemma EraArithmetic(z: int, yoe: int, doy: int)
    requires 0 <= yoe < 400
    requires (z + EpochShift) % DaysPerEra == 365 * yoe + yoe / 4 - yoe / 100 + doy
    ensures var yy := ((z + EpochShift) / DaysPerEra) * 400 + yoe; var y4 := yy % 400;
      (yy / 400) * DaysPerEra + 365 * y4 + y4 / 4 - y4 / 100 + doy - EpochShift == z
  {
    var era := (z + EpochShift) / DaysPerEra;
    var yy := era * 400 + yoe;
    assert yy / 400 == era && yy % 400 == yoe;
  }

  /** From a day number to its date and back. */
  lemma {:induction false} DaysCivilDays(z: int)
    ensures var c := CivilFromDays(z); DaysFromCivil(c.year, c.month, c.day) == z
  {
    var zz := z + EpochShift;
    var yd := YearOfEra(zz % DaysPerEra);
    YearOfEraSpec(zz % DaysPerEra);
    var yy := (zz / DaysPerEra) * 400 + yd.0;
    assert CivilFromDays(z) == CivilOfYearDay(yy, yd.1);
    DaysFromCivilOfYearDay(yy, yd.1);
    EraArithmetic(z, yd.0, yd.1);
  }

  /** The first day of March-based month `mp` of year `yy` is the first of calendar month `m`. */
  lemma CivilOfMonthStart(yy: int, mp: int)
    requires 0 <= mp < 12
    ensures 0 <= MonthStart(mp) <= 337
    ensures CivilOfYearDay(yy, MonthStart(mp))
         == Civil(yy + (if mp >= 10 then 1 else 0), if mp < 10 then mp + 3 else mp - 9, 1)
  {
    assert mp == 0 || mp == 1 || mp == 2 || mp == 3 || mp == 4 || mp == 5
        || mp == 6 || mp == 7 || mp == 8 || mp == 9 || mp == 10 || mp == 11;
  }

  /** The day of the era and the era of the first of a month. */
  lemma FirstOfMonthInEra(y: int, m: int)
    requires 1 <= m <= 12
    ensures var yy := if m <= 2 then y - 1 else y;
      var mp := if m > 2 then m - 3 else m + 9;
      var yoe := yy % 400;
      DaysFromCivil(y, m, 1) + EpochShift
        == (yy / 400) * DaysPerEra + (365 * yoe + yoe / 4 - yoe / 100 + MonthStart(mp))
  {
  }

  /** A day number whose shifted value splits into `era` and `doe` has the date of that day of that era. */
  lemma CivilFromEraDay(z: int, era: int, doe: int)
    requires 0 <= doe < DaysPerEra && z + EpochShift == era * DaysPerEra + doe
    ensures CivilFromDays(z) == CivilOfEraDay(era, doe)
  {
    assert (z + EpochShift) / DaysPerEra == era && (z + EpochShift) % DaysPerEra == doe;
  }

  /** Day `doy` of the March-based year `yy` is that day of the year `yy % 400` of era `yy / 400`. */
  lemma CivilOfEraDayOfYear(yy: int, era: int, yoe: int, doe: int, doy: int)
    requires era == yy / 400 && yoe == yy % 400 && 0 <= doy < 365
    requires doe == 365 * yoe + yoe / 4 - yoe / 100 + doy
    ensures 0 <= doe < DaysPerEra && CivilOfEraDay(era, doe) == CivilOfYearDay(yy, doy)
  {
    YearOfEraInverse(yoe, doy);
    CivilOfEraDayIs(era, doe, yoe, doy);
    assert era * 400 + yoe == yy;
  }

  /** The date on a day of an era whose year and day of year are known. */
  lemma CivilOfEraDayIs(era: int, doe: int, yoe: int, doy: int)
    requires 0 <= doe < DaysPerEra && YearOfEra(doe) == (yoe, doy)
    ensures CivilOfEraDay(era, doe) == CivilOfYearDay(era * 400 + yoe, doy)
  {
  }

  /** From the first of a month to its day number and back. */
  lemma {:induction false} CivilDaysCivil(y: int, m: int)
    requires 1 <= m <= 12
    ensures CivilFromDays(DaysFromCivil(y, m, 1)) == Civil(y, m, 1)
  {
    var yy := if m <= 2 then y - 1 else y;
    var era := yy / 400;
    var yoe := yy % 400;
    var mp := if m > 2 then m - 3 else m + 9;
    var doy := MonthStart(mp);
    var doe := 365 * yoe + yoe / 4 - yoe / 100 + doy;
    var z := DaysFromCivil(y, m, 1);
    assert 0 <= doy <= 337 && CivilOfYearDay(yy, doy) == Civil(y, m, 1) by {
      assert mp < 10 ==> m == mp + 3;
      assert mp >= 10 ==> m == mp - 9;
      CivilOfMonthStart(yy, mp);
    }
    assert 0 <= doe < DaysPerEra && CivilOfEraDay(era, doe) == CivilOfYearDay(yy, doy) by {
      CivilOfEraDayOfYear(yy, era, yoe, doe, doy);
    }
    assert z + EpochShift == era * DaysPerEra + doe by {
      FirstOfMonthInEra(y, m);
    }
    CivilFromEraDay(z, era, doe);
  }

  /** The Gregorian year and month of an instant, as one comparable key. */
  function YearMonth(t: Instant): (int, int)
  {
    var c := CivilFromDays(DayNumber(t));
    (c.year, c.month)
  }

  /** date-fns `startOfMonth`: midnight of the first day of the month `t` falls in. */
  function StartOfMonth(t: Instant): Instant
  {
    var c := CivilFromDays(DayNumber(t));
    DaysFromCivil(c.year, c.month, 1) * MsPerDay
  }

  /**
   * `startOfMonth(t)` is midnight on the first of `t`'s own month, no later
   * than `t`.
   */
  lemma {:induction false} StartOfMonthSpec(t: Instant)
    ensures YearMonth(StartOfMonth(t)) == YearMonth(t)
    ensures CivilFromDays(DayNumber(StartOfMonth(t))).day == 1
    ensures TimeOfDay(StartOfMonth(t)) == 0
    ensures StartOfMonth(t) <= t
  {
    var z := DayNumber(t);
    var c := CivilFromDays(z);
    var s := DaysFromCivil(c.year, c.month, 1);
    assert DayNumber(s * MsPerDay) == s;
    CivilFromDaysRange(z);
    CivilDaysCivil(c.year, c.month);
    DaysCivilDays(z);
    assert s == z - (c.day - 1);
    assert s * MsPerDay <= z * MsPerDay <= t;
  }

  /** Normalising a month twice is normalising it once. */
  lemma StartOfMonthIdempotent(t: Instant)
    ensures StartOfMonth(StartOfMonth(t)) == StartOfMonth(t)
  {
    StartOfMonthSpec(t);
  }

  /** 1970-01-01 is day 0. */
  lemma EpochSample()
    ensures CivilFromDays(0) == Civil(1970, 1, 1)
  {
    assert (0 + EpochShift) / DaysPerEra == 4 && (0 + EpochShift) % DaysPerEra == 135080;
    assert YearOfEra(135080) == (369, 306);
    assert CivilOfYearDay(1969, 306) == Civil(1970, 1, 1);
  }

  /** 2024-03-31 is day 19813. */
  lemma MarchSample()
    ensures CivilFromDays(19813) == Civil(2024, 3, 31)
  {
    assert (19813 + EpochShift) / DaysPerEra == 5 && (19813 + EpochShift) % DaysPerEra == 8796;
    assert YearOfEra(8796) == (24, 30);
    assert CivilOfYearDay(2024, 30) == Civil(2024, 3, 31);
  }

  /** The leap day of 2024 is day 19782. */
  lemma LeapDaySample()
    ensures CivilFromDays(19782) == Civil(2024, 2, 29)
  {
    assert (19782 + EpochShift) / DaysPerEra == 5 && (19782 + EpochShift) % DaysPerEra == 8765;
    assert YearOfEra(8765) == (23, 365);
    assert (5 * 365 + 2) / 153 == 11;
    assert CivilOfYearDay(2023, 365) == Civil(2024, 2, 29);
  }
}
