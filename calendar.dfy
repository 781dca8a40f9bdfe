/**
 * Days since 1970-01-01 to a proleptic Gregorian (year, month, day), by the
 * era arithmetic of the timestamp writer: days are counted from 0000-03-01 in
 * eras of 400 years (146097 days), and each era in years that start on
 * March 1, so that the leap day is the last day of its year.
 */
module Calendar {
  import opened Ascii

  datatype Date = Date(year: int, month: int, day: int)

  predicate IsLeapYear(y: int) {
    y % 4 == 0 && (y % 100 != 0 || y % 400 == 0)
  }

  function DaysInMonth(y: int, m: int): int
    requires 1 <= m <= 12
  {
    if m == 2 then (if IsLeapYear(y) then 29 else 28)
    else if m == 4 || m == 6 || m == 9 || m == 11 then 30
    else 31
  }

  predicate ValidDate(d: Date) {
    1 <= d.month <= 12 && 1 <= d.day <= DaysInMonth(d.year, d.month)
  }

  /** The calendar day after d. */
  function NextDate(d: Date): Date
    requires ValidDate(d)
  {
    if d.day < DaysInMonth(d.year, d.month) then Date(d.year, d.month, d.day + 1)
    else if d.month < 12 then Date(d.year, d.month + 1, 1)
    else Date(d.year + 1, 1, 1)
  }

  /** Days from 0000-03-01 to 1970-01-01, and days in an era of 400 years. */
  const EPOCH_SHIFT: nat := 719_468
  const DAYS_PER_ERA: nat := 146_097

  // ---------------------------------------------------------------------------
  // The conversion, step by step as the writer computes it
  // ---------------------------------------------------------------------------

  /** The year of the era (from March 1) that day `doe` of the era falls in. */
  function YearOfEra(doe: int): int {
    (doe - doe / 1_460 + doe / 36_524 - doe / 146_096) / 365
  }

  /** Day of the era on which year `yoe` of the era starts. */
  function YearStart(yoe: int): int {
    365 * yoe + yoe / 4 - yoe / 100
  }

  /** Month index counted from March (0) to February (11) of day `doy` of the year. */
  function MonthIndex(doy: int): int {
    (5 * doy + 2) / 153
  }

  /** Day of the year on which month index mp starts. */
  function MonthStart(mp: int): int {
    (153 * mp + 2) / 5
  }

  /** Calendar month of a month index: March..December are 3..12, January and February 1 and 2. */
  function CivilMonth(mp: int): int {
    if mp < 10 then mp + 3 else mp - 9
  }

  /** The year of the March-based count, the month and the day, before January and February are moved. */
  datatype MarchDate = MarchDate(year: int, month: int, day: int)

  /** The shared arithmetic of both conversions, as the writer computes it. */
  function CivilCore(days: nat): MarchDate {
    var z := days + 719_468;
    var era := z / 146_097;
    var doe := z - era * 146_097;
    var yoe := YearOfEra(doe);
    var doy := doe - YearStart(yoe);
    var mp := MonthIndex(doy);
    MarchDate(yoe + era * 400, CivilMonth(mp), doy - MonthStart(mp) + 1)
  }

  /** The writer's conversion as written: January and February are moved back a year. */
  function CivilFromDaysAsWritten(days: nat): Date {
    var c := CivilCore(days);
    Date(c.year + (if c.month <= 2 then -1 else 0), c.month, c.day)
  }

  /** The conversion as the algorithm intends it: January and February belong to the next year. */
  function CivilFromDays(days: nat): Date {
    var c := CivilCore(days);
    Date(c.year + (if c.month <= 2 then 1 else 0), c.month, c.day)
  }

  // ---------------------------------------------------------------------------
  // Years within an era
  // ---------------------------------------------------------------------------

  /** Length of year yoe of an era: 366 when its February (in the next calendar year) has a leap day. */
  function YearLength(yoe: int): int {
    if (yoe + 1) % 4 == 0 && ((yoe + 1) % 100 != 0 || yoe == 399) then 366 else 365
  }

  /** An era day below the last splits into centuries, four-year blocks, years and a day. */
  lemma EraSplit(doe: int) returns (c: int, q: int, r: int, s: int)
    requires 0 <= doe < DAYS_PER_ERA - 1
    ensures 0 <= c <= 3 && 0 <= q <= 24 && 0 <= r <= 3 && 0 <= s
    ensures s <= 364 || (r == 3 && s == 365 && q < 24)
    ensures doe == 36_524 * c + 1_461 * q + 365 * r + s
  {
    c := doe / 36_524;
    var e := doe % 36_524;
    q := e / 1_461;
    var g := e % 1_461;
    r := if g / 365 > 3 then 3 else g / 365;
    s := g - 365 * r;
  }

  lemma StartOfSplit(c: int, q: int, r: int)
    requires 0 <= c <= 3 && 0 <= q <= 24 && 0 <= r <= 3
    ensures YearStart(100 * c + 4 * q + r) == 36_524 * c + 1_461 * q + 365 * r
  {
    var y := 100 * c + 4 * q + r;
    assert y / 4 == 25 * c + q && y / 100 == c;
  }

  lemma YearOfSplit(doe: int, c: int, q: int, r: int, s: int)
    requires 0 <= c <= 3 && 0 <= q <= 24 && 0 <= r <= 3 && 0 <= s
    requires s <= 364 || (r == 3 && s == 365 && q < 24)
    requires doe == 36_524 * c + 1_461 * q + 365 * r + s
    ensures YearOfEra(doe) == 100 * c + 4 * q + r
  {
    var delta := (24 * c + q + 365 * r + s) / 1_460;
    assert doe / 1_460 == 25 * c + q + delta;
    assert doe / 36_524 == c && doe / 146_096 == 0;
    assert doe - doe / 1_460 + doe / 36_524 - doe / 146_096 == 365 * (100 * c + 4 * q + r) + (s - delta);
  }

  /** Every day of an era falls inside the year YearOfEra names. */
  lemma YearOfEraBounds(doe: int)
    requires 0 <= doe < DAYS_PER_ERA
    ensures 0 <= YearOfEra(doe) < 400
    ensures YearStart(YearOfEra(doe)) <= doe < YearStart(YearOfEra(doe)) + YearLength(YearOfEra(doe))
  {
    if doe == DAYS_PER_ERA - 1 {
      assert YearOfEra(doe) == 399;
    } else {
      var c, q, r, s := EraSplit(doe);
      StartOfSplit(c, q, r);
      YearOfSplit(doe, c, q, r, s);
    }
  }

  /** Consecutive years of an era are adjacent, and the last one ends the era. */
  lemma YearStartStep(yoe: int)
    requires 0 <= yoe < 400
    ensures YearStart(yoe + 1) == YearStart(yoe) + YearLength(yoe) || yoe == 399
    ensures yoe == 399 ==> YearStart(yoe) + YearLength(yoe) == DAYS_PER_ERA
  {
    if yoe == 399 {
      assert YearStart(399) == 145_731;
    } else {
      DivSucc(yoe, 4);
      DivSucc(yoe, 100);
      if (yoe + 1) % 100 == 0 {
        DivModUnique(yoe + 1, 4, 25 * ((yoe + 1) / 100), 0);
      }
    }
  }

  /** One step up crosses a multiple of d exactly when the next value is one. */
  lemma DivSucc(x: int, d: int)
    requires x >= 0 && d > 0
    ensures (x + 1) / d == x / d + (if (x + 1) % d == 0 then 1 else 0)
  {
    var q, r := x / d, x % d;
    assert x == d * q + r;
    if r == d - 1 {
      DivModUnique(x + 1, d, q + 1, 0);
    } else {
      DivModUnique(x + 1, d, q, r + 1);
    }
  }

  lemma YearStartMonotone(a: int, b: int)
    requires 0 <= a < b <= 400
    ensures YearStart(a) < YearStart(b)
  {
  }

  /** Only one year of the era contains a given day. */
  lemma YearOfEraUnique(doe: int, yoe: int)
    requires 0 <= doe < DAYS_PER_ERA && 0 <= yoe < 400
    requires YearStart(yoe) <= doe < YearStart(yoe) + YearLength(yoe)
    ensures YearOfEra(doe) == yoe
  {
    var other := YearOfEra(doe);
    YearOfEraBounds(doe);
    if other < yoe {
      YearStartStep(other);
      if other + 1 < yoe {
        YearStartMonotone(other + 1, yoe);
      }
    } else if other > yoe {
      YearStartStep(yoe);
      if yoe + 1 < other {
        YearStartMonotone(yoe + 1, other);
      }
    }
  }

  /** 400 * era + k leaves the remainders of k modulo 4, 100 and 400. */
  lemma EraRemainders(era: int, k: int)
    requires 0 <= k < 400
    ensures (400 * era + k) % 4 == k % 4
    ensures (400 * era + k) % 100 == k % 100
    ensures (400 * era + k) % 400 == k
  {
    DivModUnique(400 * era + k, 4, 100 * era + k / 4, k % 4);
    DivModUnique(400 * era + k, 100, 4 * era + k / 100, k % 100);
    DivModUnique(400 * era + k, 400, era, k);
  }

  /** A year of an era is 366 days long exactly when the February it ends with is a leap February. */
  lemma YearLengthIsLeap(base: int, yoe: int)
    requires base % 400 == 0 && 0 <= yoe < 400
    ensures YearLength(yoe) == (if IsLeapYear(base + yoe + 1) then 366 else 365)
  {
    var era := base / 400;
    assert base == 400 * era;
    if yoe < 399 {
      EraRemainders(era, yoe + 1);
    } else {
      EraRemainders(era + 1, 0);
      assert base + yoe + 1 == 400 * (era + 1) + 0;
    }
  }

  // ---------------------------------------------------------------------------
  // Months within a year
  // ---------------------------------------------------------------------------

  /** The month index of a day of the year, and the month containing it. */
  lemma MonthIndexBounds(doy: int)
    requires 0 <= doy <= 365
    ensures 0 <= MonthIndex(doy) <= 11
    ensures MonthStart(MonthIndex(doy)) <= doy < MonthStart(MonthIndex(doy) + 1)
  {
  }

  lemma MonthIndexUnique(doy: int, mp: int)
    requires 0 <= doy <= 365 && 0 <= mp <= 11
    requires MonthStart(mp) <= doy < MonthStart(mp + 1)
    ensures MonthIndex(doy) == mp
  {
  }

  /** Months from March to January have their calendar lengths, whatever the year. */
  lemma MonthLength(mp: int, y: int)
    requires 0 <= mp < 11
    ensures MonthStart(mp + 1) - MonthStart(mp) == DaysInMonth(y, CivilMonth(mp))
  {
  }

  /** The date of day doy of the March-based year y. */
  function FromYearDay(y: int, doy: int): Date {
    var mp := MonthIndex(doy);
    var m := CivilMonth(mp);
    Date(y + (if m <= 2 then 1 else 0), m, doy - MonthStart(mp) + 1)
  }

  /** Every day of a March-based year is a valid date. */
  lemma FromYearDayValid(y: int, doy: int)
    requires 0 <= doy < (if IsLeapYear(y + 1) then 366 else 365)
    ensures ValidDate(FromYearDay(y, doy))
  {
    var mp := MonthIndex(doy);
    MonthIndexBounds(doy);
    if mp < 11 {
      MonthLength(mp, FromYearDay(y, doy).year);
    }
  }

  /** Within a March-based year the next day is the next date. */
  lemma FromYearDayNext(y: int, doy: int)
    requires 0 <= doy && doy + 1 < (if IsLeapYear(y + 1) then 366 else 365)
    ensures ValidDate(FromYearDay(y, doy))
    ensures FromYearDay(y, doy + 1) == NextDate(FromYearDay(y, doy))
  {
    FromYearDayValid(y, doy);
    var mp := MonthIndex(doy);
    MonthIndexBounds(doy);
    var d := FromYearDay(y, doy);
    if doy + 1 < MonthStart(mp + 1) {
      MonthIndexUnique(doy + 1, mp);
      if mp < 11 {
        MonthLength(mp, d.year);
      }
    } else {
      assert mp < 11;
      MonthIndexUnique(doy + 1, mp + 1);
      MonthLength(mp, d.year);
    }
  }

  /** Day 0 of a March-based year is March 1. */
  lemma YearDayFirst(y: int)
    ensures FromYearDay(y, 0) == Date(y, 3, 1)
  {
  }

  /** The last day of a March-based year is the last day of February of the next calendar year. */
  lemma YearDayLast(y: int, len: int)
    requires len == (if IsLeapYear(y + 1) then 366 else 365)
    ensures FromYearDay(y, len - 1) == Date(y + 1, 2, DaysInMonth(y + 1, 2))
  {
    assert MonthIndex(len - 1) == 11;
  }

  // ---------------------------------------------------------------------------
  // Days within an era
  // ---------------------------------------------------------------------------

  /** The date of day doe of an era, which falls in year yoe of the era, March-based year y. */
  function EraYearDay(y: int, yoe: int, doe: int): Date {
    FromYearDay(y, doe - YearStart(yoe))
  }

  /** The date of day doe of the era whose first March-based year is base. */
  function FromEraDay(base: int, doe: int): Date {
    var yoe := YearOfEra(doe);
    EraYearDay(base + yoe, yoe, doe)
  }

  /** Every day of a year of an era is a valid date. */
  lemma EraYearDayValid(base: int, y: int, yoe: int, doe: int)
    requires base % 400 == 0 && y == base + yoe
    requires 0 <= yoe < 400 && YearStart(yoe) <= doe < YearStart(yoe) + YearLength(yoe)
    ensures ValidDate(EraYearDay(y, yoe, doe))
  {
    YearLengthIsLeap(base, yoe);
    FromYearDayValid(y, doe - YearStart(yoe));
  }

  lemma FromEraDayValid(base: int, doe: int)
    requires base % 400 == 0 && 0 <= doe < DAYS_PER_ERA
    ensures ValidDate(FromEraDay(base, doe))
  {
    var yoe := YearOfEra(doe);
    YearOfEraBounds(doe);
    EraYearDayValid(base, base + yoe, yoe, doe);
  }

  /** Within a year of an era the next day is the next date. */
  lemma EraYearDayNext(base: int, y: int, yoe: int, doe: int)
    requires base % 400 == 0 && y == base + yoe
    requires 0 <= yoe < 400 && YearStart(yoe) <= doe && doe + 1 < YearStart(yoe) + YearLength(yoe)
    ensures ValidDate(EraYearDay(y, yoe, doe))
    ensures EraYearDay(y, yoe, doe + 1) == NextDate(EraYearDay(y, yoe, doe))
  {
    var doy := doe - YearStart(yoe);
    NotLastOfYear(base, y, yoe, doe, doy);
    FromYearDayNext(y, doy);
    EraYearDayIsYearDay(y, yoe, doe, doy);
    EraYearDayIsYearDay(y, yoe, doe + 1, doy + 1);
    NextOfEqual(EraYearDay(y, yoe, doe), EraYearDay(y, yoe, doe + 1), FromYearDay(y, doy), FromYearDay(y, doy + 1));
  }

  /** Succession carries over to equal dates. */
  lemma NextOfEqual(today: Date, tomorrow: Date, today': Date, tomorrow': Date)
    requires today == today' && tomorrow == tomorrow'
    requires ValidDate(today') && tomorrow' == NextDate(today')
    ensures ValidDate(today) && tomorrow == NextDate(today)
  {
  }

  /** A day of an era before its year's last is, within the year, before the calendar year's last. */
  lemma NotLastOfYear(base: int, y: int, yoe: int, doe: int, doy: int)
    requires base % 400 == 0 && y == base + yoe
    requires 0 <= yoe < 400 && doy == doe - YearStart(yoe)
    requires 0 <= doy && doe + 1 < YearStart(yoe) + YearLength(yoe)
    ensures doy + 1 < (if IsLeapYear(y + 1) then 366 else 365)
  {
    YearLengthIsLeap(base, yoe);
  }

  /** Day doe of an era falls on day doe - YearStart(yoe) of its year. */
  lemma EraYearDayIsYearDay(y: int, yoe: int, doe: int, doy: int)
    requires doy == doe - YearStart(yoe)
    ensures EraYearDay(y, yoe, doe) == FromYearDay(y, doy)
  {
  }

  lemma FromEraDayNextInYear(base: int, doe: int, yoe: int)
    requires base % 400 == 0
    requires 0 <= doe < DAYS_PER_ERA - 1 && 0 <= yoe < 400 && YearOfEra(doe) == yoe
    requires YearStart(yoe) <= doe && doe + 1 < YearStart(yoe) + YearLength(yoe)
    ensures ValidDate(FromEraDay(base, doe))
    ensures FromEraDay(base, doe + 1) == NextDate(FromEraDay(base, doe))
  {
    YearOfEraUnique(doe + 1, yoe);
    EraYearDayNext(base, base + yoe, yoe, doe);
    FromEraDayIs(base, doe, yoe);
    FromEraDayIs(base, doe + 1, yoe);
    NextOfEqual(FromEraDay(base, doe), FromEraDay(base, doe + 1),
      EraYearDay(base + yoe, yoe, doe), EraYearDay(base + yoe, yoe, doe + 1));
  }

  /** Day doe of an era is a day of the era's year yoe when doe falls in that year. */
  lemma FromEraDayIs(base: int, doe: int, yoe: int)
    requires YearOfEra(doe) == yoe
    ensures FromEraDay(base, doe) == EraYearDay(base + yoe, yoe, doe)
  {
  }

  /** The first day of a year of an era is March 1 of that year. */
  lemma EraYearFirst(y: int, yoe: int, doe: int)
    requires doe == YearStart(yoe)
    ensures EraYearDay(y, yoe, doe) == Date(y, 3, 1)
  {
  }

  /** The last day of a year of an era is the end of February of the next calendar year. */
  lemma EraYearLast(base: int, y: int, yoe: int, doe: int)
    requires base % 400 == 0 && y == base + yoe
    requires 0 <= yoe < 400 && doe + 1 == YearStart(yoe) + YearLength(yoe)
    ensures EraYearDay(y, yoe, doe) == Date(y + 1, 2, DaysInMonth(y + 1, 2))
  {
    YearLengthIsLeap(base, yoe);
    YearDayLast(y, YearLength(yoe));
  }

  /** After the last day of a year of an era (not the era's last) comes the first day of the next year. */
  lemma NextYearStarts(doe: int, yoe: int)
    requires 0 <= doe < DAYS_PER_ERA - 1 && 0 <= yoe < 400
    requires doe + 1 == YearStart(yoe) + YearLength(yoe)
    ensures yoe < 399 && YearStart(yoe + 1) == doe + 1 && YearOfEra(doe + 1) == yoe + 1
  {
    YearStartStep(yoe);
    YearOfEraUnique(doe + 1, yoe + 1);
  }

  /** The last day of a year of an era is followed by the first day of the next. */
  lemma FromEraDayNextYear(base: int, doe: int, yoe: int)
    requires base % 400 == 0
    requires 0 <= doe < DAYS_PER_ERA - 1 && 0 <= yoe < 400 && YearOfEra(doe) == yoe
    requires doe + 1 == YearStart(yoe) + YearLength(yoe)
    ensures ValidDate(FromEraDay(base, doe))
    ensures FromEraDay(base, doe + 1) == NextDate(FromEraDay(base, doe))
  {
    NextYearStarts(doe, yoe);
    var y := base + yoe + 1;
    EraYearLast(base, base + yoe, yoe, doe);
    var last := Date(y, 2, DaysInMonth(y, 2));
    assert FromEraDay(base, doe) == last;
    EraYearFirst(y, yoe + 1, doe + 1);
    assert FromEraDay(base, doe + 1) == EraYearDay(y, yoe + 1, doe + 1) == Date(y, 3, 1);
    assert NextDate(last) == Date(y, 3, 1);
  }

  /** Within an era the next day is the next date. */
  lemma FromEraDayNext(base: int, doe: int)
    requires base % 400 == 0 && 0 <= doe < DAYS_PER_ERA - 1
    ensures ValidDate(FromEraDay(base, doe))
    ensures FromEraDay(base, doe + 1) == NextDate(FromEraDay(base, doe))
  {
    var yoe := YearOfEra(doe);
    YearOfEraBounds(doe);
    if doe + 1 < YearStart(yoe) + YearLength(yoe) {
      FromEraDayNextInYear(base, doe, yoe);
    } else {
      FromEraDayNextYear(base, doe, yoe);
    }
  }

  /** The last day of an era (February 29 of a year divisible by 400) is followed by the next era's first. */
  lemma FromEraDayLast(base: int)
    requires base % 400 == 0
    ensures ValidDate(FromEraDay(base, DAYS_PER_ERA - 1))
    ensures FromEraDay(base + 400, 0) == NextDate(FromEraDay(base, DAYS_PER_ERA - 1))
  {
    LastDayOfEra(base);
    FirstDayOfEra(base + 400);
    AfterFebruary(base + 400);
  }

  /** The last day of an era is February 29 of the year that ends it. */
  lemma LastDayOfEra(base: int)
    requires base % 400 == 0
    ensures FromEraDay(base, DAYS_PER_ERA - 1) == Date(base + 400, 2, DaysInMonth(base + 400, 2))
  {
    assert YearOfEra(DAYS_PER_ERA - 1) == 399;
    YearStartStep(399);
    EraYearLast(base, base + 399, 399, DAYS_PER_ERA - 1);
  }

  /** The first day of an era is March 1 of its first year. */
  lemma FirstDayOfEra(y: int)
    ensures FromEraDay(y, 0) == Date(y, 3, 1)
  {
    assert YearOfEra(0) == 0;
    EraYearFirst(y, 0, 0);
  }

  /** The last day of February is a valid date, followed by March 1. */
  lemma AfterFebruary(y: int)
    ensures ValidDate(Date(y, 2, DaysInMonth(y, 2)))
    ensures NextDate(Date(y, 2, DaysInMonth(y, 2))) == Date(y, 3, 1)
  {
  }


  // ---------------------------------------------------------------------------
  // The conversion
  // ---------------------------------------------------------------------------

  /** Both conversions share the era split of their argument: era, and day of the era. */
  lemma CivilCoreIsEraDay(days: nat, era: int, doe: int)
    requires days + EPOCH_SHIFT == era * 146_097 + doe && 0 <= doe < DAYS_PER_ERA
    ensures CivilFromDays(days) == FromEraDay(era * 400, doe)
  {
    DivModUnique(days + EPOCH_SHIFT, DAYS_PER_ERA, era, doe);
    var yoe := YearOfEra(doe);
    var doy := doe - YearStart(yoe);
    var mp := MonthIndex(doy);
    var y := era * 400 + yoe;
    assert CivilCore(days) == MarchDate(y, CivilMonth(mp), doy - MonthStart(mp) + 1);
    assert FromEraDay(era * 400, doe) == EraYearDay(y, yoe, doe);
    assert EraYearDay(y, yoe, doe) == FromYearDay(y, doy);
  }

  /** The era split of a day number: days + 719468 = 146097 * era + doe. */
  lemma EraSplitOf(days: nat) returns (era: int, doe: int)
    ensures days + EPOCH_SHIFT == era * 146_097 + doe && 0 <= doe < DAYS_PER_ERA
    ensures (era * 400) % 400 == 0
  {
    era := (days + 719_468) / 146_097;
    doe := (days + 719_468) % 146_097;
    DivModUnique(era * 400, 400, era, 0);
  }

  /** The conversion only produces valid dates: month 1..12, day within its month. */
  lemma CivilFromDaysValid(days: nat)
    ensures ValidDate(CivilFromDays(days))
  {
    var era, doe := EraSplitOf(days);
    CivilCoreIsEraDay(days, era, doe);
    FromEraDayValid(era * 400, doe);
  }

  /** Day 0 is 1970-01-01. */
  lemma CivilFromDaysEpoch()
    ensures CivilFromDays(0) == Date(1970, 1, 1)
  {
    assert YearOfEra(135_080) == 369;
  }

  /** Day n + 1 is the calendar day after day n. */
  lemma CivilFromDaysNext(days: nat)
    ensures ValidDate(CivilFromDays(days))
    ensures CivilFromDays(days + 1) == NextDate(CivilFromDays(days))
  {
    var era, doe := EraSplitOf(days);
    if doe < DAYS_PER_ERA - 1 {
      NextInEra(days, era, doe);
    } else {
      NextAcrossEras(days, era);
    }
  }

  /** Once both days are known as dates, and the second follows the first, the conversion steps by one date. */
  lemma SuccessorOfDays(days: nat, today: Date, tomorrow: Date)
    requires CivilFromDays(days) == today && CivilFromDays(days + 1) == tomorrow
    requires ValidDate(today) && tomorrow == NextDate(today)
    ensures ValidDate(CivilFromDays(days))
    ensures CivilFromDays(days + 1) == NextDate(CivilFromDays(days))
  {
  }

  /** Two consecutive days inside one era are two consecutive days of that era. */
  lemma ConsecutiveInEra(days: nat, era: int, doe: int)
    requires days + EPOCH_SHIFT == era * 146_097 + doe && 0 <= doe < DAYS_PER_ERA - 1
    ensures CivilFromDays(days) == FromEraDay(era * 400, doe)
    ensures CivilFromDays(days + 1) == FromEraDay(era * 400, doe + 1)
  {
    CivilCoreIsEraDay(days, era, doe);
    CivilCoreIsEraDay(days + 1, era, doe + 1);
  }

  /** The last day of an era and the day after it are the last day of that era and the first of the next. */
  lemma ConsecutiveAcrossEras(days: nat, era: int)
    requires days + EPOCH_SHIFT == era * 146_097 + DAYS_PER_ERA - 1
    ensures CivilFromDays(days) == FromEraDay(era * 400, DAYS_PER_ERA - 1)
    ensures CivilFromDays(days + 1) == FromEraDay(era * 400 + 400, 0)
  {
    CivilCoreIsEraDay(days, era, DAYS_PER_ERA - 1);
    CivilCoreIsEraDay(days + 1, era + 1, 0);
    assert (era + 1) * 400 == era * 400 + 400;
  }

  /** Inside an era, the successor day is the successor date. */
  lemma NextInEra(days: nat, era: int, doe: int)
    requires days + EPOCH_SHIFT == era * 146_097 + doe && 0 <= doe < DAYS_PER_ERA - 1
    requires (era * 400) % 400 == 0
    ensures ValidDate(CivilFromDays(days))
    ensures CivilFromDays(days + 1) == NextDate(CivilFromDays(days))
  {
    ConsecutiveInEra(days, era, doe);
    FromEraDayNext(era * 400, doe);
    SuccessorOfDays(days, FromEraDay(era * 400, doe), FromEraDay(era * 400, doe + 1));
  }

  /** The last day of an era is followed by the first day of the next. */
  lemma NextAcrossEras(days: nat, era: int)
    requires days + EPOCH_SHIFT == era * 146_097 + DAYS_PER_ERA - 1
    requires (era * 400) % 400 == 0
    ensures ValidDate(CivilFromDays(days))
    ensures CivilFromDays(days + 1) == NextDate(CivilFromDays(days))
  {
    var today := FromEraDay(era * 400, DAYS_PER_ERA - 1);
    var tomorrow := FromEraDay(era * 400 + 400, 0);
    assert ValidDate(today) && tomorrow == NextDate(today) by {
      FromEraDayLast(era * 400);
    }
    ConsecutiveAcrossEras(days, era);
    SuccessorOfDays(days, today, tomorrow);
  }

  /**
   * As written, a January or February date comes out two years early, and every
   * other date is right; day 0 comes out as 1968-01-01.
   */
  lemma AsWrittenMisdatesJanuaryAndFebruary(days: nat)
    ensures var c := CivilFromDays(days);
      CivilFromDaysAsWritten(days) == (if c.month <= 2 then Date(c.year - 2, c.month, c.day) else c)
  {
  }

  lemma AsWrittenEpochIs1968()
    ensures CivilFromDaysAsWritten(0) == Date(1968, 1, 1)
    ensures CivilFromDaysAsWritten(0) != CivilFromDays(0)
  {
    CivilFromDaysEpoch();
    AsWrittenMisdatesJanuaryAndFebruary(0);
  }
}
