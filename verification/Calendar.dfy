/** Civil dates as day numbers, and the calendar arithmetic behind date filters.

    Both conversions work in eras of 400 years that start in March, so that a leap day ends
    its year.  A date and a day number are each placed by era, year of the era, month from
    March and day; that the two conversions are inverse, and that the next day is one more,
    follow from where the places lie. */
module Calendar {
  /** Division as Rust's `/` on integers: toward zero. */
  function TruncDiv(a: int, b: int): int
    requires b > 0
  {
    if a >= 0 then a / b else -((-a) / b)
  }

  /** Days since 1970-01-01 for a civil date. */
  function DaysFromCivil(year: int, m: int, d: int): int {
    var y := if m <= 2 then year - 1 else year;
    var era := TruncDiv(if y >= 0 then y else y - 399, 400);
    var yoe := y - era * 400;
    var mp := (m + 9) % 12;
    var doy := (153 * mp + 2) / 5 + d - 1;
    var doe := yoe * 365 + yoe / 4 - yoe / 100 + doy;
    era * 146_097 + doe - 719_468
  }

  datatype Civil = Civil(year: int, month: int, day: int)

  /** The civil date `days` after 1970-01-01. */
  function CivilFromDays(days: int): Civil {
    var z := days + 719_468;
    var era := TruncDiv(if z >= 0 then z else z - 146_096, 146_097);
    CivilInEra(era, z - era * 146_097)
  }

  /** The civil date of day `doe` of a 400-year era that starts in March. */
  function CivilInEra(era: int, doe: int): Civil {
    var yoe := YearOfEra(doe);
    var y := yoe + era * 400;
    var doy := doe - (365 * yoe + yoe / 4 - yoe / 100);
    var mp := (5 * doy + 2) / 153;
    var d := doy - (153 * mp + 2) / 5 + 1;
    var m := if mp < 10 then mp + 3 else mp - 9;
    Civil(if m <= 2 then y + 1 else y, m, d)
  }

  function YearOfEra(doe: int): int {
    (doe - doe / 1460 + doe / 36_524 - doe / 146_096) / 365
  }

  // ---- the calendar itself ----

  predicate IsLeap(y: int) {
    y % 4 == 0 && (y % 100 != 0 || y % 400 == 0)
  }

  function DaysInMonth(y: int, m: int): int {
    if m == 2 then (if IsLeap(y) then 29 else 28)
    else if m == 4 || m == 6 || m == 9 || m == 11 then 30 else 31
  }

  predicate IsDate(c: Civil) {
    1 <= c.month <= 12 && 1 <= c.day <= DaysInMonth(c.year, c.month)
  }

  function NextDay(c: Civil): Civil {
    if c.day < DaysInMonth(c.year, c.month) then Civil(c.year, c.month, c.day + 1)
    else if c.month < 12 then Civil(c.year, c.month + 1, 1)
    else Civil(c.year + 1, 1, 1)
  }

  // ---- a year that starts in March ----

  lemma EraIsFloor(y: int, b: int)
    requires b == 400 || b == 146_097
    ensures TruncDiv(if y >= 0 then y else y - (b - 1), b) == y / b
  {
  }

  /** Days of the era before its `yoe`-th year. */
  function YearStart(yoe: int): int {
    365 * yoe + yoe / 4 - yoe / 100
  }

  /** Whether the year from March of `yoe` ends in a 29 February. */
  predicate LongYear(yoe: int) {
    yoe % 4 == 3 && (yoe % 100 != 99 || yoe == 399)
  }

  lemma MultipleIsFar(d: int, b: int)
    requires b > 0
    ensures d >= 1 ==> d * b >= b
    ensures d <= -1 ==> d * b <= -b
  {
    if d >= 1 { assert (d - 1) * b >= 0; }
    if d <= -1 { assert (-1 - d) * b >= 0; }
  }

  lemma QuotientIs(a: int, b: int, q: int)
    requires b > 0 && q * b <= a < q * b + b
    ensures a / b == q
  {
    MultipleIsFar(a / b - q, b);
    assert (a / b - q) * b == (a / b) * b - q * b;
  }

  /** A year of the era in centuries, leap cycles and years. */
  lemma SplitYear(yoe: int) returns (c: int, q: int, r: int)
    requires 0 <= yoe < 400
    ensures 0 <= c < 4 && 0 <= q < 25 && 0 <= r < 4 && yoe == 100 * c + 4 * q + r
    ensures YearStart(yoe) == 36_524 * c + 1461 * q + 365 * r
    ensures LongYear(yoe) <==> r == 3 && (q != 24 || c == 3)
  {
    c := yoe / 100;
    q := yoe % 100 / 4;
    r := yoe % 4;
    assert yoe % 100 % 4 == r;
  }

  lemma YearOfEraIs(yoe: int, doy: int)
    requires 0 <= yoe < 400 && 0 <= doy && (doy <= 364 || (doy == 365 && LongYear(yoe)))
    ensures 0 <= YearStart(yoe) + doy < 146_097
    ensures YearOfEra(YearStart(yoe) + doy) == yoe
  {
    var c, q, r := SplitYear(yoe);
    var doe := YearStart(yoe) + doy;
    var t := 24 * c + q + 365 * r + doy;
    var late := if t >= 1460 then 1 else 0;
    QuotientIs(doe, 1460, 25 * c + q + late);
    var last := if doe == 146_096 then 1 else 0;
    QuotientIs(doe, 36_524, c + last);
    QuotientIs(doe, 146_096, last);
    QuotientIs(365 * yoe + doy - late, 365, yoe);
  }

  /** Every day of the era belongs to a year. */
  lemma DayOfEraSplits(doe: int) returns (yoe: int, doy: int)
    requires 0 <= doe < 146_097
    ensures 0 <= yoe < 400 && 0 <= doy && (doy <= 364 || (doy == 365 && LongYear(yoe)))
    ensures doe == YearStart(yoe) + doy
  {
    var c := if doe == 146_096 then 3 else doe / 36_524;
    var rem := doe - 36_524 * c;
    var q := rem / 1461;
    var s := rem - 1461 * q;
    var r := if s == 1460 then 3 else s / 365;
    doy := s - 365 * r;
    yoe := 100 * c + 4 * q + r;
    YearParts(c, q, r);
  }

  lemma YearParts(c: int, q: int, r: int)
    requires 0 <= c < 4 && 0 <= q < 25 && 0 <= r < 4
    ensures var yoe := 100 * c + 4 * q + r;
      && YearStart(yoe) == 36_524 * c + 1461 * q + 365 * r
      && (LongYear(yoe) <==> r == 3 && (q != 24 || c == 3))
  {
    var yoe := 100 * c + 4 * q + r;
    QuotientIs(yoe, 100, c);
    QuotientIs(yoe, 4, 25 * c + q);
  }

  // ---- months ----

  function MonthStart(mp: int): int {
    (153 * mp + 2) / 5
  }

  function MonthOf(mp: int): int {
    if mp < 10 then mp + 3 else mp - 9
  }

  /** Days of the month `mp` places after March, in a year that starts in March. */
  function MonthLength(mp: int, longYear: bool): int {
    if mp == 11 then (if longYear then 29 else 28)
    else if mp == 1 || mp == 3 || mp == 6 || mp == 8 then 30 else 31
  }

  lemma MonthsAbut(mp: int)
    requires 0 <= mp < 11
    ensures MonthStart(mp + 1) == MonthStart(mp) + MonthLength(mp, false)
    ensures MonthStart(0) == 0 && MonthStart(11) == 337
  {
  }

  /** The month and day of a day of the year. */
  lemma MonthOfDay(mp: int, d: int)
    requires 0 <= mp < 12 && 1 <= d <= MonthLength(mp, true)
    ensures (5 * (MonthStart(mp) + d - 1) + 2) / 153 == mp
  {
    var doy := MonthStart(mp) + d - 1;
    if mp < 6 {
      if mp < 3 { if mp == 0 {} else if mp == 1 {} else {} } else if mp == 3 {} else if mp == 4 {} else {}
    } else {
      if mp < 9 { if mp == 6 {} else if mp == 7 {} else {} } else if mp == 9 {} else if mp == 10 {} else {}
    }
    QuotientIs(5 * doy + 2, 153, mp);
  }

  lemma DayOfYearSplits(doy: int, longYear: bool) returns (mp: int, d: int)
    requires 0 <= doy && (doy <= 364 || (doy == 365 && longYear))
    ensures 0 <= mp < 12 && 1 <= d <= MonthLength(mp, longYear) && doy == MonthStart(mp) + d - 1
  {
    mp := 0;
    MonthsAbut(0);
    while mp < 11 && MonthStart(mp + 1) <= doy
      invariant 0 <= mp <= 11 && MonthStart(mp) <= doy
    {
      mp := mp + 1;
    }
    d := doy - MonthStart(mp) + 1;
    if mp < 11 { MonthsAbut(mp); }
  }

  lemma MonthsMatch(y: int, mp: int)
    requires 0 <= mp < 12
    ensures var m := MonthOf(mp);
      && 1 <= m <= 12 && (m + 9) % 12 == mp
      && DaysInMonth(if m <= 2 then y + 1 else y, m) == MonthLength(mp, IsLeap(y + 1))
  {
  }

  lemma LeapOfEra(era: int, yoe: int)
    requires 0 <= yoe < 400
    ensures IsLeap(era * 400 + yoe + 1) <==> LongYear(yoe)
  {
    var y, n := era * 400 + yoe + 1, yoe + 1;
    QuotientIs(y, 4, 100 * era + n / 4);
    QuotientIs(y, 100, 4 * era + n / 100);
    QuotientIs(y, 400, era + n / 400);
  }

  // ---- the two conversions are inverse ----

  /** A date by era, year of the era, month from March and day. */
  ghost predicate Places(c: Civil, era: int, yoe: int, mp: int, d: int) {
    && 0 <= yoe < 400 && 0 <= mp < 12 && 1 <= d <= MonthLength(mp, LongYear(yoe))
    && c == Civil(if MonthOf(mp) <= 2 then era * 400 + yoe + 1 else era * 400 + yoe, MonthOf(mp), d)
  }

  function DayNumber(era: int, yoe: int, mp: int, d: int): int {
    era * 146_097 + YearStart(yoe) + MonthStart(mp) + d - 1 - 719_468
  }

  lemma DateIsPlaced(c: Civil) returns (era: int, yoe: int, mp: int)
    requires IsDate(c)
    ensures Places(c, era, yoe, mp, c.day)
  {
    var y := if c.month <= 2 then c.year - 1 else c.year;
    era, yoe, mp := y / 400, y % 400, (c.month + 9) % 12;
    MonthsMatch(y, mp);
    LeapOfEra(era, yoe);
    assert y == era * 400 + yoe;
  }

  lemma PlacedIsDate(c: Civil, era: int, yoe: int, mp: int, d: int)
    requires Places(c, era, yoe, mp, d)
    ensures IsDate(c)
    ensures DaysFromCivil(c.year, c.month, c.day) == DayNumber(era, yoe, mp, d)
  {
    var y := era * 400 + yoe;
    MonthsMatch(y, mp);
    LeapOfEra(era, yoe);
    EraIsFloor(y, 400);
    QuotientIs(y, 400, era);
  }

  /** A date by the day of its year from March. */
  function OnDay(era: int, yoe: int, doy: int): Civil {
    var mp := (5 * doy + 2) / 153;
    var m := MonthOf(mp);
    Civil(if m <= 2 then yoe + era * 400 + 1 else yoe + era * 400, m, doy - MonthStart(mp) + 1)
  }

  lemma FoundInEra(era: int, yoe: int, doe: int)
    requires YearOfEra(doe) == yoe
    ensures CivilInEra(era, doe) == OnDay(era, yoe, doe - YearStart(yoe))
  {
  }

  lemma EraOfDay(era: int, doe: int)
    requires 0 <= doe < 146_097
    ensures CivilFromDays(era * 146_097 + doe - 719_468) == CivilInEra(era, doe)
  {
    hide CivilInEra;
    var z := era * 146_097 + doe;
    EraIsFloor(z, 146_097);
    QuotientIs(z, 146_097, era);
  }

  lemma FoundByDay(era: int, yoe: int, doy: int)
    requires 0 <= yoe < 400 && 0 <= doy && (doy <= 364 || (doy == 365 && LongYear(yoe)))
    ensures CivilFromDays(era * 146_097 + YearStart(yoe) + doy - 719_468) == OnDay(era, yoe, doy)
  {
    hide CivilFromDays, CivilInEra, OnDay, YearOfEra;
    var doe := YearStart(yoe) + doy;
    YearOfEraIs(yoe, doy);
    EraOfDay(era, doe);
    FoundInEra(era, yoe, doe);
    assert era * 146_097 + YearStart(yoe) + doy - 719_468 == era * 146_097 + doe - 719_468;
  }

  lemma OnDayIs(era: int, yoe: int, mp: int, d: int)
    requires 0 <= mp < 12 && 1 <= d <= MonthLength(mp, true)
    ensures OnDay(era, yoe, MonthStart(mp) + d - 1) ==
      Civil(if MonthOf(mp) <= 2 then era * 400 + yoe + 1 else era * 400 + yoe, MonthOf(mp), d)
  {
    MonthOfDay(mp, d);
  }

  lemma PlacedIsFound(c: Civil, era: int, yoe: int, mp: int, d: int)
    requires Places(c, era, yoe, mp, d)
    ensures CivilFromDays(DayNumber(era, yoe, mp, d)) == c
  {
    hide CivilFromDays, OnDay;
    DayFitsYear(mp, d, LongYear(yoe));
    FoundByDay(era, yoe, MonthStart(mp) + d - 1);
    OnDayIs(era, yoe, mp, d);
  }

  lemma DayFitsYear(mp: int, d: int, longYear: bool)
    requires 0 <= mp < 12 && 1 <= d <= MonthLength(mp, longYear)
    ensures var doy := MonthStart(mp) + d - 1; 0 <= doy && (doy <= 364 || (doy == 365 && longYear))
  {
    if mp < 11 { MonthsAbut(mp); }
  }

  /** Converting a date to its day number and back gives the date. */
  lemma DateRoundTrip(c: Civil)
    requires IsDate(c)
    ensures CivilFromDays(DaysFromCivil(c.year, c.month, c.day)) == c
  {
    var era, yoe, mp := DateIsPlaced(c);
    PlacedIsDate(c, era, yoe, mp, c.day);
    PlacedIsFound(c, era, yoe, mp, c.day);
  }

  /** Converting any day number to a date gives a real date, and back gives the number. */
  lemma DayRoundTrip(days: int)
    ensures IsDate(CivilFromDays(days))
    ensures var c := CivilFromDays(days); DaysFromCivil(c.year, c.month, c.day) == days
  {
    var z := days + 719_468;
    var era := z / 146_097;
    var yoe, doy := DayOfEraSplits(z % 146_097);
    var mp, d := DayOfYearSplits(doy, LongYear(yoe));
    var c := Civil(if MonthOf(mp) <= 2 then era * 400 + yoe + 1 else era * 400 + yoe, MonthOf(mp), d);
    assert Places(c, era, yoe, mp, d);
    assert DayNumber(era, yoe, mp, d) == days;
    PlacedIsFound(c, era, yoe, mp, d);
    PlacedIsDate(c, era, yoe, mp, d);
  }

  // ---- the next day is always one more ----

  lemma YearsAbut(yoe: int)
    requires 0 <= yoe < 399
    ensures YearStart(yoe + 1) == YearStart(yoe) + if LongYear(yoe) then 366 else 365
  {
    var c, q, r := SplitYear(yoe);
    if r < 3 { YearParts(c, q, r + 1); } else if q < 24 { YearParts(c, q + 1, 0); } else { YearParts(c + 1, 0, 0); }
  }

  lemma NextMonthAbuts(era: int, yoe: int, mp: int)
    requires 0 <= yoe < 400 && 0 <= mp < 12
    ensures var d := MonthLength(mp, LongYear(yoe));
      DayNumber(era, yoe, mp, d) + 1 ==
        if mp < 11 then DayNumber(era, yoe, mp + 1, 1)
        else if yoe < 399 then DayNumber(era, yoe + 1, 0, 1) else DayNumber(era + 1, 0, 0, 1)
  {
    MonthsAbut(if mp < 11 then mp else 0);
    if mp == 11 && yoe < 399 { YearsAbut(yoe); }
  }

  lemma NextPlace(c: Civil, era: int, yoe: int, mp: int)
    requires Places(c, era, yoe, mp, c.day) && c.day == DaysInMonth(c.year, c.month)
    ensures c.day == MonthLength(mp, LongYear(yoe))
    ensures if mp < 11 then Places(NextDay(c), era, yoe, mp + 1, 1)
            else if yoe < 399 then Places(NextDay(c), era, yoe + 1, 0, 1) else Places(NextDay(c), era + 1, 0, 0, 1)
  {
    MonthsMatch(era * 400 + yoe, mp);
    LeapOfEra(era, yoe);
  }

  /** The day after a date has the next day number: across month ends, leap days, century
      years and the turn of the year. */
  lemma NextDayIsOneMore(c: Civil)
    requires IsDate(c)
    ensures IsDate(NextDay(c))
    ensures var n := NextDay(c);
      DaysFromCivil(n.year, n.month, n.day) == DaysFromCivil(c.year, c.month, c.day) + 1
  {
    var era, yoe, mp := DateIsPlaced(c);
    PlacedIsDate(c, era, yoe, mp, c.day);
    if c.day == DaysInMonth(c.year, c.month) {
      NextPlace(c, era, yoe, mp);
      NextMonthAbuts(era, yoe, mp);
      if mp < 11 {
        PlacedIsDate(NextDay(c), era, yoe, mp + 1, 1);
      } else if yoe < 399 {
        PlacedIsDate(NextDay(c), era, yoe + 1, 0, 1);
      } else {
        PlacedIsDate(NextDay(c), era + 1, 0, 0, 1);
      }
    } else {
      NextInMonth(c, era, yoe, mp);
    }
  }

  lemma NextInMonth(c: Civil, era: int, yoe: int, mp: int)
    requires Places(c, era, yoe, mp, c.day) && c.day < DaysInMonth(c.year, c.month)
    requires DaysFromCivil(c.year, c.month, c.day) == DayNumber(era, yoe, mp, c.day)
    ensures IsDate(NextDay(c))
    ensures DaysFromCivil(NextDay(c).year, NextDay(c).month, NextDay(c).day) == DayNumber(era, yoe, mp, c.day) + 1
  {
    MonthsMatch(era * 400 + yoe, mp);
    LeapOfEra(era, yoe);
    PlacedIsDate(NextDay(c), era, yoe, mp, c.day + 1);
  }

  /** Earlier dates have smaller day numbers. */
  predicate Earlier(a: Civil, b: Civil) {
    a.year < b.year || (a.year == b.year && (a.month < b.month || (a.month == b.month && a.day < b.day)))
  }

  /** Days before March of year `y`, counted from March of year 0. */
  function DaysBefore(y: int): int {
    365 * y + y / 4 - y / 100 + y / 400
  }

  lemma EraAndYear(era: int, yoe: int)
    requires 0 <= yoe < 400
    ensures DaysBefore(era * 400 + yoe) == era * 146_097 + YearStart(yoe)
  {
    QuotientIs(era * 400 + yoe, 400, era);
    QuotientIs(era * 400 + yoe, 100, 4 * era + yoe / 100);
    QuotientIs(era * 400 + yoe, 4, 100 * era + yoe / 4);
  }

  lemma YearEnds(era: int, yoe: int)
    requires 0 <= yoe < 400
    ensures DaysBefore(era * 400 + yoe + 1) == DaysBefore(era * 400 + yoe) + if LongYear(yoe) then 366 else 365
  {
    EraAndYear(era, yoe);
    if yoe < 399 {
      YearsAbut(yoe);
      EraAndYear(era, yoe + 1);
    } else {
      EraAndYear(era + 1, 0);
      assert era * 400 + yoe + 1 == (era + 1) * 400 + 0;
    }
  }

  lemma DaysBeforeGrows(y: int, z: int)
    requires y <= z
    ensures DaysBefore(y) <= DaysBefore(z)
  {
  }

  lemma MonthsGrow(a: int, b: int)
    requires 0 <= a < b < 12
    ensures MonthStart(a) + MonthLength(a, false) <= MonthStart(b)
  {
    MonthsAbut(a);
  }

  lemma LaterPlaceIsLater(a: Civil, b: Civil, e1: int, y1: int, m1: int, e2: int, y2: int, m2: int)
    requires Places(a, e1, y1, m1, a.day) && Places(b, e2, y2, m2, b.day) && Earlier(a, b)
    ensures DayNumber(e1, y1, m1, a.day) < DayNumber(e2, y2, m2, b.day)
  {
    var s, t := e1 * 400 + y1, e2 * 400 + y2;
    EraAndYear(e1, y1);
    EraAndYear(e2, y2);
    DayFitsYear(m1, a.day, LongYear(y1));
    DayFitsYear(m2, b.day, LongYear(y2));
    if s < t {
      YearEnds(e1, y1);
      DaysBeforeGrows(s + 1, t);
    } else {
      assert s == t && (m1 < m2 || (m1 == m2 && a.day < b.day));
      if m1 < m2 { MonthsGrow(m1, m2); }
    }
  }

  /** Dates order as their day numbers do. */
  lemma DatesOrderAsDays(a: Civil, b: Civil)
    requires IsDate(a) && IsDate(b)
    ensures Earlier(a, b) <==> DaysFromCivil(a.year, a.month, a.day) < DaysFromCivil(b.year, b.month, b.day)
  {
    var e1, y1, m1 := DateIsPlaced(a);
    var e2, y2, m2 := DateIsPlaced(b);
    PlacedIsDate(a, e1, y1, m1, a.day);
    PlacedIsDate(b, e2, y2, m2, b.day);
    if Earlier(a, b) {
      LaterPlaceIsLater(a, b, e1, y1, m1, e2, y2, m2);
    } else if Earlier(b, a) {
      LaterPlaceIsLater(b, a, e2, y2, m2, e1, y1, m1);
    }
  }
}
