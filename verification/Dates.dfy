/** Dates as strings, and the date filters that compare them.

    A filter never converts the cells it tests: it renders the two ends of a span and
    compares ten-character strings.  That this selects the right days rests on three facts,
    proved in this order: rendered days of the years 0000 to 9999 parse back to themselves,
    such strings compare as the days do, and the ends of a week or of a moving span are the
    days meant. */
module Dates {
  import opened Cells
  import opened Order
  import opened Calendar

  function DigitChar(n: int): char
    requires 0 <= n < 10
  {
    (48 + n) as char
  }

  function Decimal(n: nat): (s: string)
    ensures s != ""
  {
    if n < 10 then [DigitChar(n)] else Decimal(n / 10) + [DigitChar(n % 10)]
  }

  function Zeros(k: nat): (s: string)
    ensures |s| == k && forall i :: 0 <= i < k ==> s[i] == '0'
  {
    if k == 0 then "" else "0" + Zeros(k - 1)
  }

  /** Zero-padded to `width`, the sign included. */
  function Padded(n: int, width: nat): string {
    var digits := Decimal(if n < 0 then -n else n);
    var used := |digits| + if n < 0 then 1 else 0;
    (if n < 0 then "-" else "") + Zeros(if used < width then width - used else 0) + digits
  }

  /** Render days since 1970-01-01 as `YYYY-MM-DD`. */
  function DaysToDate(days: int): string {
    var c := CivilFromDays(days);
    Padded(c.year, 4) + "-" + Padded(c.month, 2) + "-" + Padded(c.day, 2)
  }

  function DigitValue(c: char): Option<int> {
    if '0' <= c <= '9' then Some(c as int - 48) else None
  }

  function ParseDigits(s: string): Option<int> {
    if s == "" then None
    else
      var last := DigitValue(s[|s| - 1]);
      if last.None? then None
      else if |s| == 1 then last
      else
        var init := ParseDigits(s[..|s| - 1]);
        if init.Some? then Some(init.value * 10 + last.value) else None
  }

  /** An integer with an optional sign. */
  function ParseInt(s: string): Option<int> {
    if s != "" && s[0] == '-' then
      (var n := ParseDigits(s[1..]); if n.Some? then Some(-n.value) else None)
    else if s != "" && s[0] == '+' then ParseDigits(s[1..])
    else ParseDigits(s)
  }

  /** Parse the `YYYY-MM-DD` prefix of a date string.  Any day up to 31 is taken for any
      month, and a sign for a number's first character. */
  function DateToDays(s: string): Option<int> {
    if |s| < 10 || s[4] != '-' || s[7] != '-' then None
    else
      var y, m, d := ParseInt(s[..4]), ParseInt(s[5..7]), ParseInt(s[8..10]);
      if y.None? || m.None? || d.None? then None
      else if !(1 <= m.value <= 12) || !(1 <= d.value <= 31) then None
      else Some(DaysFromCivil(y.value, m.value, d.value))
  }

  // ---- rendering and parsing ----

  /** The days from 0000-01-01 to 9999-12-31. */
  predicate FourDigitYear(days: int) {
    -719_528 <= days <= 2_932_896
  }

  lemma FirstAndLastDay()
    ensures DaysFromCivil(0, 1, 1) == -719_528 && DaysFromCivil(9999, 12, 31) == 2_932_896
  {
  }

  /** They are the days whose year has four digits. */
  lemma FourDigitYearMeans(days: int)
    ensures FourDigitYear(days) <==> 0 <= CivilFromDays(days).year <= 9999
  {
    hide CivilFromDays, DaysFromCivil;
    var c, first, last := CivilFromDays(days), Civil(0, 1, 1), Civil(9999, 12, 31);
    FirstAndLastDay();
    DayRoundTrip(days);
    DatesOrderAsDays(c, first);
    DatesOrderAsDays(last, c);
  }

  lemma ParseOne(a: int)
    requires 0 <= a < 10
    ensures ParseDigits([DigitChar(a)]) == Some(a)
  {
  }

  lemma ParseMore(s: string, n: int, a: int)
    requires s != "" && ParseDigits(s) == Some(n) && 0 <= a < 10
    ensures ParseDigits(s + [DigitChar(a)]) == Some(n * 10 + a)
  {
    assert (s + [DigitChar(a)])[..|s|] == s;
  }

  lemma Unsigned(s: string, n: int)
    requires ParseDigits(s) == Some(n) && s != "" && '0' <= s[0] <= '9'
    ensures ParseInt(s) == Some(n)
  {
  }

  lemma TwoDigits(n: int)
    requires 0 <= n < 100
    ensures Padded(n, 2) == [DigitChar(n / 10), DigitChar(n % 10)]
    ensures ParseInt(Padded(n, 2)) == Some(n)
  {
    var s := [DigitChar(n / 10), DigitChar(n % 10)];
    if n < 10 {
      assert Zeros(1) == "0" + Zeros(0) == "0";
    } else {
      assert Decimal(n) == Decimal(n / 10) + [DigitChar(n % 10)] == s;
    }
    ParseOne(n / 10);
    ParseMore([DigitChar(n / 10)], n / 10, n % 10);
    assert [DigitChar(n / 10)] + [DigitChar(n % 10)] == s;
    Unsigned(s, n);
  }

  function Four(n: int): string
    requires 0 <= n < 10_000
  {
    [DigitChar(n / 1000), DigitChar(n / 100 % 10), DigitChar(n / 10 % 10), DigitChar(n % 10)]
  }

  lemma DecimalSplits(n: int)
    requires n >= 10
    ensures Decimal(n) == Decimal(n / 10) + [DigitChar(n % 10)]
  {
  }

  lemma ZerosUpToThree()
    ensures Zeros(0) == "" && Zeros(1) == "0" && Zeros(2) == "00" && Zeros(3) == "000"
  {
    assert Zeros(1) == "0" + Zeros(0);
    assert Zeros(2) == "0" + Zeros(1);
    assert Zeros(3) == "0" + Zeros(2);
  }

  lemma SmallDecimals(n: int)
    requires 0 <= n < 1000
    ensures Decimal(n) ==
      if n < 10 then [DigitChar(n)]
      else if n < 100 then [DigitChar(n / 10), DigitChar(n % 10)]
      else [DigitChar(n / 100), DigitChar(n / 10 % 10), DigitChar(n % 10)]
  {
    if n >= 10 { DecimalSplits(n); }
    if n >= 100 { DecimalSplits(n / 10); assert n / 10 / 10 == n / 100; }
  }

  lemma DecimalOfFour(n: int)
    requires 0 <= n < 10_000
    ensures |Decimal(n)| <= 4 && Zeros(4 - |Decimal(n)|) + Decimal(n) == Four(n)
  {
    hide Decimal, Zeros;
    if n < 1000 {
      DecimalPadded(n);
    } else {
      DecimalSplits(n);
      SmallDecimals(n / 10);
      assert n / 10 / 100 == n / 1000 && n / 10 / 10 == n / 100;
      ZerosUpToThree();
    }
  }

  lemma DecimalPadded(n: int)
    requires 0 <= n < 1000
    ensures |Decimal(n)| <= 3 && Zeros(4 - |Decimal(n)|) + Decimal(n) == Four(n)
  {
    hide Decimal, Zeros;
    ZerosUpToThree();
    SmallDecimals(n);
    assert n / 1000 == 0 && (n < 100 ==> n / 100 == 0) && (n < 10 ==> n / 10 == 0);
  }

  lemma ParseFourDigits(a: int, b: int, c: int, d: int)
    requires 0 <= a < 10 && 0 <= b < 10 && 0 <= c < 10 && 0 <= d < 10
    ensures ParseDigits([DigitChar(a), DigitChar(b), DigitChar(c), DigitChar(d)]) ==
      Some(((a * 10 + b) * 10 + c) * 10 + d)
  {
    ParseOne(a);
    ParseMore([DigitChar(a)], a, b);
    assert [DigitChar(a)] + [DigitChar(b)] == [DigitChar(a), DigitChar(b)];
    ParseMore([DigitChar(a), DigitChar(b)], a * 10 + b, c);
    assert [DigitChar(a), DigitChar(b)] + [DigitChar(c)] == [DigitChar(a), DigitChar(b), DigitChar(c)];
    ParseMore([DigitChar(a), DigitChar(b), DigitChar(c)], (a * 10 + b) * 10 + c, d);
    assert [DigitChar(a), DigitChar(b), DigitChar(c)] + [DigitChar(d)] ==
      [DigitChar(a), DigitChar(b), DigitChar(c), DigitChar(d)];
  }

  lemma DigitsSum(n: int)
    requires 0 <= n < 10_000
    ensures ((n / 1000 * 10 + n / 100 % 10) * 10 + n / 10 % 10) * 10 + n % 10 == n
  {
    assert n / 100 / 10 == n / 1000 && n / 10 / 10 == n / 100;
    assert n / 100 == n / 1000 * 10 + n / 100 % 10 && n / 10 == n / 100 * 10 + n / 10 % 10;
  }

  lemma ParseFour(n: int)
    requires 0 <= n < 10_000
    ensures ParseInt(Four(n)) == Some(n)
  {
    ParseFourDigits(n / 1000, n / 100 % 10, n / 10 % 10, n % 10);
    DigitsSum(n);
    Unsigned(Four(n), n);
  }

  lemma FourDigits(n: int)
    requires 0 <= n < 10_000
    ensures Padded(n, 4) == Four(n)
    ensures ParseInt(Padded(n, 4)) == Some(n)
  {
    DecimalOfFour(n);
    var zeros: nat := if |Decimal(n)| < 4 then 4 - |Decimal(n)| else 0;
    assert Padded(n, 4) == "" + Zeros(zeros) + Decimal(n);
    assert "" + Zeros(zeros) == Zeros(zeros);
    ParseFour(n);
  }

  function Rendered(c: Civil): string
    requires 0 <= c.year < 10_000 && IsDate(c)
  {
    Four(c.year) + "-" + [DigitChar(c.month / 10), DigitChar(c.month % 10)] +
    "-" + [DigitChar(c.day / 10), DigitChar(c.day % 10)]
  }

  lemma RendersAs(days: int)
    requires FourDigitYear(days)
    ensures var c := CivilFromDays(days); IsDate(c) && 0 <= c.year < 10_000 && DaysToDate(days) == Rendered(c)
  {
    var c := CivilFromDays(days);
    FourDigitYearMeans(days);
    DayRoundTrip(days);
    hide CivilFromDays, DaysFromCivil, Padded;
    FourDigits(c.year);
    TwoDigits(c.month);
    TwoDigits(c.day);
  }

  lemma RenderedParts(c: Civil)
    requires 0 <= c.year < 10_000 && IsDate(c)
    ensures var s := Rendered(c);
      && |s| == 10 && s[4] == '-' && s[7] == '-'
      && s[..4] == Padded(c.year, 4) && s[5..7] == Padded(c.month, 2) && s[8..10] == Padded(c.day, 2)
  {
    FourDigits(c.year);
    TwoDigits(c.month);
    TwoDigits(c.day);
  }

  /** Rendering a day of the years 0000 to 9999 and parsing it back gives the day. */
  lemma RenderParse(days: int)
    requires FourDigitYear(days)
    ensures |DaysToDate(days)| == 10 && DateToDays(DaysToDate(days)) == Some(days)
  {
    var c := CivilFromDays(days);
    RendersAs(days);
    DayRoundTrip(days);
    hide CivilFromDays, DaysFromCivil, DaysToDate, Padded, Rendered, ParseInt;
    RenderedParts(c);
    FourDigits(c.year);
    TwoDigits(c.month);
    TwoDigits(c.day);
  }

  // ---- comparing date strings ----

  lemma DigitCharsAscend(a: int, b: int)
    requires 0 <= a < 10 && 0 <= b < 10
    ensures DigitChar(a) < DigitChar(b) <==> a < b
    ensures DigitChar(a) == DigitChar(b) <==> a == b
  {
  }

  /** A common first part decides nothing, a different one everything. */
  lemma {:induction false} LessByParts(p: string, q: string, a: string, b: string)
    requires |p| == |q|
    ensures Less(p + a, q + b) <==> Less(p, q) || (p == q && Less(a, b))
  {
    if p == "" {
      assert p + a == a && q + b == b;
    } else {
      LessByParts(p[1..], q[1..], a, b);
      assert (p + a)[1..] == p[1..] + a && (q + b)[1..] == q[1..] + b;
      assert p == q <==> p[0] == q[0] && p[1..] == q[1..] by {
        assert p == [p[0]] + p[1..] && q == [q[0]] + q[1..];
      }
    }
  }

  lemma LessOne(a: int, b: int)
    requires 0 <= a < 10 && 0 <= b < 10
    ensures Less([DigitChar(a)], [DigitChar(b)]) <==> a < b
    ensures [DigitChar(a)] == [DigitChar(b)] <==> a == b
  {
    DigitCharsAscend(a, b);
    if [DigitChar(a)] == [DigitChar(b)] { assert [DigitChar(a)][0] == [DigitChar(b)][0]; }
  }

  function Two(n: int): string
    requires 0 <= n < 100
  {
    [DigitChar(n / 10), DigitChar(n % 10)]
  }

  lemma LessTwo(m: int, n: int)
    requires 0 <= m < 100 && 0 <= n < 100
    ensures Less(Two(m), Two(n)) <==> m < n
    ensures Two(m) == Two(n) <==> m == n
  {
    LessOne(m / 10, n / 10);
    LessOne(m % 10, n % 10);
    LessByParts([DigitChar(m / 10)], [DigitChar(n / 10)], [DigitChar(m % 10)], [DigitChar(n % 10)]);
    assert Two(m) == [DigitChar(m / 10)] + [DigitChar(m % 10)] && Two(n) == [DigitChar(n / 10)] + [DigitChar(n % 10)];
    if Two(m) == Two(n) { assert Two(m)[0] == Two(n)[0] && Two(m)[1] == Two(n)[1]; }
  }

  lemma DigitsOfHalves(n: int)
    requires 0 <= n < 10_000
    ensures n / 1000 == n / 100 / 10 && n / 10 % 10 == n % 100 / 10 && n % 10 == n % 100 % 10
  {
    var h, l := n / 100, n % 100;
    var t := l / 10;
    assert n == 100 * h + l && l == 10 * t + l % 10 && h == 10 * (h / 10) + h % 10;
    QuotientIs(n, 1000, h / 10);
    QuotientIs(n, 10, 10 * h + t);
  }

  lemma FourIsTwoTwos(n: int)
    requires 0 <= n < 10_000
    ensures Four(n) == Two(n / 100) + Two(n % 100)
  {
    DigitsOfHalves(n);
  }

  lemma LessFour(m: int, n: int)
    requires 0 <= m < 10_000 && 0 <= n < 10_000
    ensures Less(Four(m), Four(n)) <==> m < n
    ensures Four(m) == Four(n) <==> m == n
  {
    FourIsTwoTwos(m);
    FourIsTwoTwos(n);
    LessTwo(m / 100, n / 100);
    LessTwo(m % 100, n % 100);
    LessByParts(Two(m / 100), Two(n / 100), Two(m % 100), Two(n % 100));
    if Four(m) == Four(n) {
      assert Two(m / 100) == Four(m)[..2] && Two(n / 100) == Four(n)[..2];
      assert Two(m % 100) == Four(m)[2..] && Two(n % 100) == Four(n)[2..];
    }
  }

  lemma SameTail(a: string, b: string)
    ensures Less("-" + a, "-" + b) <==> Less(a, b)
  {
    assert ("-" + a)[1..] == a && ("-" + b)[1..] == b;
  }

  lemma RenderedOrder(a: Civil, b: Civil)
    requires IsDate(a) && IsDate(b) && 0 <= a.year < 10_000 && 0 <= b.year < 10_000
    ensures Less(Rendered(a), Rendered(b)) <==> Earlier(a, b)
  {
    LessFour(a.year, b.year);
    LessTwo(a.month, b.month);
    LessTwo(a.day, b.day);
    var a2, b2 := "-" + Two(a.day), "-" + Two(b.day);
    var a1, b1 := "-" + (Two(a.month) + a2), "-" + (Two(b.month) + b2);
    SameTail(Two(a.day), Two(b.day));
    LessByParts(Two(a.month), Two(b.month), a2, b2);
    SameTail(Two(a.month) + a2, Two(b.month) + b2);
    LessByParts(Four(a.year), Four(b.year), a1, b1);
    assert Rendered(a) == Four(a.year) + a1 && Rendered(b) == Four(b.year) + b1;
  }

  /** For the years 0000 to 9999 rendered days compare as strings the way they compare as
      numbers. */
  lemma DateStringsOrderAsDays(a: int, b: int)
    requires FourDigitYear(a) && FourDigitYear(b)
    ensures Less(DaysToDate(a), DaysToDate(b)) <==> a < b
  {
    hide CivilFromDays, DaysFromCivil, DaysToDate, Rendered, Less;
    RendersAs(a);
    RendersAs(b);
    RenderedOrder(CivilFromDays(a), CivilFromDays(b));
    DatesOrderAsDays(CivilFromDays(a), CivilFromDays(b));
    DayRoundTrip(a);
    DayRoundTrip(b);
  }

  // ---- filters ----

  datatype Bounds = Bounds(first: string, last: string)

  function MondayOf(days: int): int {
    days - (days + 3) % 7
  }

  /** The Monday to Sunday week that holds `today`. */
  function WeekBounds(today: string): Option<Bounds> {
    var days := DateToDays(today);
    if days.None? then None else Some(Days(MondayOf(days.value), MondayOf(days.value) + 6))
  }

  function Days(first: int, last: int): Bounds {
    Bounds(DaysToDate(first), DaysToDate(last))
  }

  /** A span filter: two dates, or, if it moves, two day offsets from today. */
  datatype Span = Span(moving: bool, fromDays: Option<int>, toDays: Option<int>, from: Option<string>,
                       upto: Option<string>)

  function OrZero(n: Option<int>): int {
    if n.Some? then n.value else 0
  }

  function Moved(v: Span, base: int): Bounds {
    var from, upto := OrZero(v.fromDays), OrZero(v.toDays);
    var (lo, hi) := if from <= upto then (from, upto) else (upto, from);
    Days(base + lo, base + hi)
  }

  function ResolveSpan(filter: Option<Span>, today: string): Option<Bounds> {
    if filter.None? then None
    else
      var v := filter.value;
      if v.moving then
        var base := DateToDays(today);
        if base.None? then None else Some(Moved(v, base.value))
      else if v.from.None? || v.upto.None? || |v.from.value| < 10 || |v.upto.value| < 10 then None
      else
        var from, upto := v.from.value[..10], v.upto.value[..10];
        if !Less(upto, from) then Some(Bounds(from, upto)) else Some(Bounds(upto, from))
  }

  function DayPrefix(s: string): string {
    if |s| <= 10 then s else s[..10]
  }

  predicate Within(day: string, b: Bounds) {
    !Less(day, b.first) && !Less(b.last, day)
  }

  predicate IsToday(cell: string, today: string) {
    cell != "" && DayPrefix(cell) == today
  }

  predicate IsThisWeek(cell: string, today: string) {
    var b := WeekBounds(today);
    cell != "" && b.Some? && Within(DayPrefix(cell), b.value)
  }

  predicate InSpan(cell: string, filter: Option<Span>, today: string) {
    var b := ResolveSpan(filter, today);
    cell != "" && b.Some? && Within(DayPrefix(cell), b.value)
  }

  /** The cell holds day `day`, perhaps followed by a time. */
  predicate Holds(cell: string, day: int) {
    FourDigitYear(day) && DayPrefix(cell) == DaysToDate(day)
  }

  lemma WithinIsBetween(day: int, lo: int, hi: int)
    requires FourDigitYear(day) && FourDigitYear(lo) && FourDigitYear(hi)
    ensures Within(DaysToDate(day), Days(lo, hi)) <==> lo <= day <= hi
  {
    hide CivilFromDays, DaysToDate, DateToDays;
    DateStringsOrderAsDays(day, lo);
    DateStringsOrderAsDays(hi, day);
  }

  lemma HeldDay(cell: string, day: int)
    requires Holds(cell, day)
    ensures cell != "" && DayPrefix(cell) == DaysToDate(day)
  {
    RenderParse(day);
  }

  /** Whether `days` is a Monday: 1970-01-01 was a Thursday. */
  predicate IsMonday(days: int) {
    (days + 3) % 7 == 0
  }

  /** Every day lies in exactly one Monday-to-Sunday week. */
  lemma WeekIsUnique(days: int, monday: int)
    ensures IsMonday(monday) && monday <= days <= monday + 6 <==> monday == MondayOf(days)
  {
    assert (days + 3) == 7 * ((days + 3) / 7) + (days + 3) % 7;
    if IsMonday(monday) && monday <= days <= monday + 6 {
      assert monday + 3 == 7 * ((monday + 3) / 7);
    }
  }

  /** "This week" selects exactly the dates of the Monday-to-Sunday week that holds today. */
  lemma ThisWeekMeans(cell: string, day: int, today: string, days: int, monday: int)
    requires Holds(cell, day) && DateToDays(today) == Some(days)
    requires IsMonday(monday) && monday <= days <= monday + 6
    requires FourDigitYear(monday) && FourDigitYear(monday + 6)
    ensures IsThisWeek(cell, today) <==> monday <= day <= monday + 6
  {
    hide CivilFromDays, DaysToDate, DateToDays;
    WeekIsUnique(days, monday);
    WithinIsBetween(day, monday, monday + 6);
    HeldDay(cell, day);
  }

  /** "Today" selects exactly the cells that hold today. */
  lemma TodayMeans(cell: string, day: int, today: int)
    requires Holds(cell, day) && FourDigitYear(today)
    ensures IsToday(cell, DaysToDate(today)) <==> day == today
  {
    RenderParse(day);
    RenderParse(today);
  }

  predicate BetweenOffsets(v: Span, off: int) {
    OrZero(v.fromDays) <= off <= OrZero(v.toDays) || OrZero(v.toDays) <= off <= OrZero(v.fromDays)
  }

  predicate SpanFits(v: Span, base: int) {
    FourDigitYear(base + OrZero(v.fromDays)) && FourDigitYear(base + OrZero(v.toDays))
  }

  lemma MovedHolds(v: Span, base: int, day: int)
    requires FourDigitYear(day) && SpanFits(v, base)
    ensures Within(DaysToDate(day), Moved(v, base)) <==> BetweenOffsets(v, day - base)
  {
    hide CivilFromDays, DaysToDate, DateToDays;
    var from, upto := OrZero(v.fromDays), OrZero(v.toDays);
    if from <= upto {
      WithinIsBetween(day, base + from, base + upto);
    } else {
      WithinIsBetween(day, base + upto, base + from);
    }
  }

  /** A moving span selects the days between its two offsets from today, in either order. */
  lemma MovingSpanMeans(cell: string, day: int, v: Span, today: string, base: int)
    requires Holds(cell, day) && v.moving && DateToDays(today) == Some(base) && SpanFits(v, base)
    ensures InSpan(cell, Some(v), today) <==> BetweenOffsets(v, day - base)
  {
    hide CivilFromDays, DaysToDate, DateToDays;
    HeldDay(cell, day);
    MovedHolds(v, base, day);
  }

  /** A fixed span selects the days between its two dates, in either order, whatever today is. */
  lemma FixedSpanMeans(cell: string, day: int, v: Span, today: string, lo: int, hi: int)
    requires Holds(cell, day) && !v.moving && v.from.Some? && v.upto.Some?
    requires |v.from.value| >= 10 && |v.upto.value| >= 10
    requires Holds(v.from.value, lo) && Holds(v.upto.value, hi)
    ensures InSpan(cell, Some(v), today) <==> lo <= day <= hi || hi <= day <= lo
  {
    hide CivilFromDays, DaysToDate, DateToDays;
    HeldDay(cell, day);
    assert v.from.value[..10] == DayPrefix(v.from.value) && v.upto.value[..10] == DayPrefix(v.upto.value);
    DateStringsOrderAsDays(hi, lo);
    if lo <= hi { WithinIsBetween(day, lo, hi); } else { WithinIsBetween(day, hi, lo); }
  }

  /** Moving spans move with today: on a later day the same filter selects the days that lie
      exactly as much later. */
  lemma MovingSpanShifts(v: Span, today: int, later: int, cell: string, day: int, cell2: string)
    requires v.moving && FourDigitYear(today) && FourDigitYear(later) && SpanFits(v, today) && SpanFits(v, later)
    requires Holds(cell, day) && Holds(cell2, day + (later - today))
    ensures InSpan(cell, Some(v), DaysToDate(today)) <==> InSpan(cell2, Some(v), DaysToDate(later))
  {
    hide CivilFromDays, DaysToDate, DateToDays;
    RenderParse(today);
    RenderParse(later);
    MovingSpanMeans(cell, day, v, DaysToDate(today), today);
    MovingSpanMeans(cell2, day + (later - today), v, DaysToDate(later), later);
  }

  /** What the parser takes: four, two and two digits, two dashes, a month and a day up to 31;
      what follows does not matter. */
  lemma ReadsDigits(y: int, m: int, d: int, rest: string)
    requires 0 <= y < 10_000 && 0 <= m < 100 && 0 <= d < 100
    ensures DateToDays(Four(y) + "-" + Two(m) + "-" + Two(d) + rest) ==
      if 1 <= m <= 12 && 1 <= d <= 31 then Some(DaysFromCivil(y, m, d)) else None
  {
    hide DaysFromCivil, Padded, ParseInt;
    var s := Four(y) + "-" + Two(m) + "-" + Two(d) + rest;
    assert s[..4] == Four(y) && s[5..7] == Two(m) && s[8..10] == Two(d);
    ParseFour(y);
    TwoDigits(m);
    TwoDigits(d);
  }

  /** A day past the end of its month is read as a day of the next one. */
  lemma LenientDay(y: int, m: int, d: int)
    requires 0 <= y < 10_000 && 1 <= m <= 12 && 1 <= d <= 31
    ensures DateToDays(Four(y) + "-" + Two(m) + "-" + Two(d)) == Some(DaysFromCivil(y, m, 1) + d - 1)
  {
    ReadsDigits(y, m, d, "");
    assert Four(y) + "-" + Two(m) + "-" + Two(d) + "" == Four(y) + "-" + Two(m) + "-" + Two(d);
  }

  /** Shorter texts and texts without the dashes are no dates. */
  lemma NoDate(s: string)
    requires |s| < 10 || s[4] != '-' || s[7] != '-'
    ensures DateToDays(s) == None
  {
  }

  /** 5 January 1970 was a Monday. */
  lemma FirstMonday()
    ensures DaysFromCivil(1970, 1, 1) == 0 && DaysFromCivil(1970, 1, 5) == 4 && IsMonday(4) && MondayOf(10) == 4
  {
  }

  /** A filter that cannot be resolved selects nothing, and an empty cell is never selected. */
  lemma UnresolvedSelectsNothing(cell: string, filter: Option<Span>, today: string)
    requires || cell == "" || filter.None?
             || (if filter.value.moving then DateToDays(today).None?
                 else || filter.value.from.None? || filter.value.upto.None?
                      || |filter.value.from.value| < 10 || |filter.value.upto.value| < 10)
    ensures !InSpan(cell, filter, today)
  {
  }
}
