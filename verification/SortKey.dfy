/**
  The sortable UTC key of the raw event table (`format_sort_key`): calendar arithmetic,
  the fixed-width text, and the proof that text order is chronological order.

  Instants are nanoseconds counted from 0000-01-01T00:00:00Z in the proleptic Gregorian calendar.
 */
module SortKey {
  import opened Wrappers

  type Instant = int

  const MAX_YEAR := 9999

  // ---------------------------------------------------------------- text order

  /** SQLite's BINARY collation on ASCII text. */
  predicate TextLess(s: string, t: string) {
    |t| > 0 && (|s| == 0 || s[0] < t[0] || (s[0] == t[0] && TextLess(s[1..], t[1..])))
  }

  lemma {:induction false} TextLessConcat(a: string, b: string, s: string, t: string)
    requires |a| == |b|
    ensures TextLess(a + s, b + t) <==> TextLess(a, b) || (a == b && TextLess(s, t))
  {
    if |a| == 0 {
      assert a + s == s && b + t == t;
    } else {
      assert (a + s)[1..] == a[1..] + s && (b + t)[1..] == b[1..] + t;
      assert a == [a[0]] + a[1..] && b == [b[0]] + b[1..];
      TextLessConcat(a[1..], b[1..], s, t);
    }
  }

  lemma {:induction false} TextLessTrichotomy(s: string, t: string)
    ensures TextLess(s, t) || TextLess(t, s) || s == t
    ensures !(TextLess(s, t) && TextLess(t, s))
    ensures !TextLess(s, s)
  {
    if |s| > 0 && |t| > 0 {
      assert s == [s[0]] + s[1..] && t == [t[0]] + t[1..];
      TextLessTrichotomy(s[1..], t[1..]);
    } else if |s| > 0 {
      TextLessTrichotomy(s[1..], s[1..]);
    }
  }

  lemma {:induction false} TextLessTransitive(s: string, t: string, u: string)
    requires TextLess(s, t) && TextLess(t, u)
    ensures TextLess(s, u)
  {
    if |s| > 0 && s[0] == t[0] == u[0] { TextLessTransitive(s[1..], t[1..], u[1..]); }
  }

  // ---------------------------------------------------------------- calendar

  predicate Leap(year: nat) {
    year % 4 == 0 && (year % 100 != 0 || year % 400 == 0)
  }

  function DaysInMonth(year: nat, month: nat): nat {
    if month == 2 then (if Leap(year) then 29 else 28)
    else if month in {4, 6, 9, 11} then 30
    else 31
  }

  /** Days of the year before the first of `month`; month 13 gives the length of the year. */
  function DaysBeforeMonth(year: nat, month: nat): nat {
    if month <= 1 then 0 else DaysBeforeMonth(year, month - 1) + DaysInMonth(year, month - 1)
  }

  function DaysBeforeYear(year: nat): nat {
    if year == 0 then 0 else DaysBeforeYear(year - 1) + DaysBeforeMonth(year - 1, 13)
  }

  datatype Civil = Civil(year: nat, month: nat, day: nat, hour: nat, minute: nat, second: nat, nano: nat) {
    predicate Valid() {
      && 1 <= month <= 12 && 1 <= day <= DaysInMonth(year, month)
      && hour < 24 && minute < 60 && second < 60 && nano < 1_000_000_000
    }

    function DayNumber(): nat
      requires Valid()
    {
      DaysBeforeYear(year) + DaysBeforeMonth(year, month) + (day - 1)
    }

    function ToInstant(): Instant
      requires Valid()
    {
      (((DayNumber() * 24 + hour) * 60 + minute) * 60 + second) * 1_000_000_000 + nano
    }
  }

  /** Years 0000-9999 have 3,652,425 days. */
  const END_OF_RANGE := 3_652_425 * 86_400_000_000_000

  predicate Sortable(i: Instant) {
    0 <= i < END_OF_RANGE
  }

  lemma FoursStep(n: nat)
    ensures (n + 4) / 4 == (n + 3) / 4 + if n % 4 == 0 then 1 else 0
  {
  }

  lemma HundredsStep(n: nat)
    ensures (n + 100) / 100 == (n + 99) / 100 + if n % 100 == 0 then 1 else 0
  {
  }

  lemma FourHundredsStep(n: nat)
    ensures (n + 400) / 400 == (n + 399) / 400 + if n % 400 == 0 then 1 else 0
  {
  }

  lemma MultipleOfFour(n: nat, k: nat)
    requires n == 4 * k
    ensures n % 4 == 0
  {
  }

  lemma MultipleOfHundred(n: nat, k: nat)
    requires n == 100 * k
    ensures n % 100 == 0
  {
  }

  lemma LeapRule(year: nat)
    ensures year % 400 == 0 ==> year % 100 == 0
    ensures year % 100 == 0 ==> year % 4 == 0
  {
    if year % 400 == 0 { MultipleOfHundred(year, 4 * (year / 400)); }
    if year % 100 == 0 { MultipleOfFour(year, 25 * (year / 100)); }
  }

  lemma YearLength(year: nat)
    ensures DaysBeforeMonth(year, 13) == if Leap(year) then 366 else 365
  {
    var february := if Leap(year) then 29 else 28;
    assert DaysBeforeMonth(year, 3) == 31 + february by { assert DaysBeforeMonth(year, 2) == 31; }
    assert DaysBeforeMonth(year, 5) == 92 + february by { assert DaysBeforeMonth(year, 4) == 62 + february; }
    assert DaysBeforeMonth(year, 7) == 153 + february by { assert DaysBeforeMonth(year, 6) == 123 + february; }
    assert DaysBeforeMonth(year, 9) == 215 + february by { assert DaysBeforeMonth(year, 8) == 184 + february; }
    assert DaysBeforeMonth(year, 11) == 276 + february by { assert DaysBeforeMonth(year, 10) == 245 + february; }
    assert DaysBeforeMonth(year, 12) == 306 + february;
  }

  /** The recursive calendar agrees with the closed form of the Gregorian leap rule. */
  lemma {:induction false} DaysBeforeYearClosedForm(year: nat)
    ensures DaysBeforeYear(year) == 365 * year + (year + 3) / 4 - (year + 99) / 100 + (year + 399) / 400
  {
    hide DaysBeforeMonth;
    if year > 0 {
      var previous: nat := year - 1;
      DaysBeforeYearClosedForm(previous);
      YearLength(previous);
      LeapRule(previous);
      FoursStep(previous);
      HundredsStep(previous);
      FourHundredsStep(previous);
    }
  }

  lemma {:induction false} DaysBeforeYearMonotone(a: nat, b: nat)
    requires a < b
    ensures DaysBeforeYear(a) + DaysBeforeMonth(a, 13) <= DaysBeforeYear(b)
    ensures DaysBeforeYear(a) < DaysBeforeYear(b)
    decreases b
  {
    MonthDays(b - 1, 12);
    if a < b - 1 { DaysBeforeYearMonotone(a, b - 1); }
  }

  lemma {:induction false} DaysBeforeMonthMonotone(year: nat, a: nat, b: nat)
    requires 1 <= a < b
    ensures DaysBeforeMonth(year, a) + DaysInMonth(year, a) <= DaysBeforeMonth(year, b)
    decreases b
  {
    if a < b - 1 { DaysBeforeMonthMonotone(year, a, b - 1); }
  }

  lemma MonthDays(year: nat, month: nat)
    requires 1 <= month <= 12
    ensures DaysBeforeMonth(year, month) + DaysInMonth(year, month) <= DaysBeforeMonth(year, 13)
    ensures DaysBeforeMonth(year, 13) > 0
  {
    DaysBeforeMonthMonotone(year, month, 13);
  }

  /** The calendar year containing day `d`, searched upward from `from`. */
  function YearOf(d: nat, from: nat): (y: nat)
    requires DaysBeforeYear(from) <= d
    ensures y >= from && DaysBeforeYear(y) <= d < DaysBeforeYear(y + 1)
    decreases d - DaysBeforeYear(from)
  {
    if d < DaysBeforeYear(from + 1) then from
    else
      DaysBeforeYearMonotone(from, from + 1);
      YearOf(d, from + 1)
  }

  /** The month containing day-of-year `d`, searched upward from `from`. */
  function MonthOf(year: nat, d: nat, from: nat): (m: nat)
    requires 1 <= from <= 12 && DaysBeforeMonth(year, from) <= d < DaysBeforeMonth(year, 13)
    ensures from <= m <= 12 && DaysBeforeMonth(year, m) <= d < DaysBeforeMonth(year, m) + DaysInMonth(year, m)
    decreases 13 - from
  {
    if d < DaysBeforeMonth(year, from) + DaysInMonth(year, from) then from
    else MonthOf(year, d, from + 1)
  }

  lemma TimeOfDaySplit(i: Instant)
    requires i >= 0
    ensures var s := i / 1_000_000_000; var m := s / 60; var h := m / 60; var d := h / 24;
            i == (((d * 24 + h % 24) * 60 + m % 60) * 60 + s % 60) * 1_000_000_000 + i % 1_000_000_000
  {
  }

  /** The UTC calendar fields of an instant (`to_offset(UTC)`): the inverse of `ToInstant`. */
  function CivilOf(i: Instant): (c: Civil)
    requires i >= 0
    ensures c.Valid() && c.ToInstant() == i
  {
    TimeOfDaySplit(i);
    var s := i / 1_000_000_000;
    var m := s / 60;
    var h := m / 60;
    var date := DateOf(h / 24);
    date.(hour := h % 24, minute := m % 60, second := s % 60, nano := i % 1_000_000_000)
  }

  /** Midnight of day `d`. */
  function DateOf(d: nat): (c: Civil)
    ensures c.Valid() && c.DayNumber() == d
  {
    var year := YearOf(d, 0);
    var dayOfYear := d - DaysBeforeYear(year);
    var month := MonthOf(year, dayOfYear, 1);
    Civil(year, month, dayOfYear - DaysBeforeMonth(year, month) + 1, 0, 0, 0, 0)
  }

  lemma DayOrder(a: Civil, b: Civil)
    requires a.Valid() && b.Valid()
    ensures a.DayNumber() < b.DayNumber() <==>
            a.year < b.year || (a.year == b.year && (a.month < b.month || (a.month == b.month && a.day < b.day)))
    ensures a.DayNumber() == b.DayNumber() <==> a.year == b.year && a.month == b.month && a.day == b.day
  {
    MonthDays(a.year, a.month);
    MonthDays(b.year, b.month);
    if a.year < b.year { DaysBeforeYearMonotone(a.year, b.year); }
    if b.year < a.year { DaysBeforeYearMonotone(b.year, a.year); }
    if a.year == b.year && a.month < b.month { DaysBeforeMonthMonotone(a.year, a.month, b.month); }
    if a.year == b.year && b.month < a.month { DaysBeforeMonthMonotone(a.year, b.month, a.month); }
  }

  lemma DaysBeforeUnsupported(year: nat)
    requires year == MAX_YEAR + 1
    ensures DaysBeforeYear(year) == 3_652_425
  {
    hide DaysBeforeYear;
    DaysBeforeYearClosedForm(year);
  }

  lemma DayInRange(c: Civil, firstUnsupported: nat)
    requires c.Valid() && firstUnsupported == MAX_YEAR + 1
    ensures c.year <= MAX_YEAR <==> c.DayNumber() < DaysBeforeYear(firstUnsupported)
  {
    hide DaysBeforeYear, DaysBeforeMonth;
    MonthDays(c.year, c.month);
    if c.year <= MAX_YEAR {
      DaysBeforeYearMonotone(c.year, firstUnsupported);
    } else if c.year > firstUnsupported {
      DaysBeforeYearMonotone(firstUnsupported, c.year);
    }
  }

  /** The key's range in calendar terms; `firstUnsupported` keeps the constant symbolic. */
  lemma YearInRange(c: Civil, firstUnsupported: nat)
    requires c.Valid() && firstUnsupported == MAX_YEAR + 1
    ensures c.year <= MAX_YEAR <==> c.ToInstant() < END_OF_RANGE
  {
    hide DaysBeforeYear, DaysBeforeMonth;
    DaysBeforeUnsupported(firstUnsupported);
    DayInRange(c, firstUnsupported);
  }

  // ---------------------------------------------------------------- fixed-width text

  function Digit(d: nat): char
    requires d < 10
  {
    '0' + d as char
  }

  function Pow10(width: nat): nat {
    if width == 0 then 1 else 10 * Pow10(width - 1)
  }

  /** `{n:0width}` for a number that fits. */
  function Pad(n: nat, width: nat): (s: string)
    ensures |s| == width
  {
    if width == 0 then "" else Pad(n / 10, width - 1) + [Digit(n % 10)]
  }

  lemma {:induction false} PadOrder(m: nat, n: nat, width: nat)
    requires m < Pow10(width) && n < Pow10(width)
    ensures TextLess(Pad(m, width), Pad(n, width)) <==> m < n
    ensures Pad(m, width) == Pad(n, width) <==> m == n
  {
    if width > 0 {
      PadOrder(m / 10, n / 10, width - 1);
      var x, y := [Digit(m % 10)], [Digit(n % 10)];
      TextLessConcat(Pad(m / 10, width - 1), Pad(n / 10, width - 1), x, y);
      assert Pad(m, width)[width - 1] == x[0] && Pad(n, width)[width - 1] == y[0];
      assert Pad(m, width)[..width - 1] == Pad(m / 10, width - 1);
      assert Pad(n, width)[..width - 1] == Pad(n / 10, width - 1);
    }
  }

  /** A zero-padded field, its separator, and the rest of the text: order is field first, then rest. */
  lemma FieldOrder(m: nat, n: nat, width: nat, sep: string, s: string, t: string)
    requires m < Pow10(width) && n < Pow10(width)
    ensures TextLess(Pad(m, width) + (sep + s), Pad(n, width) + (sep + t)) <==> m < n || (m == n && TextLess(s, t))
    ensures Pad(m, width) + (sep + s) == Pad(n, width) + (sep + t) <==> m == n && s == t
  {
    PadOrder(m, n, width);
    TextLessConcat(Pad(m, width), Pad(n, width), sep + s, sep + t);
    TextLessConcat(sep, sep, s, t);
    TextLessTrichotomy(sep, sep);
    var u, v := Pad(m, width) + (sep + s), Pad(n, width) + (sep + t);
    assert u[..width] == Pad(m, width) && v[..width] == Pad(n, width);
    assert u[width + |sep|..] == s && v[width + |sep|..] == t;
  }

  function TimeText(c: Civil): string {
    Pad(c.hour, 2) + (":" + (Pad(c.minute, 2) + (":" + (Pad(c.second, 2) + ("." + (Pad(c.nano, 9) + ("Z" + "")))))))
  }

  /** `YYYY-MM-DDTHH:MM:SS.nnnnnnnnnZ`. */
  function CivilText(c: Civil): string {
    Pad(c.year, 4) + ("-" + (Pad(c.month, 2) + ("-" + (Pad(c.day, 2) + ("T" + TimeText(c))))))
  }

  lemma PowersOfTen()
    ensures Pow10(2) == 100 && Pow10(4) == 10_000 && Pow10(9) == 1_000_000_000
  {
    assert Pow10(3) == 1000;
    assert Pow10(5) == 100_000;
    assert Pow10(7) == 10_000_000;
  }

  lemma TimeTextOrder(a: Civil, b: Civil)
    requires a.Valid() && b.Valid()
    ensures TextLess(TimeText(a), TimeText(b)) <==>
            a.hour < b.hour || (a.hour == b.hour && (a.minute < b.minute || (a.minute == b.minute &&
              (a.second < b.second || (a.second == b.second && a.nano < b.nano)))))
    ensures TimeText(a) == TimeText(b) <==>
              (a.hour == b.hour && a.minute == b.minute && a.second == b.second && a.nano == b.nano)
  {
    PowersOfTen();
    var fa := Pad(a.nano, 9) + ("Z" + "");
    var fb := Pad(b.nano, 9) + ("Z" + "");
    FieldOrder(a.nano, b.nano, 9, "Z", "", "");
    FieldOrder(a.second, b.second, 2, ".", fa, fb);
    var sa, sb := Pad(a.second, 2) + ("." + fa), Pad(b.second, 2) + ("." + fb);
    FieldOrder(a.minute, b.minute, 2, ":", sa, sb);
    FieldOrder(a.hour, b.hour, 2, ":", Pad(a.minute, 2) + (":" + sa), Pad(b.minute, 2) + (":" + sb));
  }

  lemma InstantOrder(a: Civil, b: Civil)
    requires a.Valid() && b.Valid()
    ensures a.ToInstant() < b.ToInstant() <==>
            a.DayNumber() < b.DayNumber() || (a.DayNumber() == b.DayNumber() &&
              (a.hour < b.hour || (a.hour == b.hour && (a.minute < b.minute || (a.minute == b.minute &&
                (a.second < b.second || (a.second == b.second && a.nano < b.nano)))))))
    ensures a.ToInstant() == b.ToInstant() <==>
            && a.DayNumber() == b.DayNumber() && a.hour == b.hour && a.minute == b.minute && a.second == b.second
            && a.nano == b.nano
  {
  }

  lemma CivilTextOrder(a: Civil, b: Civil)
    requires a.Valid() && b.Valid() && a.year <= MAX_YEAR && b.year <= MAX_YEAR
    ensures TextLess(CivilText(a), CivilText(b)) <==> a.ToInstant() < b.ToInstant()
    ensures CivilText(a) == CivilText(b) <==> a.ToInstant() == b.ToInstant()
  {
    hide TextLess, Pad, TimeText, DaysBeforeYear, DaysBeforeMonth;
    PowersOfTen();
    TimeTextOrder(a, b);
    DayOrder(a, b);
    InstantOrder(a, b);
    FieldOrder(a.day, b.day, 2, "T", TimeText(a), TimeText(b));
    var da, db := Pad(a.day, 2) + ("T" + TimeText(a)), Pad(b.day, 2) + ("T" + TimeText(b));
    FieldOrder(a.month, b.month, 2, "-", da, db);
    FieldOrder(a.year, b.year, 4, "-", Pad(a.month, 2) + ("-" + da), Pad(b.month, 2) + ("-" + db));
  }

  // ---------------------------------------------------------------- the key

  datatype KeyError = TimestampOutOfSortableRange

  /** `format_sort_key`: exactly the instants of years 0000-9999 have a key, and keys have one width. */
  function FormatSortKey(i: Instant): (r: Result<string, KeyError>)
    ensures r.Ok? <==> Sortable(i)
    ensures r.Ok? ==> |r.value| == 30
  {
    if i < 0 then Err(TimestampOutOfSortableRange)
    else
      var utc := CivilOf(i);
      YearInRange(utc, MAX_YEAR + 1);
      if utc.year > MAX_YEAR then Err(TimestampOutOfSortableRange) else Ok(CivilText(utc))
  }

  /** The key of an instant that has one. */
  function KeyOf(i: Instant): string
    requires Sortable(i)
  {
    FormatSortKey(i).value
  }

  /** Text order of keys is chronological order, and distinct instants have distinct keys. */
  lemma KeyIsOrderEmbedding(i: Instant, j: Instant)
    requires Sortable(i) && Sortable(j)
    ensures TextLess(KeyOf(i), KeyOf(j)) <==> i < j
    ensures KeyOf(i) == KeyOf(j) <==> i == j
  {
    hide CivilOf, CivilText, TextLess;
    YearInRange(CivilOf(i), MAX_YEAR + 1);
    YearInRange(CivilOf(j), MAX_YEAR + 1);
    CivilTextOrder(CivilOf(i), CivilOf(j));
  }

  // ---------------------------------------------------------------- what a key says

  /** The decimal number a text of digits stands for. */
  function Decimal(s: string): int {
    if |s| == 0 then 0 else 10 * Decimal(s[..|s| - 1]) + (s[|s| - 1] as int - '0' as int)
  }

  lemma {:induction false} DecimalOfPad(n: nat, width: nat)
    requires n < Pow10(width)
    ensures Decimal(Pad(n, width)) == n && forall c <- Pad(n, width) :: '0' <= c <= '9'
  {
    if width > 0 {
      DecimalOfPad(n / 10, width - 1);
      var s := Pad(n, width);
      assert s[..width - 1] == Pad(n / 10, width - 1) && s[width - 1] == Digit(n % 10);
    }
  }

  /** Days of the year before a month, in closed form. */
  lemma DaysBeforeMonthClosedForm(year: nat, month: nat)
    requires 1 <= month <= 12
    ensures DaysBeforeMonth(year, month) ==
            (367 * month - 362) / 12
            - (if month <= 2 then 0 else if year % 4 == 0 && (year % 100 != 0 || year % 400 == 0) then 1 else 2)
  {
    assert forall m: nat :: m > 1 ==>
        DaysBeforeMonth(year, m) == DaysBeforeMonth(year, m - 1) + DaysInMonth(year, m - 1);
    assert DaysBeforeMonth(year, 1) == 0;
    assert DaysBeforeMonth(year, 2) == 31;
    var feb := if Leap(year) then 29 else 28;
    assert DaysBeforeMonth(year, 3) == 31 + feb;
    assert DaysBeforeMonth(year, 4) == 62 + feb;
    assert DaysBeforeMonth(year, 5) == 92 + feb;
    assert DaysBeforeMonth(year, 6) == 123 + feb;
    assert DaysBeforeMonth(year, 7) == 153 + feb;
    assert DaysBeforeMonth(year, 8) == 184 + feb;
    assert DaysBeforeMonth(year, 9) == 215 + feb;
    assert DaysBeforeMonth(year, 10) == 245 + feb;
    assert DaysBeforeMonth(year, 11) == 276 + feb;
    assert DaysBeforeMonth(year, 12) == 306 + feb;
  }

  /** The fields of a key, read off its text: the date and time that are this instant, by the calendar in closed form.
      */
  lemma KeyReadsBack(i: Instant)
    requires Sortable(i)
    ensures var k := KeyOf(i);
      && k[4] == '-' && k[7] == '-' && k[10] == 'T' && k[13] == ':' && k[16] == ':' && k[19] == '.' && k[29] == 'Z'
      && var year, month, day := Decimal(k[0..4]), Decimal(k[5..7]), Decimal(k[8..10]);
      var hour, minute, second, nano := Decimal(k[11..13]), Decimal(k[14..16]), Decimal(k[17..19]), Decimal(k[20..29]);
      && 0 <= year <= 9999 && 1 <= month <= 12 && 1 <= day <= 31
      && 0 <= hour < 24 && 0 <= minute < 60 && 0 <= second < 60 && 0 <= nano < 1_000_000_000
      && var leap := year % 4 == 0 && (year % 100 != 0 || year % 400 == 0);
      var days := 365 * year + (year + 3) / 4 - (year + 99) / 100 + (year + 399) / 400
                  + (367 * month - 362) / 12 - (if month <= 2 then 0 else if leap then 1 else 2) + day - 1;
      i == (((days * 24 + hour) * 60 + minute) * 60 + second) * 1_000_000_000 + nano
  {
    hide CivilOf, DaysBeforeYear, DaysBeforeMonth, TextLess, Decimal, Pad, TimeText, CivilText;
    var c, k := CivilOf(i), KeyOf(i);
    YearInRange(c, MAX_YEAR + 1);
    KeyFields(c);
    DaysBeforeYearClosedForm(c.year);
    DaysBeforeMonthClosedForm(c.year, c.month);
  }

  lemma KeyFields(c: Civil)
    requires c.Valid() && c.year <= 9999
    ensures var k := CivilText(c);
      && |k| == 30
      && k[4] == '-' && k[7] == '-' && k[10] == 'T' && k[13] == ':' && k[16] == ':' && k[19] == '.' && k[29] == 'Z'
      && Decimal(k[0..4]) == c.year && Decimal(k[5..7]) == c.month && Decimal(k[8..10]) == c.day
      && Decimal(k[11..13]) == c.hour && Decimal(k[14..16]) == c.minute && Decimal(k[17..19]) == c.second
      && Decimal(k[20..29]) == c.nano
  {
    hide Decimal, Pad, TimeText;
    PowersOfTen();
    DecimalOfPad(c.year, 4);
    DecimalOfPad(c.month, 2);
    DecimalOfPad(c.day, 2);
    TimeFields(c);
    var k, time := CivilText(c), TimeText(c);
    assert k[0..4] == Pad(c.year, 4) && k[5..7] == Pad(c.month, 2) && k[8..10] == Pad(c.day, 2);
    assert k[11..] == time;
    assert k[11..13] == time[0..2] && k[14..16] == time[3..5] && k[17..19] == time[6..8] && k[20..29] == time[9..18];
    assert k[13] == time[2] && k[16] == time[5] && k[19] == time[8] && k[29] == time[18];
  }

  lemma TimeFields(c: Civil)
    requires c.Valid()
    ensures var time := TimeText(c);
      && |time| == 19 && time[2] == ':' && time[5] == ':' && time[8] == '.' && time[18] == 'Z'
      && Decimal(time[0..2]) == c.hour && Decimal(time[3..5]) == c.minute && Decimal(time[6..8]) == c.second
      && Decimal(time[9..18]) == c.nano
  {
    hide Decimal, Pad;
    PowersOfTen();
    DecimalOfPad(c.hour, 2);
    DecimalOfPad(c.minute, 2);
    DecimalOfPad(c.second, 2);
    DecimalOfPad(c.nano, 9);
    var time := TimeText(c);
    assert time[0..2] == Pad(c.hour, 2) && time[3..5] == Pad(c.minute, 2) && time[6..8] == Pad(c.second, 2);
    assert time[9..18] == Pad(c.nano, 9);
  }
}
