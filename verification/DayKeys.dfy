/** Day keys: the `YYYY-MM-DD` strings that index the calendar
    (apps/web/src/lib/format.ts). Instants are milliseconds since the epoch and the
    browser's zone is a constant offset. */
module DayKeys {
  import opened Utf16
  import opened Digits
  import opened Numerals
  import opened Gregorian

  const DASH: Text := [0x2D]

  /** `String(n)` for any integer. */
  function IntText(n: int): Text {
    if n < 0 then DASH + Decimal(-n) else Decimal(n)
  }

  function Pad2(n: nat): Text {
    PadStart(Decimal(n), 2)
  }

  function KeyOf(year: Text, day: int): Text {
    year + (DASH + (Pad2(MonthOf(day) + 1) + (DASH + Pad2(DateOf(day)))))
  }

  /** The key both `monthGridDays` and `localDayKey` write. */
  function DayKey(day: int): Text {
    KeyOf(IntText(YearOf(day)), day)
  }

  function LocalDay(t: int, offset: int): int {
    (t + offset) / MS_PER_DAY
  }

  function UtcDay(t: int): int {
    LocalDay(t, 0)
  }

  function LocalDayKey(t: int, offset: int): Text {
    DayKey(LocalDay(t, offset))
  }

  /** The year as `toISOString` writes it: four digits, or a sign and six digits
      (sections 15.9.1.15 and 15.9.1.15.1 of ECMA-262 5.1). */
  function IsoYear(year: int): Text {
    if 0 <= year <= 9999 then PadStart(Decimal(year), 4)
    else if year < 0 then DASH + PadStart(Decimal(-year), 6)
    else [0x2B] + PadStart(Decimal(year), 6)
  }

  const COLON: Text := [0x3A]
  const TIME := [Field(2, COLON), Field(2, COLON), Field(2, [0x2E]), Field(3, [0x5A])]

  function TimeValues(ms: nat): seq<nat> {
    [ms / 3_600_000, ms / 60_000 % 60, ms / 1000 % 60, ms % 1000]
  }

  function IsoTime(ms: nat): Text {
    [0x54] + Render(TIME, TimeValues(ms))
  }

  function IsoString(t: int): Text {
    KeyOf(IsoYear(YearOf(UtcDay(t))), UtcDay(t)) + IsoTime(t % MS_PER_DAY)
  }

  /** `iso.slice(0, 10)`. */
  function UtcDayKey(iso: Text): Text {
    if |iso| <= 10 then iso else iso[..10]
  }

  // ---- digits of two and four figures ----

  lemma TwoFigures(n: nat)
    requires n < 100
    ensures Pad2(n) == [0x30 + n / 10, 0x30 + n % 10]
  {
    if n < 10 {
      assert PadStart([0x30 + n], 2) == PadStart([0x30] + [0x30 + n], 2);
    } else {
      assert Decimal(n / 10) == [0x30 + n / 10];
    }
  }

  /** Dates are two figures, so a key is its year and six more characters. */
  lemma KeyShape(year: Text, day: int)
    ensures var m, d := MonthOf(day) + 1, DateOf(day);
            KeyOf(year, day) == year + [0x2D, 0x30 + m / 10, 0x30 + m % 10, 0x2D, 0x30 + d / 10, 0x30 + d % 10]
  {
    hide MonthOf, DateOf, Pad2;
    var m, d := MonthOf(day) + 1, DateOf(day);
    TwoFigures(m);
    TwoFigures(d);
    var tail := DASH + (Pad2(m) + (DASH + Pad2(d)));
    assert tail == [0x2D, 0x30 + m / 10, 0x30 + m % 10, 0x2D, 0x30 + d / 10, 0x30 + d % 10];
    assert KeyOf(year, day) == year + tail;
    hide *;
  }

  /** A key is the year as printed, then `-`, two figures for the month counted from
      one, `-`, and two figures for the date. */
  lemma KeyIsSpelled(day: int)
    ensures var (k, n) := (DayKey(day), |DayKey(day)| - 6);
            var (month, date) := (MonthOf(day) + 1, DateOf(day));
            && n > 0
            && k[..n] == (if YearOf(day) < 0 then ['-' as int] + Decimal(-YearOf(day)) else Decimal(YearOf(day)))
            && k[n] == '-' as int && k[n + 3] == '-' as int
            && 0 <= k[n + 1] - '0' as int < 10 && 0 <= k[n + 2] - '0' as int < 10
            && 0 <= k[n + 4] - '0' as int < 10 && 0 <= k[n + 5] - '0' as int < 10
            && month == 10 * (k[n + 1] - '0' as int) + (k[n + 2] - '0' as int)
            && date == 10 * (k[n + 4] - '0' as int) + (k[n + 5] - '0' as int)
  {
    KeyShape(IntText(YearOf(day)), day);
    hide KeyOf, YearOf, MonthOf, DateOf, Decimal;
  }

  /** The local day of an instant is the number of whole days before it. */
  lemma LocalDayIsFloor(t: int, offset: int)
    ensures LocalDay(t, offset) * 86_400_000 <= t + offset < (LocalDay(t, offset) + 1) * 86_400_000
  {
  }

  // ---- keys are injective ----

  lemma YearTextIsInjective(y: int, z: int)
    requires IntText(y) == IntText(z)
    ensures y == z
  {
    if y >= 0 { assert IsDigit(Decimal(y)[0]); }
    if z >= 0 { assert IsDigit(Decimal(z)[0]); }
    if y < 0 && z < 0 {
      assert IntText(y)[1..] == Decimal(-y) && IntText(z)[1..] == Decimal(-z);
      DecimalIsInjective(-y, -z);
    } else if y >= 0 && z >= 0 {
      DecimalIsInjective(y, z);
    }
  }

  lemma KeyParts(y: Text, a: int, z: Text, b: int)
    requires KeyOf(y, a) == KeyOf(z, b)
    ensures y == z && MonthOf(a) == MonthOf(b) && DateOf(a) == DateOf(b)
  {
    KeyShape(y, a);
    KeyShape(z, b);
    hide KeyOf, MonthOf, DateOf;
    var k, n := KeyOf(y, a), |y|;
    assert |z| == n;
    assert y == k[..n] && z == k[..n];
    assert k[n + 1] == 0x30 + (MonthOf(a) + 1) / 10 == 0x30 + (MonthOf(b) + 1) / 10;
    assert k[n + 2] == 0x30 + (MonthOf(a) + 1) % 10 == 0x30 + (MonthOf(b) + 1) % 10;
    assert k[n + 4] == 0x30 + DateOf(a) / 10 == 0x30 + DateOf(b) / 10;
    assert k[n + 5] == 0x30 + DateOf(a) % 10 == 0x30 + DateOf(b) % 10;
  }

  /** Different days have different keys. */
  lemma DayKeyIsInjective(a: int, b: int)
    requires DayKey(a) == DayKey(b)
    ensures a == b
  {
    hide KeyOf, IntText, YearOf, MonthOf, DateOf;
    KeyParts(IntText(YearOf(a)), a, IntText(YearOf(b)), b);
    YearTextIsInjective(YearOf(a), YearOf(b));
    SameDateSameDay(a, b);
  }

  // ---- the order of keys ----

  function Date(width: nat): seq<Field> {
    [Field(width, DASH), Field(2, DASH), Field(2, [])]
  }

  function DateValues(year: nat, day: int): seq<nat> {
    [year, MonthOf(day) + 1, DateOf(day)]
  }

  /** A key with a padded year is that year, the month and the date, padded. */
  lemma KeyIsRendered(width: nat, year: nat, day: int)
    ensures KeyOf(PadStart(Decimal(year), width), day) == Render(Date(width), DateValues(year, day))
    ensures |Decimal(year)| <= width ==> Fits(Date(width), DateValues(year, day))
  {
    var m, d := MonthOf(day) + 1, DateOf(day);
    hide YearOf, MonthOf, DateOf, Decimal, PadStart;
    FigureCount(m);
    FigureCount(d);
    assert Render(Date(width)[2..], [d]) == Pad2(d);
    assert [m, d][1..] == [d] && [year, m, d][1..] == [m, d];
    assert Render(Date(width)[1..], [m, d]) == Pad2(m) + (DASH + Pad2(d));
  }

  lemma EarlierValues(y: nat, a: int, z: nat, b: int)
    requires y < z || (y == z && YearOf(a) == YearOf(b) && a < b)
    ensures Before(DateValues(y, a), DateValues(z, b))
  {
    hide YearOf, MonthOf, DateOf, Before;
    DateOrder(a, b);
    BeforeAt(DateValues(y, a), DateValues(z, b), if y < z then 0 else if MonthOf(a) < MonthOf(b) then 1 else 2);
  }

  lemma EarlierKey(a: int, b: int)
    requires 1000 <= YearOf(a) && YearOf(b) <= 9999 && a < b
    ensures Less(DayKey(a), DayKey(b)) && !Less(DayKey(b), DayKey(a))
  {
    hide DayKey, YearOf, MonthOf, DateOf, Less, Fits, Render, Decimal, KeyOf;
    DateOrder(a, b);
    FourFigureKey(a);
    FourFigureKey(b);
    EarlierValues(YearOf(a), a, YearOf(b), b);
    RenderAscends(Date(4), DateValues(YearOf(a), a), DateValues(YearOf(b), b));
  }

  lemma FourFigureKey(day: int)
    requires 1000 <= YearOf(day) <= 9999
    ensures DayKey(day) == Render(Date(4), DateValues(YearOf(day), day))
    ensures Fits(Date(4), DateValues(YearOf(day), day))
  {
    hide YearOf, MonthOf, DateOf, Render, Decimal, KeyOf, Fits, PadStart;
    KeyIsRendered(4, YearOf(day), day);
    FigureCount(YearOf(day));
    PadKeepsLong(YearOf(day));
  }

  /** For four-figure years the string order of keys is the order of days. */
  lemma KeyOrderIsDayOrder(a: int, b: int)
    requires 1000 <= YearOf(a) <= 9999 && 1000 <= YearOf(b) <= 9999
    ensures Less(DayKey(a), DayKey(b)) <==> a < b
  {
    hide *;
    if a < b {
      EarlierKey(a, b);
    } else if b < a {
      EarlierKey(b, a);
    } else {
      NotLessItself(DayKey(a));
    }
  }

  // ---- UTC keys ----

  lemma UtcKeyIsPrefix(t: int)
    ensures var date := KeyOf(IsoYear(YearOf(UtcDay(t))), UtcDay(t));
            |date| >= 10 && UtcDayKey(IsoString(t)) == date[..10]
  {
    var day := UtcDay(t);
    KeyShape(IsoYear(YearOf(day)), day);
    IsoYearShape(YearOf(day));
    hide YearOf, MonthOf, DateOf, UtcDay, KeyOf, IsoYear;
  }

  lemma IsoYearShape(year: int)
    ensures var text := IsoYear(year);
            if 0 <= year <= 9999 then text == PadStart(Decimal(year), 4) && |text| == 4 && IsDigit(text[0])
            else |text| >= 7 && text[0] == (if year < 0 then 0x2D else 0x2B) && IsDigit(text[4])
  {
    if 0 <= year { FigureCount(year); }
    var digits := Decimal(if year < 0 then -year else year);
    PadKeeps(digits, if 0 <= year <= 9999 then 4 else 6);
    NumberOfPadded(digits, if 0 <= year <= 9999 then 4 else 6);
    hide Decimal, PadStart, IsDigit;
  }

  /** A UTC key is ten characters: the date of a four-digit year, or the start of a
      signed one. */
  lemma UtcKeyShape(t: int)
    ensures var year := YearOf(UtcDay(t));
            var key := UtcDayKey(IsoString(t));
            && |key| == 10
            && (0 <= year <= 9999 ==> key == KeyOf(PadStart(Decimal(year), 4), UtcDay(t)) && IsDigit(key[0]))
            && (year > 9999 ==> key[0] == 0x2B)
            && (year < 0 ==> key[0] == 0x2D && IsDigit(key[4]))
  {
    hide *;
    var year := YearOf(UtcDay(t));
    UtcKeyIsPrefix(t);
    IsoYearShape(year);
    KeyShape(IsoYear(year), UtcDay(t));
  }

  /** Years that a `Date` can hold, and more: at most six figures. */
  predicate SixFigures(year: int) {
    -1_000_000 < year < 1_000_000
  }

  lemma LongIsoYear(year: int)
    requires SixFigures(year) && !(0 <= year <= 9999)
    ensures IsoYear(year) == [if year < 0 then 0x2D else 0x2B] + PadStart(Decimal(if year < 0 then -year else year), 6)
    ensures |IsoYear(year)| == 7
  {
    var n: nat := if year < 0 then -year else year;
    FigureCount(n);
    PadKeeps(Decimal(n), 6);
    hide PadStart, Decimal;
  }

  lemma SameLongYear(y: int, z: int)
    requires SixFigures(y) && !(0 <= y <= 9999) && SixFigures(z) && !(0 <= z <= 9999) && IsoYear(y) == IsoYear(z)
    ensures y == z
  {
    LongIsoYear(y);
    LongIsoYear(z);
    hide PadStart, Decimal, IsoYear;
    var m: nat, n: nat := if y < 0 then -y else y, if z < 0 then -z else z;
    assert IsoYear(y)[1..] == PadStart(Decimal(m), 6) && IsoYear(z)[1..] == PadStart(Decimal(n), 6);
    PadIsInjective(m, n, 6);
  }

  /** With a signed year there is no room for the date. */
  lemma LongKey(t: int)
    requires SixFigures(YearOf(UtcDay(t))) && !(0 <= YearOf(UtcDay(t)) <= 9999)
    ensures var m := MonthOf(UtcDay(t)) + 1;
            UtcDayKey(IsoString(t)) == IsoYear(YearOf(UtcDay(t))) + [0x2D, 0x30 + m / 10, 0x30 + m % 10]
  {
    hide YearOf, MonthOf, DateOf, KeyOf, UtcDay, UtcDayKey, IsoString, IsoYear;
    UtcKeyIsPrefix(t);
    LongIsoYear(YearOf(UtcDay(t)));
    KeyShape(IsoYear(YearOf(UtcDay(t))), UtcDay(t));
  }

  lemma SameLongKey(t: int, u: int)
    requires SixFigures(YearOf(UtcDay(t))) && !(0 <= YearOf(UtcDay(t)) <= 9999)
    requires SixFigures(YearOf(UtcDay(u))) && !(0 <= YearOf(UtcDay(u)) <= 9999)
    ensures UtcDayKey(IsoString(t)) == UtcDayKey(IsoString(u)) <==>
            YearOf(UtcDay(t)) == YearOf(UtcDay(u)) && MonthOf(UtcDay(t)) == MonthOf(UtcDay(u))
  {
    hide YearOf, MonthOf, UtcDay, UtcDayKey, IsoString, IsoYear;
    LongKey(t);
    LongKey(u);
    LongIsoYear(YearOf(UtcDay(t)));
    LongIsoYear(YearOf(UtcDay(u)));
    var k, l := UtcDayKey(IsoString(t)), UtcDayKey(IsoString(u));
    if k == l {
      assert IsoYear(YearOf(UtcDay(t))) == k[..7] && IsoYear(YearOf(UtcDay(u))) == l[..7];
      SameLongYear(YearOf(UtcDay(t)), YearOf(UtcDay(u)));
      assert k[8] == 0x30 + (MonthOf(UtcDay(t)) + 1) / 10 && k[9] == 0x30 + (MonthOf(UtcDay(t)) + 1) % 10;
      assert l[8] == 0x30 + (MonthOf(UtcDay(u)) + 1) / 10 && l[9] == 0x30 + (MonthOf(UtcDay(u)) + 1) % 10;
    }
  }

  lemma SameShortKey(t: int, u: int)
    requires 0 <= YearOf(UtcDay(t)) <= 9999 && 0 <= YearOf(UtcDay(u)) <= 9999
    ensures UtcDayKey(IsoString(t)) == UtcDayKey(IsoString(u)) ==> UtcDay(t) == UtcDay(u)
    ensures UtcDay(t) == UtcDay(u) ==> UtcDayKey(IsoString(t)) == UtcDayKey(IsoString(u))
  {
    UtcKeyShape(t);
    UtcKeyShape(u);
    var a, b := UtcDay(t), UtcDay(u);
    hide UtcDay, YearOf, MonthOf, DateOf, KeyOf, IsoString, Decimal, PadStart;
    if UtcDayKey(IsoString(t)) == UtcDayKey(IsoString(u)) {
      KeyParts(PadStart(Decimal(YearOf(a)), 4), a, PadStart(Decimal(YearOf(b)), 4), b);
      PadIsInjective(YearOf(a), YearOf(b), 4);
      SameDateSameDay(a, b);
    }
  }

  /** Two instants have one UTC key exactly when they lie on the same UTC day or,
      where the year needs a sign, in the same month: its date is cut off. */
  lemma SameUtcKey(t: int, u: int)
    requires SixFigures(YearOf(UtcDay(t))) && SixFigures(YearOf(UtcDay(u)))
    ensures var (a, b) := (UtcDay(t), UtcDay(u));
            UtcDayKey(IsoString(t)) == UtcDayKey(IsoString(u)) <==>
            a == b || (YearOf(a) == YearOf(b) && MonthOf(a) == MonthOf(b) && !(0 <= YearOf(a) <= 9999))
  {
    hide UtcDay, YearOf, MonthOf, UtcDayKey, IsoString, KeyOf;
    var y, z := YearOf(UtcDay(t)), YearOf(UtcDay(u));
    if 0 <= y <= 9999 && 0 <= z <= 9999 {
      SameShortKey(t, u);
    } else if 0 <= y <= 9999 || 0 <= z <= 9999 {
      UtcKeyShape(t);
      UtcKeyShape(u);
    } else {
      SameLongKey(t, u);
    }
  }

  /** A local key of ten characters has a year of four figures, or of a sign and three. */
  lemma TenCharacterKey(day: int)
    requires |DayKey(day)| == 10
    ensures if YearOf(day) < 0 then DayKey(day)[0] == 0x2D == DayKey(day)[4] else 1000 <= YearOf(day) <= 9999
    ensures YearOf(day) >= 0 ==> IsDigit(DayKey(day)[0])
  {
    var year := YearOf(day);
    KeyShape(IntText(year), day);
    FigureCount(if year < 0 then -year else year);
    hide YearOf, MonthOf, DateOf, KeyOf;
  }

  /** Only the days of four-figure years have a local key that is also a UTC key. */
  lemma SharedKeyIsFourFigure(t: int, day: int)
    requires UtcDayKey(IsoString(t)) == DayKey(day)
    ensures 1000 <= YearOf(day) <= 9999 && 0 <= YearOf(UtcDay(t)) <= 9999
  {
    UtcKeyShape(t);
    TenCharacterKey(day);
    hide YearOf, UtcDay, UtcDayKey, IsoString, DayKey, KeyOf;
  }

  /** The UTC key of an instant is the local key of a day exactly when that is its
      UTC day and the year is one that `getFullYear` prints with four figures. */
  lemma UtcKeyIsDayKey(t: int, day: int)
    ensures UtcDayKey(IsoString(t)) == DayKey(day) <==> UtcDay(t) == day && 1000 <= YearOf(day) <= 9999
  {
    var year := YearOf(UtcDay(t));
    UtcKeyShape(t);
    if UtcDayKey(IsoString(t)) == DayKey(day) {
      SharedKeyIsFourFigure(t, day);
      hide UtcDay, YearOf, MonthOf, DateOf, KeyOf, IsoString, Decimal, PadStart;
      KeyParts(PadStart(Decimal(year), 4), UtcDay(t), IntText(YearOf(day)), day);
      PadKeepsLong(YearOf(day));
      PadIsInjective(year, YearOf(day), 4);
      SameDateSameDay(UtcDay(t), day);
    } else if UtcDay(t) == day && 1000 <= YearOf(day) <= 9999 {
      hide UtcDay, YearOf, MonthOf, DateOf, KeyOf, IsoString, Decimal, PadStart;
      PadKeepsLong(year);
    }
  }

  /** At offset zero the local and the UTC key of an instant agree exactly in the
      years that `getFullYear` prints with four figures. */
  lemma LocalAgreesWithUtc(t: int)
    ensures LocalDayKey(t, 0) == UtcDayKey(IsoString(t)) <==> 1000 <= YearOf(UtcDay(t)) <= 9999
  {
    UtcKeyIsDayKey(t, UtcDay(t));
    hide YearOf, IsoString, UtcDayKey, DayKey;
  }
}
