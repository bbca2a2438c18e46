/** Timestamps are compared as strings, by the range queries of the server
    (libs/backend/calendar/src/calendar-events.service.ts) and by the client
    (apps/web/src/lib/mergePeople.ts). Here: when that is comparing instants. */
module IsoTimes {
  import opened Utf16
  import opened Digits
  import opened Numerals
  import opened Gregorian
  import opened DayKeys

  function Year(t: int): int {
    YearOf(UtcDay(t))
  }

  function Sign(year: int): Text {
    if 0 <= year <= 9999 then [] else if year < 0 then DASH else [0x2B]
  }

  function Width(year: int): nat {
    if 0 <= year <= 9999 then 4 else 6
  }

  function Magnitude(year: int): nat {
    if year < 0 then -year else year
  }

  function DateText(t: int): Text {
    Render(Date(Width(Year(t))), DateValues(Magnitude(Year(t)), UtcDay(t)))
  }

  /** A timestamp is its sign, if any, its padded date and its time. */
  lemma IsoParts(t: int)
    ensures IsoString(t) == Sign(Year(t)) + (DateText(t) + IsoTime(t % MS_PER_DAY))
  {
    var year, day := Year(t), UtcDay(t);
    var padded := PadStart(Decimal(Magnitude(year)), Width(year));
    var time := IsoTime(t % MS_PER_DAY);
    IsoSplit(t);
    hide *;
    IsoYearParts(year);
    KeyIsRendered(Width(year), Magnitude(year), day);
    KeyAfterSign(Sign(year), padded, day);
    Assoc(Sign(year), KeyOf(padded, day), time);
  }

  lemma IsoSplit(t: int)
    ensures IsoString(t) == KeyOf(IsoYear(Year(t)), UtcDay(t)) + IsoTime(t % MS_PER_DAY)
    ensures DateText(t) == Render(Date(Width(Year(t))), DateValues(Magnitude(Year(t)), UtcDay(t)))
  {
    hide YearOf, UtcDay, KeyOf, IsoTime, IsoYear, Render, Date, DateValues;
  }

  lemma IsoYearParts(year: int)
    ensures IsoYear(year) == Sign(year) + PadStart(Decimal(Magnitude(year)), Width(year))
  {
    hide PadStart, Decimal;
  }

  lemma KeyAfterSign(sign: Text, year: Text, day: int)
    ensures KeyOf(sign + year, day) == sign + KeyOf(year, day)
  {
    hide MonthOf, DateOf, Pad2;
    var tail := DASH + (Pad2(MonthOf(day) + 1) + (DASH + Pad2(DateOf(day))));
    assert KeyOf(sign + year, day) == (sign + year) + tail && KeyOf(year, day) == year + tail;
    Assoc(sign, year, tail);
  }

  /** A time of day as it is written. */
  datatype Clock = Clock(hours: nat, minutes: nat, seconds: nat, millis: nat) {
    predicate Proper() {
      minutes < 60 && seconds < 60 && millis < 1000
    }

    function Ms(): nat {
      1000 * (60 * (60 * hours + minutes) + seconds) + millis
    }

    predicate Precedes(other: Clock) {
      || hours < other.hours
      || (hours == other.hours && minutes < other.minutes)
      || (hours == other.hours && minutes == other.minutes && seconds < other.seconds)
      || (hours == other.hours && minutes == other.minutes && seconds == other.seconds && millis < other.millis)
    }
  }

  function ClockAt(ms: nat): Clock {
    Clock(ms / 3_600_000, ms / 60_000 % 60, ms / 1000 % 60, ms % 1000)
  }

  lemma ClockTells(ms: nat)
    ensures ClockAt(ms).Proper() && ClockAt(ms).Ms() == ms
  {
    TimeSplit(ms);
  }

  lemma TimeSplit(ms: nat)
    ensures ms / 60_000 == 60 * (ms / 3_600_000) + ms / 60_000 % 60
    ensures ms / 1000 == 60 * (ms / 60_000) + ms / 1000 % 60
    ensures ms == 1000 * (ms / 1000) + ms % 1000
  {
  }

  lemma ClockOrder(a: Clock, b: Clock)
    requires a.Proper() && b.Proper() && a.Ms() < b.Ms()
    ensures a.Precedes(b)
  {
  }

  lemma EarlierTimeValues(a: nat, b: nat)
    requires a < b
    ensures Before(TimeValues(a), TimeValues(b))
  {
    hide Before;
    ClockTells(a);
    ClockTells(b);
    ClockOrder(ClockAt(a), ClockAt(b));
    var x, y := TimeValues(a), TimeValues(b);
    BeforeAt(x, y, if x[0] < y[0] then 0 else if x[1] < y[1] then 1 else if x[2] < y[2] then 2 else 3);
  }

  lemma EarlierTime(a: nat, b: nat)
    requires a < b < MS_PER_DAY
    ensures Less(IsoTime(a), IsoTime(b)) && !Less(IsoTime(b), IsoTime(a))
  {
    hide Render, Before, Less, Fits;
    TimeFits(a);
    TimeFits(b);
    EarlierTimeValues(a, b);
    RenderAscends(TIME, TimeValues(a), TimeValues(b));
    LessAfter([0x54], Render(TIME, TimeValues(a)), Render(TIME, TimeValues(b)));
    LessAfter([0x54], Render(TIME, TimeValues(b)), Render(TIME, TimeValues(a)));
  }

  lemma TimeFits(ms: nat)
    requires ms < MS_PER_DAY
    ensures Fits(TIME, TimeValues(ms))
  {
    hide Decimal;
    FigureCount(ms / 3_600_000);
    FigureCount(ms / 60_000 % 60);
    FigureCount(ms / 1000 % 60);
    FigureCount(ms % 1000);
  }

  // ---- the order of timestamps ----

  lemma DateFits(t: int)
    requires SixFigures(Year(t))
    ensures Fits(Date(Width(Year(t))), DateValues(Magnitude(Year(t)), UtcDay(t)))
  {
    hide Fits, Render, Decimal, YearOf, MonthOf, DateOf, UtcDay;
    FigureCount(Magnitude(Year(t)));
    KeyIsRendered(Width(Year(t)), Magnitude(Year(t)), UtcDay(t));
  }

  /** Two dates of one sign, the first in values, make the smaller timestamp. */
  lemma EarlierDateText(t: int, u: int)
    requires SixFigures(Year(t)) && SixFigures(Year(u)) && Sign(Year(t)) == Sign(Year(u))
    requires Before(DateValues(Magnitude(Year(t)), UtcDay(t)), DateValues(Magnitude(Year(u)), UtcDay(u)))
    ensures Less(IsoString(t), IsoString(u)) && !Less(IsoString(u), IsoString(t))
  {
    var x, y := IsoTime(t % MS_PER_DAY), IsoTime(u % MS_PER_DAY);
    assert Width(Year(t)) == Width(Year(u));
    hide Less, Fits, Render, Before, Date, DateValues, Sign, Width, Year, UtcDay, IsoTime, IsoString, Magnitude;
    DateFits(t);
    DateFits(u);
    var a, b := DateValues(Magnitude(Year(t)), UtcDay(t)), DateValues(Magnitude(Year(u)), UtcDay(u));
    RenderAscends(Date(Width(Year(t))), a, b);
    RenderLength(Date(Width(Year(t))), a, b);
    LessFront(DateText(t), DateText(u), x, y);
    IsoParts(t);
    IsoParts(u);
    LessAfter(Sign(Year(t)), DateText(t) + x, DateText(u) + y);
    LessAfter(Sign(Year(t)), DateText(u) + y, DateText(t) + x);
  }

  lemma EarlierOnTheDay(t: int, u: int)
    requires t < u && UtcDay(t) == UtcDay(u)
    ensures Less(IsoString(t), IsoString(u)) && !Less(IsoString(u), IsoString(t))
  {
    var x, y := IsoTime(t % MS_PER_DAY), IsoTime(u % MS_PER_DAY);
    SameDayTimes(t, u);
    assert DateText(t) == DateText(u) && Year(t) == Year(u);
    hide Less, Sign, Year, UtcDay, IsoTime, IsoString, DateText;
    EarlierTime(t % MS_PER_DAY, u % MS_PER_DAY);
    IsoParts(t);
    IsoParts(u);
    LessAfter(DateText(t), x, y);
    LessAfter(DateText(t), y, x);
    LessAfter(Sign(Year(t)), DateText(t) + x, DateText(u) + y);
    LessAfter(Sign(Year(t)), DateText(u) + y, DateText(t) + x);
  }

  lemma SameDayTimes(t: int, u: int)
    requires t < u && UtcDay(t) == UtcDay(u)
    ensures 0 <= t % MS_PER_DAY < u % MS_PER_DAY < MS_PER_DAY
  {
  }

  lemma FirstCharacter(t: int)
    ensures IsoString(t) != []
    ensures var year := Year(t);
            if 0 <= year <= 9999 then IsDigit(IsoString(t)[0]) else IsoString(t)[0] == if year < 0 then 0x2D else 0x2B
  {
    hide IsoString, YearOf, UtcDay, KeyOf;
    UtcKeyShape(t);
  }

  /** `Less` holds one way and not the other. */
  ghost predicate Smaller(a: Text, b: Text) {
    Less(a, b) && !Less(b, a)
  }

  lemma OtherSign(t: int, u: int)
    requires Sign(Year(t)) != Sign(Year(u)) && Year(t) <= Year(u)
    ensures if Year(u) <= 9999 then Smaller(IsoString(t), IsoString(u)) else Smaller(IsoString(u), IsoString(t))
  {
    hide IsoString, Year;
    FirstCharacter(t);
    FirstCharacter(u);
  }

  lemma SameSign(t: int, u: int)
    requires SixFigures(Year(t)) && SixFigures(Year(u)) && Sign(Year(t)) == Sign(Year(u)) && UtcDay(t) < UtcDay(u)
    ensures if Year(t) < 0 && Year(t) != Year(u) then Smaller(IsoString(u), IsoString(t))
            else Smaller(IsoString(t), IsoString(u))
  {
    var m, n := Magnitude(Year(t)), Magnitude(Year(u));
    hide IsoString, YearOf, MonthOf, DateOf, UtcDay, DateValues, Before, Less;
    DateOrder(UtcDay(t), UtcDay(u));
    if Year(t) < 0 && Year(t) != Year(u) {
      EarlierValues(n, UtcDay(u), m, UtcDay(t));
      EarlierDateText(u, t);
    } else {
      EarlierValues(m, UtcDay(t), n, UtcDay(u));
      EarlierDateText(t, u);
    }
  }

  /** A later instant has the larger string when both years have four digits or both
      more, and when the earlier year is negative and the later one is the same or has
      four digits. */
  predicate Comparable(earlier: int, later: int) {
    if earlier < 0 then earlier == later || 0 <= later <= 9999 else earlier > 9999 || later <= 9999
  }

  /** Of two instants the earlier one has the smaller timestamp exactly when their
      years are comparable as strings. */
  lemma EarlierIsSmaller(t: int, u: int)
    requires t < u && SixFigures(Year(t)) && SixFigures(Year(u))
    ensures Less(IsoString(t), IsoString(u)) <==> Comparable(Year(t), Year(u))
    ensures Less(IsoString(u), IsoString(t)) <==> !Comparable(Year(t), Year(u))
  {
    DaysAscend(t, u);
    hide IsoString, YearOf, UtcDay, Less;
    DateOrder(UtcDay(t), UtcDay(u));
    if UtcDay(t) == UtcDay(u) {
      EarlierOnTheDay(t, u);
    } else if Sign(Year(t)) == Sign(Year(u)) {
      SameSign(t, u);
    } else {
      OtherSign(t, u);
    }
  }

  lemma DaysAscend(t: int, u: int)
    requires t < u
    ensures UtcDay(t) <= UtcDay(u)
  {
  }

  /** As strings, `t` does not come after `u`: the order of the instants where the
      years are comparable, and the reverse where they are not. */
  predicate NotAfter(t: int, u: int) {
    if t <= u then Comparable(Year(t), Year(u)) else !Comparable(Year(u), Year(t))
  }

  lemma NotAfterIsNotLarger(t: int, u: int)
    requires SixFigures(Year(t)) && SixFigures(Year(u))
    ensures !Less(IsoString(u), IsoString(t)) <==> NotAfter(t, u)
  {
    hide IsoString, Year, Less;
    if t < u {
      EarlierIsSmaller(t, u);
    } else if u < t {
      EarlierIsSmaller(u, t);
    } else {
      NotLessItself(IsoString(t));
    }
  }

  lemma YearsFollowTime(t: int, u: int)
    requires t <= u
    ensures Year(t) <= Year(u)
  {
    hide YearOf, UtcDay;
    if t < u { DaysAscend(t, u); }
    DateOrder(UtcDay(t), UtcDay(u));
  }

  /** For years written with four digits, comparing timestamps is comparing instants. */
  lemma StringOrderIsTimeOrder(t: int, u: int)
    requires 0 <= Year(t) <= 9999 && 0 <= Year(u) <= 9999
    ensures Less(IsoString(t), IsoString(u)) <==> t < u
  {
    hide IsoString, Year, Less;
    NotAfterIsNotLarger(u, t);
  }

  // ---- reading a timestamp back ----

  /** The numeral of `n` figures at `p`. */
  function Figure(s: Text, p: nat, n: nat): int
    requires p + n <= |s|
  {
    if n == 0 then 0 else 10 * Figure(s, p, n - 1) + (s[p + n - 1] - '0' as int)
  }

  /** `Date.parse` of a timestamp of a four-digit year: `YYYY-MM-DDTHH:mm:ss.sssZ`. */
  function Parse(s: Text): int
    requires |s| == 24
  {
    MakeDay(Figure(s, 0, 4), Figure(s, 5, 2) - 1, Figure(s, 8, 2)) * 86_400_000
    + Figure(s, 11, 2) * 3_600_000 + Figure(s, 14, 2) * 60_000 + Figure(s, 17, 2) * 1000 + Figure(s, 20, 3)
  }

  predicate Separated(s: Text)
    requires |s| == 24
  {
    && s[4] == '-' as int && s[7] == '-' as int && s[10] == 'T' as int && s[13] == ':' as int
    && s[16] == ':' as int && s[19] == '.' as int && s[23] == 'Z' as int
  }

  lemma {:induction false} FigureOfNumeral(x: Text, digits: Text, y: Text, n: nat)
    requires n <= |digits| && forall k :: 0 <= k < |digits| ==> IsDigit(digits[k])
    ensures |x| + n <= |x + digits + y|
    ensures Figure(x + digits + y, |x|, n) == Number(digits[..n])
    decreases n
  {
    if n > 0 {
      FigureOfNumeral(x, digits, y, n - 1);
      assert digits[..n][..n - 1] == digits[..n - 1] && (x + digits + y)[|x| + n - 1] == digits[n - 1];
    }
  }

  /** A padded value, wherever it stands, is read back. */
  lemma FigureOfPadded(x: Text, value: nat, width: nat, y: Text)
    requires |Decimal(value)| <= width
    ensures var s := x + PadStart(Decimal(value), width) + y;
            |s| == |x| + width + |y| && Figure(s, |x|, width) == value
  {
    var digits := PadStart(Decimal(value), width);
    PadKeeps(Decimal(value), width);
    NumberOfPadded(Decimal(value), width);
    NumberOfDecimal(value);
    hide Figure, Number, PadStart, Decimal;
    FigureOfNumeral(x, digits, y, width);
    assert digits[..width] == digits;
  }

  /** Where field `i` starts. */
  function Offset(fields: seq<Field>, i: nat): nat
    requires i <= |fields|
  {
    if i == 0 then 0 else fields[0].width + |fields[0].after| + Offset(fields[1..], i - 1)
  }

  lemma {:induction false} RenderHas(fields: seq<Field>, values: seq<nat>, i: nat) returns (x: Text, y: Text)
    requires Fits(fields, values) && i < |fields|
    ensures Render(fields, values) == x + PadStart(Decimal(values[i]), fields[i].width) + y
    ensures |x| == Offset(fields, i) && |Render(fields, values)| == Offset(fields, |fields|)
    ensures fields[i].after <= y
  {
    hide Decimal, PadStart;
    var first, after := PadStart(Decimal(values[0]), fields[0].width), fields[0].after;
    var rest := Render(fields[1..], values[1..]);
    PadKeeps(Decimal(values[0]), fields[0].width);
    RenderedSize(fields[1..], values[1..]);
    if i == 0 {
      x, y := [], after + rest;
      assert [] + first + (after + rest) == first + (after + rest);
    } else {
      var x';
      x', y := RenderHas(fields[1..], values[1..], i - 1);
      x := first + (after + x');
      FiveTexts(first, after, x', PadStart(Decimal(values[i]), fields[i].width), y);
    }
  }

  lemma FiveTexts(a: Text, b: Text, c: Text, d: Text, e: Text)
    ensures a + (b + (c + d + e)) == (a + (b + c)) + d + e
  {
  }

  lemma {:induction false} RenderedSize(fields: seq<Field>, values: seq<nat>)
    requires Fits(fields, values)
    ensures |Render(fields, values)| == Offset(fields, |fields|)
  {
    if fields != [] {
      PadKeeps(Decimal(values[0]), fields[0].width);
      RenderedSize(fields[1..], values[1..]);
    }
  }

  lemma FigureAt(before: Text, fields: seq<Field>, values: seq<nat>, after: Text, i: nat)
    requires Fits(fields, values) && i < |fields|
    ensures var s := before + Render(fields, values) + after;
            && |before| + Offset(fields, i) + fields[i].width <= |s|
            && Figure(s, |before| + Offset(fields, i), fields[i].width) == values[i]
            && (fields[i].after != [] ==>
                  && |before| + Offset(fields, i) + fields[i].width < |s|
                  && s[|before| + Offset(fields, i) + fields[i].width] == fields[i].after[0])
  {
    var x, y := RenderHas(fields, values, i);
    var digits := PadStart(Decimal(values[i]), fields[i].width);
    hide Figure, Render, PadStart, Decimal, Offset;
    FigureOfPadded(before + x, values[i], fields[i].width, y + after);
    Regroup(before, x, digits, y, after);
    PadKeeps(Decimal(values[i]), fields[i].width);
    CharacterAfter(before + x, digits, y, after);
  }

  lemma CharacterAfter(x: Text, digits: Text, y: Text, after: Text)
    ensures y != [] ==>
              |x| + |digits| < |x + digits + (y + after)| && (x + digits + (y + after))[|x| + |digits|] == y[0]
  {
  }

  lemma Regroup(a: Text, b: Text, c: Text, d: Text, e: Text)
    ensures a + (b + c + d) + e == (a + b) + c + (d + e)
  {
  }

  lemma OffsetNext(field: Field, rest: seq<Field>, i: nat)
    requires i <= |rest|
    ensures Offset([field] + rest, i + 1) == field.width + |field.after| + Offset(rest, i) && Offset(rest, 0) == 0
  {
    assert ([field] + rest)[1..] == rest;
  }

  lemma DateOffsets()
    ensures Offset(Date(4), 0) == 0 && Offset(Date(4), 1) == 5 && Offset(Date(4), 2) == 8 && Offset(Date(4), 3) == 10
  {
    var c: seq<Field> := [Field(2, [])];
    var b := [Field(2, DASH)] + c;
    assert Date(4) == [Field(4, DASH)] + b && c == [Field(2, [])] + [];
    hide Offset, Date;
    OffsetNext(Field(4, DASH), b, 0);
    OffsetNext(Field(4, DASH), b, 1);
    OffsetNext(Field(4, DASH), b, 2);
    OffsetNext(Field(2, DASH), c, 0);
    OffsetNext(Field(2, DASH), c, 1);
    OffsetNext(Field(2, []), [], 0);
  }

  lemma TimeOffsets()
    ensures Offset(TIME, 0) == 0 && Offset(TIME, 1) == 3 && Offset(TIME, 2) == 6 && Offset(TIME, 3) == 9
    ensures Offset(TIME, 4) == 13
  {
    var d: seq<Field> := [Field(3, [0x5A])];
    var c := [Field(2, [0x2E])] + d;
    var b := [Field(2, COLON)] + c;
    assert TIME == [Field(2, COLON)] + b && d == [Field(3, [0x5A])] + [];
    hide Offset;
    OffsetNext(Field(2, COLON), b, 0);
    OffsetNext(Field(2, COLON), b, 1);
    OffsetNext(Field(2, COLON), b, 2);
    OffsetNext(Field(2, COLON), b, 3);
    OffsetNext(Field(2, COLON), c, 0);
    OffsetNext(Field(2, COLON), c, 1);
    OffsetNext(Field(2, COLON), c, 2);
    OffsetNext(Field(2, [0x2E]), d, 0);
    OffsetNext(Field(2, [0x2E]), d, 1);
    OffsetNext(Field(3, [0x5A]), [], 0);
  }

  lemma StampFigures(date: Text, time: Text, dv: seq<nat>, tv: seq<nat>)
    requires Fits(Date(4), dv) && Fits(TIME, tv) && date == Render(Date(4), dv) && time == [0x54] + Render(TIME, tv)
    ensures var s := date + time;
            && |s| == 24
            && Figure(s, 0, 4) == dv[0] && Figure(s, 5, 2) == dv[1] && Figure(s, 8, 2) == dv[2]
            && Figure(s, 11, 2) == tv[0] && Figure(s, 14, 2) == tv[1]
            && Figure(s, 17, 2) == tv[2] && Figure(s, 20, 3) == tv[3]
            && Separated(s)
  {
    hide Figure, Render, Offset;
    DateOffsets();
    TimeOffsets();
    RenderedSize(Date(4), dv);
    RenderedSize(TIME, tv);
    assert [] + date + time == date + time;
    assert (date + [0x54]) + Render(TIME, tv) + [] == date + time;
    FigureAt([], Date(4), dv, time, 0);
    FigureAt([], Date(4), dv, time, 1);
    FigureAt([], Date(4), dv, time, 2);
    FigureAt(date + [0x54], TIME, tv, [], 0);
    FigureAt(date + [0x54], TIME, tv, [], 1);
    FigureAt(date + [0x54], TIME, tv, [], 2);
    FigureAt(date + [0x54], TIME, tv, [], 3);
  }

  /** A timestamp of a four-digit year is read back as its instant. */
  lemma ParseIsoString(t: int)
    requires 0 <= Year(t) <= 9999
    ensures |IsoString(t)| == 24 && Separated(IsoString(t)) && Parse(IsoString(t)) == t
  {
    var ms := t % MS_PER_DAY;
    WholeDays(t);
    hide *;
    FourDigitParts(t);
    TimeFits(ms);
    StampFigures(DateText(t), IsoTime(ms), DateValues(Year(t), UtcDay(t)), TimeValues(ms));
    DayOfDate(UtcDay(t));
    ClockTells(ms);
    ParseOfFigures(IsoString(t), YearOf(UtcDay(t)), MonthOf(UtcDay(t)), DateOf(UtcDay(t)), ClockAt(ms));
    FourDigitValues(t);
  }

  lemma FourDigitParts(t: int)
    requires 0 <= Year(t) <= 9999
    ensures IsoString(t) == DateText(t) + IsoTime(t % MS_PER_DAY)
    ensures var dv := DateValues(Year(t), UtcDay(t)); Fits(Date(4), dv) && DateText(t) == Render(Date(4), dv)
    ensures IsoTime(t % MS_PER_DAY) == [0x54] + Render(TIME, TimeValues(t % MS_PER_DAY))
  {
    hide Render, Fits, YearOf, MonthOf, DateOf, IsoString, UtcDay;
    IsoParts(t);
    DateFits(t);
    assert [] + (DateText(t) + IsoTime(t % MS_PER_DAY)) == DateText(t) + IsoTime(t % MS_PER_DAY);
  }

  lemma FourDigitValues(t: int)
    requires 0 <= Year(t)
    ensures var (dv, tv, c) := (DateValues(Year(t), UtcDay(t)), TimeValues(t % MS_PER_DAY), ClockAt(t % MS_PER_DAY));
            && Year(t) == YearOf(UtcDay(t)) && |dv| == 3 && |tv| == 4
            && dv[0] == Year(t) && dv[1] == MonthOf(UtcDay(t)) + 1 && dv[2] == DateOf(UtcDay(t))
            && tv[0] == c.hours && tv[1] == c.minutes && tv[2] == c.seconds && tv[3] == c.millis
  {
    hide YearOf, MonthOf, DateOf, UtcDay;
  }

  lemma ParseOfFigures(s: Text, year: int, month: int, date: int, clock: Clock)
    requires |s| == 24 && Figure(s, 0, 4) == year && Figure(s, 5, 2) == month + 1 && Figure(s, 8, 2) == date
    requires Figure(s, 11, 2) == clock.hours && Figure(s, 14, 2) == clock.minutes
    requires Figure(s, 17, 2) == clock.seconds && Figure(s, 20, 3) == clock.millis
    ensures Parse(s) == MakeDay(year, month, date) * 86_400_000 + clock.Ms()
  {
    hide Figure, MakeDay;
  }

  lemma WholeDays(t: int)
    ensures t == UtcDay(t) * 86_400_000 + t % MS_PER_DAY
  {
  }
}
