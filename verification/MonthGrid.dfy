/** The 42-cell month grid (apps/web/src/lib/format.ts) and the page's month
    stepping (apps/web/src/pages/CalendarPage.tsx). */
module MonthGrid {
  import opened Utf16
  import opened Gregorian
  import opened DayKeys

  /** The `Date` constructor reads the years 0 to 99 as 1900 to 1999
      (section 15.9.3.1 of ECMA-262 5.1). */
  function FullYear(year: int): int {
    if 0 <= year <= 99 then 1900 + year else year
  }

  /** The instant of `new Date(year, month, date)`: local midnight of that day. */
  function NewDate(year: int, month: int, date: int, offset: int): int {
    MakeDay(FullYear(year), month, date) * MS_PER_DAY - offset
  }

  datatype GridDay = GridDay(key: Text, dayOfMonth: int, inMonth: bool, date: int)

  /** The cell of one day, as seen from the month the grid is for. */
  function Cell(day: int, month: int, offset: int): GridDay {
    GridDay(DayKey(day), DateOf(day), MonthOf(day) == month, day * MS_PER_DAY - offset)
  }

  /** The day in the top left cell: the last Monday not after the first. */
  function FirstCell(year: int, month: int): int {
    var first := MakeDay(FullYear(year), month, 1);
    first - (WeekDay(first) + 6) % 7
  }

  function Grid(year: int, month: int, offset: int): seq<GridDay> {
    seq(42, i => Cell(FirstCell(year, month) + i, month, offset))
  }

  lemma LocalMidnight(day: int, offset: int)
    ensures LocalDay(day * MS_PER_DAY - offset, offset) == day
  {
  }

  lemma DatesCount(year: int, month: int, date: int)
    ensures MakeDay(year, month, date) == MakeDay(year, month, 1) + date - 1
  {
  }

  method MonthGridDays(year: int, month: int, offset: int) returns (days: seq<GridDay>)
    ensures days == Grid(year, month, offset)
  {
    hide *;
    var first := NewDate(year, month, 1, offset);
    NewDateIsLocal(year, month, 1, offset);
    var lead := (WeekDay(LocalDay(first, offset)) + 6) % 7;
    FirstCellIsMonday(year, month);
    days := [];
    var i := 0;
    while i < 42
      invariant 0 <= i <= 42 && |days| == i
      invariant forall k :: 0 <= k < i ==> days[k] == Cell(FirstCell(year, month) + k, month, offset)
    {
      var date := NewDate(year, month, 1 - lead + i, offset);
      NewDateIsLocal(year, month, 1 - lead + i, offset);
      var day := LocalDay(date, offset);
      CellParts(day, month, offset);
      days := days + [GridDay(KeyOf(IntText(YearOf(day)), day), DateOf(day), MonthOf(day) == month, date)];
      i := i + 1;
    }
    GridIsCells(year, month, offset, days);
  }

  lemma NewDateIsLocal(year: int, month: int, date: int, offset: int)
    ensures LocalDay(NewDate(year, month, date, offset), offset) == MakeDay(FullYear(year), month, 1) + date - 1
    ensures NewDate(year, month, date, offset) ==
            LocalDay(NewDate(year, month, date, offset), offset) * MS_PER_DAY - offset
  {
    LocalMidnight(MakeDay(FullYear(year), month, date), offset);
    DatesCount(FullYear(year), month, date);
    hide MakeDay, FullYear, LocalDay;
  }

  lemma CellParts(day: int, month: int, offset: int)
    ensures Cell(day, month, offset) ==
            GridDay(KeyOf(IntText(YearOf(day)), day), DateOf(day), MonthOf(day) == month, day * MS_PER_DAY - offset)
  {
    hide KeyOf, IntText, YearOf, DateOf, MonthOf;
  }

  lemma GridIsCells(year: int, month: int, offset: int, days: seq<GridDay>)
    requires |days| == 42
    requires forall k :: 0 <= k < 42 ==> days[k] == Cell(FirstCell(year, month) + k, month, offset)
    ensures days == Grid(year, month, offset)
  {
    hide Cell, FirstCell;
  }

  lemma GridCell(year: int, month: int, offset: int, i: nat)
    requires i < 42
    ensures |Grid(year, month, offset)| == 42
    ensures var cell := Grid(year, month, offset)[i];
            var day := FirstCell(year, month) + i;
            && cell == GridDay(DayKey(day), DateOf(day), MonthOf(day) == month, day * MS_PER_DAY - offset)
            && LocalDay(cell.date, offset) == day
  {
    hide DayKey, DateOf, MonthOf, FirstCell, LocalDay;
    GridAt(year, month, offset, i);
    hide Grid;
    LocalMidnight(FirstCell(year, month) + i, offset);
  }

  lemma GridAt(year: int, month: int, offset: int, i: nat)
    requires i < 42
    ensures |Grid(year, month, offset)| == 42
    ensures Grid(year, month, offset)[i] == Cell(FirstCell(year, month) + i, month, offset)
  {
    hide Cell, FirstCell;
  }

  lemma FirstCellIsMonday(year: int, month: int)
    ensures WeekDay(FirstCell(year, month)) == 1
    ensures var first := MakeDay(FullYear(year), month, 1);
            FirstCell(year, month) == first - (WeekDay(first) + 6) % 7
  {
    hide MakeDay, FullYear;
  }

  lemma FirstCellNear(year: int, month: int)
    ensures var first := MakeDay(FullYear(year), month, 1); first - 7 < FirstCell(year, month) <= first
  {
    hide MakeDay, FullYear, WeekDay;
  }

  lemma MondayColumn(monday: int, i: nat)
    requires WeekDay(monday) == 1
    ensures (WeekDay(monday + i) + 6) % 7 == i % 7
  {
  }

  /** Cell `i` is the day `i` after the first cell and lies in weekday column
      `i % 7`, counting from Monday. */
  lemma GridIsConsecutive(year: int, month: int, offset: int, i: nat)
    requires i < 42
    ensures var cell := Grid(year, month, offset)[i];
            && LocalDay(cell.date, offset) == FirstCell(year, month) + i
            && cell.key == LocalDayKey(cell.date, offset)
            && (cell.date + offset) % 86_400_000 == 0
            && (WeekDay(LocalDay(cell.date, offset)) + 6) % 7 == i % 7
  {
    hide *;
    GridCell(year, month, offset, i);
    FirstCellIsMonday(year, month);
    MondayColumn(FirstCell(year, month), i);
    MidnightIsWhole(FirstCell(year, month) + i);
    KeyOfInstant(Grid(year, month, offset)[i].date, offset);
  }

  lemma MidnightIsWhole(day: int)
    ensures (day * MS_PER_DAY) % 86_400_000 == 0
  {
  }

  lemma KeyOfInstant(t: int, offset: int)
    ensures LocalDayKey(t, offset) == DayKey(LocalDay(t, offset))
  {
    hide DayKey, LocalDay;
  }

  /** The cell that shows the date `d` of the month. */
  function CellOf(year: int, month: int, d: int): int {
    MakeDay(FullYear(year), month, d) - FirstCell(year, month)
  }

  /** Each day of the month appears in exactly one cell. */
  lemma MonthAppearsOnce(year: int, month: int, offset: int, d: int, i: nat)
    requires 0 <= month < 12 && 1 <= d <= MonthLength(FullYear(year), month) && i < 42
    ensures 0 <= CellOf(year, month, d) < 42
    ensures var day := LocalDay(Grid(year, month, offset)[i].date, offset);
            YearOf(day) == FullYear(year) && MonthOf(day) == month && DateOf(day) == d
            <==> i == CellOf(year, month, d)
  {
    hide MakeDay, FirstCell, YearOf, MonthOf, DateOf, Grid, FullYear, LocalDay, DayKey, MonthStart, MonthLength;
    var y := FullYear(year);
    FirstCellNear(year, month);
    DateOfDay(y, month, d);
    GridCell(year, month, offset, i);
    DatesCount(y, month, d);
    var day := FirstCell(year, month) + i;
    if YearOf(day) == y && MonthOf(day) == month && DateOf(day) == d {
      SameDateSameDay(day, MakeDay(y, month, d));
    }
  }

  /** A cell is flagged `inMonth` exactly when its day belongs to the month shown:
      no filler day of another year slips in. */
  lemma InMonthIsExact(year: int, month: int, offset: int, i: nat)
    requires 0 <= month < 12 && i < 42
    ensures var cell := Grid(year, month, offset)[i];
            var day := LocalDay(cell.date, offset);
            && cell.dayOfMonth == DateOf(day)
            && (cell.inMonth <==> YearOf(day) == FullYear(year) && MonthOf(day) == month)
  {
    hide FullYear, MakeDay, YearOf, MonthOf, DateOf, DayKey, FirstCell, Grid, LocalDay, WeekDay, MonthStart;
    var y, day := FullYear(year), FirstCell(year, month) + i;
    GridCell(year, month, offset, i);
    FirstCellNear(year, month);
    DateOfDay(y, month, 1);
    if MonthOf(day) == month {
      SameMonthNearby(MakeDay(y, month, 1), day);
    }
  }

  /** Two days of the same month of the year, less than six weeks apart, are in the
      same year. */
  lemma SameMonthNearby(a: int, b: int)
    requires MonthOf(a) == MonthOf(b) && -42 < b - a < 42
    ensures YearOf(a) == YearOf(b)
  {
    hide YearOf, MonthOf, DateOf, DayFromYear, MonthStart;
    if YearOf(a) < YearOf(b) {
      YearGap(a, b);
    } else if YearOf(b) < YearOf(a) {
      YearGap(b, a);
    }
  }

  lemma YearGap(a: int, b: int)
    requires MonthOf(a) == MonthOf(b) && YearOf(a) < YearOf(b)
    ensures b - a >= 42
  {
    DateParts(a);
    DateParts(b);
    var m := MonthOf(a);
    hide YearOf, MonthOf, DateOf, DayFromYear;
    YearsAscend(YearOf(a), YearOf(b));
  }

  /** The keys of a grid name its 42 days apart. */
  lemma GridKeysAreDistinct(year: int, month: int, offset: int, i: nat, j: nat)
    requires i < j < 42
    ensures Grid(year, month, offset)[i].key != Grid(year, month, offset)[j].key
  {
    hide *;
    GridCell(year, month, offset, i);
    GridCell(year, month, offset, j);
    var first := FirstCell(year, month);
    if DayKey(first + i) == DayKey(first + j) {
      DayKeyIsInjective(first + i, first + j);
    }
  }

  // ---- stepping through the months ----

  /** What `shiftMonth` makes of the page's year and month. */
  function Shifted(year: int, month: int, delta: int): (int, int) {
    var day := MakeDay(FullYear(year), month + delta, 1);
    (YearOf(day), MonthOf(day))
  }

  /** Months counted from January of year 0. */
  function MonthNumber(year: int, month: int): int {
    12 * year + month
  }

  /** One shift, on month counts: a two-digit year is first read as 19xx. */
  function NextNumber(k: int, delta: int): int {
    (if 0 <= k < 1200 then k + 22_800 else k) + delta
  }

  /** Months beyond December carry into the year. */
  lemma MonthsCarry(year: int, month: int)
    ensures MakeDay(year, month, 1) == MakeDay(year + month / 12, month % 12, 1)
  {
    hide DayFromYear, MonthStart;
  }

  lemma ShiftAddsMonths(year: int, month: int, delta: int)
    requires 0 <= month < 12
    ensures var (y, m) := Shifted(year, month, delta);
            0 <= m < 12 && MonthNumber(y, m) == NextNumber(MonthNumber(year, month), delta)
  {
    hide YearOf, MonthOf, DateOf, MakeDay, MonthStart, DayFromYear;
    var y, m := FullYear(year) + (month + delta) / 12, (month + delta) % 12;
    MonthsCarry(FullYear(year), month + delta);
    DateOfDay(y, m, 1);
  }

  class MonthCursor {
    var year: int
    var month: int

    constructor (year: int, month: int)
      ensures this.year == year && this.month == month
    {
      this.year, this.month := year, month;
    }

    method ShiftMonth(delta: int, offset: int)
      modifies this
      ensures (year, month) == Shifted(old(year), old(month), delta)
      ensures 0 <= month < 12
      ensures 0 <= old(month) < 12 ==>
                MonthNumber(year, month) == NextNumber(MonthNumber(old(year), old(month)), delta)
    {
      hide MakeDay, FullYear, YearOf, MonthOf, LocalDay;
      if 0 <= month < 12 { ShiftAddsMonths(year, month, delta); }
      var next := NewDate(year, month + delta, 1, offset);
      NewDateIsLocal(year, month + delta, 1, offset);
      year := YearOf(LocalDay(next, offset));
      month := MonthOf(LocalDay(next, offset));
    }
  }

  /** `n` presses of a button that shifts by `delta`. */
  function Presses(year: int, month: int, delta: int, n: nat): (int, int) {
    if n == 0 then (year, month)
    else
      var (y, m) := Presses(year, month, delta, n - 1);
      Shifted(y, m, delta)
  }

  function Count(k: int, delta: int, n: nat): int {
    if n == 0 then k else NextNumber(Count(k, delta, n - 1), delta)
  }

  /** Every run of presses keeps the month in range and counts months. */
  lemma {:induction false} PressesCount(year: int, month: int, delta: int, n: nat)
    requires 0 <= month < 12
    ensures var (y, m) := Presses(year, month, delta, n);
            0 <= m < 12 && MonthNumber(y, m) == Count(MonthNumber(year, month), delta, n)
  {
    hide Shifted, NextNumber, MonthNumber;
    if n > 0 {
      PressesCount(year, month, delta, n - 1);
      var (y, m) := Presses(year, month, delta, n - 1);
      ShiftAddsMonths(y, m, delta);
    }
  }

  lemma {:induction false} CountForward(k: int, n: nat)
    ensures Count(k, 1, n) == if n == 0 || k >= 1200 || k + n <= 0 then k + n else k + n + 22_800
  {
    if n > 0 { CountForward(k, n - 1); }
  }

  lemma {:induction false} CountBack(k: int, n: nat)
    ensures Count(k, -1, n) >= k - n
    ensures k - n >= 1199 || k < 0 ==> Count(k, -1, n) == k - n
    ensures k == 0 && n > 0 ==> Count(k, -1, n) >= 22_800 - n
  {
    if n > 0 { CountBack(k, n - 1); }
  }

  function ForwardAndBack(year: int, month: int, n: nat): (int, int) {
    var (y, m) := Presses(year, month, 1, n);
    Presses(y, m, -1, n)
  }

  /** `n` months forward and `n` back return to the same month exactly when no
      press on the way starts in the years 0 to 99: from year 100 on, or when the
      run ends before year 0. */
  lemma ForwardAndBackReturns(year: int, month: int, n: nat)
    requires 0 <= month < 12
    ensures ForwardAndBack(year, month, n) == (year, month) <==>
            n == 0 || year >= 100 || MonthNumber(year, month) + n < 0
  {
    hide Presses;
    var (y, m) := Presses(year, month, 1, n);
    PressesCount(year, month, 1, n);
    PressesCount(y, m, -1, n);
    CountForward(MonthNumber(year, month), n);
    CountBack(MonthNumber(y, m), n);
  }
}
