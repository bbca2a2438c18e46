/** The range the calendar page fetches for a month, against the days it shows
    (apps/web/src/pages/CalendarPage.tsx). */
module FetchWindow {
  import opened Utf16
  import opened Gregorian
  import opened DayKeys
  import opened IsoTimes
  import opened EventDays
  import opened MonthGrid
  import opened Buckets
  import opened Options
  import opened Filters

  /** From one day before the first grid midnight to two days after the last. */
  function Window(year: int, month: int, offset: int): (int, int) {
    var days := Grid(year, month, offset);
    (days[0].date - MS_PER_DAY, days[|days| - 1].date + 2 * MS_PER_DAY)
  }

  /** The server's range query as it is meant: both ends inclusive. */
  predicate InRange(start: int, end: int, window: (int, int)) {
    start <= window.1 && end >= window.0
  }

  /** The query as it is run, on timestamps compared as strings. */
  predicate StoredInRange(start: Text, end: Text, lo: Text, hi: Text) {
    !Less(hi, start) && !Less(end, lo)
  }

  predicate Fetched(start: int, end: int, window: (int, int)) {
    StoredInRange(IsoString(start), IsoString(end), IsoString(window.0), IsoString(window.1))
  }

  /** The instants a `Date` can hold, and more. */
  predicate Holds(t: int) {
    SixFigures(Year(t))
  }

  predicate WindowHolds(window: (int, int)) {
    Holds(window.0) && Holds(window.1)
  }

  predicate FourDigits(t: int) {
    0 <= Year(t) <= 9999
  }

  /** The years of start and end compare with those of the window as instants do. */
  predicate InStep(start: int, end: int, window: (int, int)) {
    Comparable(Year(start), Year(window.1)) && Comparable(Year(window.0), Year(end))
  }

  /** What the query returns, in terms of instants: of what it is meant to return,
      exactly what is in step with the window. */
  lemma QueryIsMeant(start: int, end: int, window: (int, int))
    requires Holds(start) && Holds(end) && WindowHolds(window)
    ensures Fetched(start, end, window) <==> NotAfter(start, window.1) && NotAfter(window.0, end)
    ensures InRange(start, end, window) ==> (Fetched(start, end, window) <==> InStep(start, end, window))
  {
    hide Year, IsoString, Less, Comparable;
    NotAfterIsNotLarger(start, window.1);
    NotAfterIsNotLarger(window.0, end);
  }

  /** For years written with four digits that is the query on the instants. */
  lemma QueryComparesInstants(start: int, end: int, window: (int, int))
    requires FourDigits(start) && FourDigits(end) && FourDigits(window.0) && FourDigits(window.1)
    ensures Fetched(start, end, window) <==> InRange(start, end, window)
  {
    hide Year, IsoString, Less;
    StringOrderIsTimeOrder(window.1, start);
    StringOrderIsTimeOrder(end, window.0);
  }

  /** The date the server files a recording under: that of the document, if it has one. */
  function EffectiveDate(r: Recording): int {
    match r.documentDate
    case Some(date) => date
    case None => r.occurredAt
  }

  function EventFetched(window: (int, int)): CalendarEvent -> bool {
    (event: CalendarEvent) => Fetched(event.startAt, event.endAt, window)
  }

  function RecordingFetched(window: (int, int)): Recording -> bool {
    (recording: Recording) => Fetched(EffectiveDate(recording), EffectiveDate(recording), window)
  }

  function ReminderFetched(window: (int, int)): Reminder -> bool {
    (reminder: Reminder) => Fetched(reminder.dueAt, reminder.dueAt, window)
  }

  lemma CellDate(day: int, month: int, offset: int)
    ensures Cell(day, month, offset).date == day * MS_PER_DAY - offset
  {
    hide DayKey, DateOf, MonthOf;
  }

  lemma WindowEnds(year: int, month: int, offset: int)
    ensures var first := FirstCell(year, month);
            Window(year, month, offset) == ((first - 1) * MS_PER_DAY - offset, (first + 43) * MS_PER_DAY - offset)
  {
    hide FirstCell, Cell, Grid;
    GridAt(year, month, offset, 0);
    GridAt(year, month, offset, 41);
    CellDate(FirstCell(year, month), month, offset);
    CellDate(FirstCell(year, month) + 41, month, offset);
  }

  /** The window is always 44 days, within the server's cap of 400. */
  lemma WindowIsAccepted(year: int, month: int, offset: int)
    ensures var (lo, hi) := Window(year, month, offset);
            lo < hi && hi - lo == 44 * MS_PER_DAY <= 400 * MS_PER_DAY
  {
    WindowEnds(year, month, offset);
    hide Window, FirstCell;
  }

  lemma TimedOnDay(event: CalendarEvent, offset: int, day: int)
    requires !event.isAllDay && event.startAt <= event.endAt && Covers(event, offset, day)
    ensures event.startAt < (day + 1) * MS_PER_DAY - offset && event.endAt >= day * MS_PER_DAY - offset
  {
    TimedDays(event, offset, day);
    hide Covers;
    assert LocalDay(event.startAt, offset) <= LocalDay(event.endAt, offset);
    DayBounds(event.startAt, offset);
    DayBounds(event.endAt, offset);
    hide LocalDay;
  }

  lemma DayBounds(t: int, offset: int)
    ensures LocalDay(t, offset) * MS_PER_DAY <= t + offset < (LocalDay(t, offset) + 1) * MS_PER_DAY
  {
  }

  lemma AllDayOnDay(event: CalendarEvent, offset: int, day: int)
    requires event.isAllDay && event.startAt <= event.endAt && Covers(event, offset, day)
    ensures event.startAt < (day + 1) * MS_PER_DAY && event.endAt >= day * MS_PER_DAY
  {
    var first := UtcDay(event.startAt);
    DayBounds(event.startAt, 0);
    assert day >= first && event.startAt + (day - first) * MS_PER_DAY <= event.endAt;
    hide LocalDay, Covers;
  }

  /** An event that ends before it starts is listed on one day only: its start day
      if it is an all-day event, else its end day. */
  lemma BackwardsOnDay(event: CalendarEvent, offset: int, day: int)
    requires event.startAt > event.endAt && Covers(event, offset, day)
    ensures event.isAllDay ==> event.startAt < (day + 1) * MS_PER_DAY
    ensures !event.isAllDay ==> event.endAt >= day * MS_PER_DAY - offset
  {
    DayBounds(event.startAt, 0);
    DayBounds(event.endAt, offset);
    assert day == if event.isAllDay then UtcDay(event.startAt) else LocalDay(event.endAt, offset);
    hide LocalDay, Covers;
  }

  /** An event that ends before it starts, with its far end outside the window. */
  predicate Missed(event: CalendarEvent, window: (int, int)) {
    event.startAt > event.endAt && if event.isAllDay then event.endAt < window.0 else event.startAt > window.1
  }

  /** Wherever on Earth the browser is, an event listed on a visible day overlaps
      the window, unless it ends before it starts and its far end is outside. */
  lemma VisibleEventIsInRange(event: CalendarEvent, year: int, month: int, offset: int, i: nat)
    requires i < 42 && -MS_PER_DAY < offset < MS_PER_DAY
    requires Covers(event, offset, FirstCell(year, month) + i)
    ensures var window := Window(year, month, offset);
            InRange(event.startAt, event.endAt, window) <==> !Missed(event, window)
  {
    var day := FirstCell(year, month) + i;
    WindowEnds(year, month, offset);
    if event.startAt > event.endAt {
      BackwardsOnDay(event, offset, day);
    } else if event.isAllDay {
      AllDayOnDay(event, offset, day);
    } else {
      TimedOnDay(event, offset, day);
    }
    hide Covers, FirstCell, Window;
  }

  /** An event that ends before it starts can be listed on a visible day and still
      be missed by the query. */
  lemma BackwardsEventCanBeMissed(year: int, month: int, offset: int)
    ensures var day := FirstCell(year, month);
            var event := CalendarEvent([], (day + 50) * MS_PER_DAY - offset, day * MS_PER_DAY - offset, false);
            var window := Window(year, month, offset);
            && Covers(event, offset, day) && !InRange(event.startAt, event.endAt, window)
            && (FourDigits(event.startAt) && FourDigits(event.endAt) && FourDigits(window.0) && FourDigits(window.1) ==>
                !Fetched(event.startAt, event.endAt, window))
  {
    var day, window := FirstCell(year, month), Window(year, month, offset);
    var event := CalendarEvent([], (day + 50) * MS_PER_DAY - offset, day * MS_PER_DAY - offset, false);
    BackwardsIsOutside(year, month, offset);
    hide FirstCell, Window, Covers, InRange, Fetched, FourDigits;
    if FourDigits(event.startAt) && FourDigits(event.endAt) && FourDigits(window.0) && FourDigits(window.1) {
      QueryComparesInstants(event.startAt, event.endAt, window);
    }
  }

  lemma BackwardsIsOutside(year: int, month: int, offset: int)
    ensures var day := FirstCell(year, month);
            var event := CalendarEvent([], (day + 50) * MS_PER_DAY - offset, day * MS_PER_DAY - offset, false);
            Covers(event, offset, day) && !InRange(event.startAt, event.endAt, Window(year, month, offset))
  {
    WindowEnds(year, month, offset);
    LocalMidnight(FirstCell(year, month), offset);
    hide FirstCell, Window, LocalDay, Running;
  }

  // ---- years beyond four digits ----

  lemma LastDecember()
    ensures var start := DayFromYear(9999);
            && MakeDay(9999, 11, 1) == start + 334 && MakeDay(9999, 11, 15) == start + 348
            && DayFromYear(10_000) == start + 365 && DayFromYear(10_001) == start + 731
  {
  }

  lemma DayNear(day: int, rest: int)
    requires -MS_PER_DAY < rest < 2 * MS_PER_DAY
    ensures day - 1 <= UtcDay(day * MS_PER_DAY + rest) <= day + 1
  {
  }

  lemma LastDecemberEnds(offset: int)
    requires -MS_PER_DAY < offset < MS_PER_DAY
    ensures Year(Window(9999, 11, offset).1) == 10_000
  {
    hide Window, FirstCell, MakeDay, YearOf, DayFromYear, UtcDay;
    LastDecember();
    FirstCellNear(9999, 11);
    WindowEnds(9999, 11, offset);
    DayNear(FirstCell(9999, 11) + 43, -offset);
    YearIsUnique(UtcDay(Window(9999, 11, offset).1), 10_000);
  }

  /** The grid of December 9999 asks for timestamps up to `+010000-01-...`, which as
      strings come before all of the year 9999: every event that begins by then and
      shows on the grid is missed, though it lies in the range. */
  lemma LastDecemberIsLost(event: CalendarEvent, offset: int, i: nat)
    requires i < 42 && -MS_PER_DAY < offset < MS_PER_DAY && event.startAt <= event.endAt
    requires Holds(event.startAt) && Holds(event.endAt) && Year(event.startAt) <= 9999
    requires Covers(event, offset, FirstCell(9999, 11) + i)
    ensures var window := Window(9999, 11, offset);
            InRange(event.startAt, event.endAt, window) && !Fetched(event.startAt, event.endAt, window)
  {
    hide Window, FirstCell, Covers, Year, Fetched;
    VisibleEventIsInRange(event, 9999, 11, offset, i);
    LastDecemberEnds(offset);
    LostBehind(event, Window(9999, 11, offset));
  }

  lemma LostBehind(event: CalendarEvent, window: (int, int))
    requires Holds(event.startAt) && Year(event.startAt) <= 9999 && Year(window.1) == 10_000
    requires event.startAt <= window.1
    ensures !Fetched(event.startAt, event.endAt, window)
  {
    hide Year, IsoString, Less;
    NotAfterIsNotLarger(event.startAt, window.1);
  }

  /** For one, a timed event at noon of 15 December. */
  lemma OrdinaryEventIsMissed(offset: int)
    requires -MS_PER_DAY < offset < MS_PER_DAY
    ensures var day, window := MakeDay(9999, 11, 15), Window(9999, 11, offset);
            var noon := day * MS_PER_DAY + MS_PER_DAY / 2 - offset;
            var event := CalendarEvent([], noon, noon, false);
            && 0 <= day - FirstCell(9999, 11) < 42 && Covers(event, offset, day)
            && InRange(noon, noon, window) && !Missed(event, window) && !Fetched(noon, noon, window)
  {
    var day := MakeDay(9999, 11, 15);
    var noon := day * MS_PER_DAY + MS_PER_DAY / 2 - offset;
    var event := CalendarEvent([], noon, noon, false);
    NoonIsInDecember(offset);
    FirstCellNear(9999, 11);
    DatesCount(9999, 11, 15);
    hide FirstCell, Window, MakeDay, YearOf, UtcDay, Fetched;
    assert LocalDay(noon, offset) == day;
    LastDecemberIsLost(event, offset, day - FirstCell(9999, 11));
  }

  lemma NoonIsInDecember(offset: int)
    requires -MS_PER_DAY < offset < MS_PER_DAY
    ensures Year(MakeDay(9999, 11, 15) * MS_PER_DAY + MS_PER_DAY / 2 - offset) == 9999
  {
    hide MakeDay, YearOf, DayFromYear, UtcDay;
    LastDecember();
    DayNear(MakeDay(9999, 11, 15), MS_PER_DAY / 2 - offset);
    YearIsUnique(UtcDay(MakeDay(9999, 11, 15) * MS_PER_DAY + MS_PER_DAY / 2 - offset), 9999);
  }

  // ---- what the page shows of what it fetched ----

  /** What the query returns of the visible events: those in step with the window,
      and a backwards one whose far end the strings bring inside. */
  predicate Reached(event: CalendarEvent, window: (int, int)) {
    if !Missed(event, window) then InStep(event.startAt, event.endAt, window)
    else if event.isAllDay then
      Comparable(Year(event.startAt), Year(window.1)) && !Comparable(Year(event.endAt), Year(window.0))
    else !Comparable(Year(window.1), Year(event.startAt)) && Comparable(Year(window.0), Year(event.endAt))
  }

  lemma VisibleEventIsFetched(event: CalendarEvent, year: int, month: int, offset: int, i: nat)
    requires i < 42 && -MS_PER_DAY < offset < MS_PER_DAY
    requires Covers(event, offset, FirstCell(year, month) + i)
    requires Holds(event.startAt) && Holds(event.endAt) && WindowHolds(Window(year, month, offset))
    ensures var window := Window(year, month, offset);
            Fetched(event.startAt, event.endAt, window) <==> Reached(event, window)
  {
    hide Covers, FirstCell, Window, Year, Comparable, Fetched;
    VisibleEventIsInRange(event, year, month, offset, i);
    QueryIsMeant(event.startAt, event.endAt, Window(year, month, offset));
    NearEndIsInside(event, year, month, offset, i);
  }

  lemma NearEndIsInside(event: CalendarEvent, year: int, month: int, offset: int, i: nat)
    requires i < 42 && -MS_PER_DAY < offset < MS_PER_DAY
    requires Covers(event, offset, FirstCell(year, month) + i)
    ensures var window := Window(year, month, offset);
            Missed(event, window) ==>
              if event.isAllDay then event.startAt <= window.1 else event.endAt >= window.0
  {
    WindowEnds(year, month, offset);
    if event.startAt > event.endAt {
      BackwardsOnDay(event, offset, FirstCell(year, month) + i);
    }
    hide Covers, FirstCell, Window;
  }

  lemma FourDigitsReached(event: CalendarEvent, window: (int, int))
    requires FourDigits(event.startAt) && FourDigits(event.endAt) && FourDigits(window.0) && FourDigits(window.1)
    ensures Reached(event, window) <==> !Missed(event, window)
  {
    hide Year;
  }

  /** A visible day shows the same events as if everything had been fetched, if and
      only if the query reaches each event listed there; with four-digit years, if
      and only if none ends before it starts and outside the window. */
  lemma WindowLosesNoEvent(events: seq<CalendarEvent>, year: int, month: int, offset: int, i: nat)
    requires i < 42 && -MS_PER_DAY < offset < MS_PER_DAY
    requires WindowHolds(Window(year, month, offset))
    requires forall e :: e in events ==> Holds(e.startAt) && Holds(e.endAt)
    ensures var (window, key) := (Window(year, month, offset), Grid(year, month, offset)[i].key);
            EventsOn(Filter(EventFetched(window), events), offset, key) == EventsOn(events, offset, key) <==>
            forall e :: e in events && Lists(e, offset, key) ==> Reached(e, window)
    ensures var (window, key) := (Window(year, month, offset), Grid(year, month, offset)[i].key);
            FourDigits(window.0) && FourDigits(window.1)
            && (forall e :: e in events ==> FourDigits(e.startAt) && FourDigits(e.endAt)) ==>
            (EventsOn(Filter(EventFetched(window), events), offset, key) == EventsOn(events, offset, key) <==>
             forall e :: e in events && Lists(e, offset, key) ==> !Missed(e, window))
  {
    var window, day := Window(year, month, offset), FirstCell(year, month) + i;
    hide Window, FirstCell, DayKey, YearOf, Lists, Covers, Fetched, Grid, Filter, Reached, Missed, Holds, FourDigits;
    CellKey(year, month, offset, i);
    forall e: CalendarEvent | e in events && Lists(e, offset, DayKey(day))
      ensures EventFetched(window)(e) <==> Reached(e, window)
    {
      ListedOnItsDays(e, offset, day);
      VisibleEventIsFetched(e, year, month, offset, i);
    }
    FilterAfter(ListedUnder(offset, DayKey(day)), EventFetched(window), events);
    if FourDigits(window.0) && FourDigits(window.1) {
      forall e | e in events && FourDigits(e.startAt) && FourDigits(e.endAt)
        ensures Reached(e, window) <==> !Missed(e, window)
      {
        FourDigitsReached(e, window);
      }
    }
  }

  /** What lies in a window of four-digit years is in step with it. */
  lemma InsideIsInStep(t: int, window: (int, int))
    requires InRange(t, t, window) && FourDigits(window.0) && FourDigits(window.1)
    ensures InStep(t, t, window)
  {
    hide Year;
    YearsFollowTime(window.0, t);
    YearsFollowTime(t, window.1);
  }

  lemma InsideIsFetched(t: int, window: (int, int))
    requires InRange(t, t, window) && Holds(t) && WindowHolds(window)
    ensures Fetched(t, t, window) <==> InStep(t, t, window)
    ensures FourDigits(window.0) && FourDigits(window.1) ==> InStep(t, t, window)
  {
    hide Year, Fetched, Comparable;
    QueryIsMeant(t, t, window);
    if FourDigits(window.0) && FourDigits(window.1) {
      InsideIsInStep(t, window);
    }
  }

  /** The same for recordings, whether they go by a UTC date or by a local day; with
      a window of four-digit years none is lost. */
  lemma WindowLosesNoRecording(recordings: seq<Recording>, year: int, month: int, offset: int, i: nat)
    requires i < 42 && -MS_PER_DAY < offset < MS_PER_DAY
    requires WindowHolds(Window(year, month, offset)) && forall r :: r in recordings ==> Holds(EffectiveDate(r))
    ensures var (window, key) := (Window(year, month, offset), Grid(year, month, offset)[i].key);
            var shown := RecordingsOn(Filter(RecordingFetched(window), recordings), offset, key);
            && (shown == RecordingsOn(recordings, offset, key) <==>
                forall r :: r in recordings && RecordingKey(r, offset) == key ==>
                  InStep(EffectiveDate(r), EffectiveDate(r), window))
            && (FourDigits(window.0) && FourDigits(window.1) ==> shown == RecordingsOn(recordings, offset, key))
  {
    var window, day := Window(year, month, offset), FirstCell(year, month) + i;
    hide Window, FirstCell, DayKey, RecordingKey, InRange, EffectiveDate, Grid, Filter;
    hide Fetched, InStep, Holds, FourDigits;
    CellKey(year, month, offset, i);
    forall r | r in recordings && RecordedUnder(offset, DayKey(day))(r)
      ensures RecordingFetched(window)(r) <==> InStep(EffectiveDate(r), EffectiveDate(r), window)
      ensures FourDigits(window.0) && FourDigits(window.1) ==> RecordingFetched(window)(r)
    {
      RecordedInRange(r, year, month, offset, i);
      InsideIsFetched(EffectiveDate(r), window);
    }
    FilterAfter(RecordedUnder(offset, DayKey(day)), RecordingFetched(window), recordings);
  }

  /** The same for reminders, whose due instant lies on one local day. */
  lemma WindowLosesNoReminder(reminders: seq<Reminder>, year: int, month: int, offset: int, i: nat)
    requires i < 42
    requires WindowHolds(Window(year, month, offset)) && forall r :: r in reminders ==> Holds(r.dueAt)
    ensures var (window, key) := (Window(year, month, offset), Grid(year, month, offset)[i].key);
            var shown := RemindersOn(Filter(ReminderFetched(window), reminders), offset, key);
            && (shown == RemindersOn(reminders, offset, key) <==>
                forall r :: r in reminders && ReminderKey(r, offset) == key ==> InStep(r.dueAt, r.dueAt, window))
            && (FourDigits(window.0) && FourDigits(window.1) ==> shown == RemindersOn(reminders, offset, key))
  {
    var window, day := Window(year, month, offset), FirstCell(year, month) + i;
    hide Window, FirstCell, DayKey, ReminderKey, InRange, Grid, Filter, Fetched, InStep, Holds, FourDigits;
    CellKey(year, month, offset, i);
    forall r | r in reminders && DueUnder(offset, DayKey(day))(r)
      ensures ReminderFetched(window)(r) <==> InStep(r.dueAt, r.dueAt, window)
      ensures FourDigits(window.0) && FourDigits(window.1) ==> ReminderFetched(window)(r)
    {
      ReminderOnItsDay(r, offset, day);
      LocalDayInRange(r.dueAt, year, month, offset, i);
      InsideIsFetched(r.dueAt, window);
    }
    FilterAfter(DueUnder(offset, DayKey(day)), ReminderFetched(window), reminders);
  }

  lemma CellKey(year: int, month: int, offset: int, i: nat)
    requires i < 42
    ensures |Grid(year, month, offset)| == 42
    ensures Grid(year, month, offset)[i].key == DayKey(FirstCell(year, month) + i)
  {
    hide DayKey, FirstCell, LocalDay, DateOf, MonthOf;
    GridCell(year, month, offset, i);
  }

  lemma LocalDayInRange(t: int, year: int, month: int, offset: int, i: nat)
    requires i < 42 && LocalDay(t, offset) == FirstCell(year, month) + i
    ensures InRange(t, t, Window(year, month, offset))
  {
    WindowEnds(year, month, offset);
    DayBounds(t, offset);
    hide Window, FirstCell, LocalDay;
  }

  lemma UtcDayInRange(t: int, year: int, month: int, offset: int, i: nat)
    requires i < 42 && -MS_PER_DAY < offset < MS_PER_DAY && UtcDay(t) == FirstCell(year, month) + i
    ensures InRange(t, t, Window(year, month, offset))
  {
    WindowEnds(year, month, offset);
    DayBounds(t, 0);
    hide Window, FirstCell, LocalDay;
  }

  lemma RecordedInRange(r: Recording, year: int, month: int, offset: int, i: nat)
    requires i < 42 && -MS_PER_DAY < offset < MS_PER_DAY
    requires RecordingKey(r, offset) == DayKey(FirstCell(year, month) + i)
    ensures InRange(EffectiveDate(r), EffectiveDate(r), Window(year, month, offset))
  {
    hide Window, FirstCell, LocalDay, RecordingKey, DayKey, YearOf, InRange, UtcDay;
    RecordingOnItsDay(r, offset, FirstCell(year, month) + i);
    match r.documentDate
    case Some(date) => UtcDayInRange(date, year, month, offset, i);
    case None => LocalDayInRange(r.occurredAt, year, month, offset, i);
  }
}
