/** Which days an event is listed under: the 24-hour stepping loops of
    `buildBuckets` (apps/web/src/pages/CalendarPage.tsx). */
module EventDays {
  import opened Utf16
  import opened Gregorian
  import opened DayKeys
  import opened Digits

  /** Start and end are instants; of an all-day event they are UTC midnights. */
  datatype CalendarEvent = CalendarEvent(id: Text, startAt: int, endAt: int, isAllDay: bool)

  const MAX_STEPS: nat := 62

  /** The key of a UTC day; every instant of the day has this one. */
  function UtcKey(day: int): (key: Text)
    ensures key != []
  {
    UtcKeyIsPrefix(day * MS_PER_DAY);
    UtcDayKey(IsoString(day * MS_PER_DAY))
  }

  function FirstDay(event: CalendarEvent, offset: int): int {
    if event.isAllDay then UtcDay(event.startAt) else LocalDay(event.startAt, offset)
  }

  function EventKey(event: CalendarEvent, day: int): Text {
    if event.isAllDay then UtcKey(day) else DayKey(day)
  }

  /** The loop guard, for the instant after `k` steps. */
  predicate Running(event: CalendarEvent, k: nat) {
    && k < MAX_STEPS
    && if event.isAllDay then event.startAt + k * MS_PER_DAY < event.endAt
       else event.startAt + k * MS_PER_DAY <= event.endAt
  }

  /** The days an event is listed under: those the loop steps on, the start day of
      an all-day event it never enters, and the end day of a timed one. */
  ghost predicate Covers(event: CalendarEvent, offset: int, day: int) {
    || (day >= FirstDay(event, offset) && Running(event, day - FirstDay(event, offset)))
    || (event.isAllDay && !Running(event, 0) && day == FirstDay(event, offset))
    || (!event.isAllDay && day == LocalDay(event.endAt, offset))
  }

  ghost predicate Lists(event: CalendarEvent, offset: int, key: Text) {
    exists day :: Covers(event, offset, day) && EventKey(event, day) == key
  }

  lemma StepIsNextDay(t: int, k: int, offset: int)
    ensures LocalDay(t + k * MS_PER_DAY, offset) == LocalDay(t, offset) + k
  {
  }

  /** `toISOString` and `slice(0, 10)` see only the UTC day of an instant. */
  lemma UtcKeyOfInstant(t: int)
    ensures UtcDayKey(IsoString(t)) == UtcKey(UtcDay(t))
  {
    var day := UtcDay(t);
    LocalMidnightUtc(day);
    UtcKeyIsPrefix(t);
    UtcKeyIsPrefix(day * MS_PER_DAY);
    hide UtcDayKey, IsoString, KeyOf, YearOf, UtcDay;
  }

  lemma LocalMidnightUtc(day: int)
    ensures UtcDay(day * MS_PER_DAY) == day
  {
  }

  /** The set of keys of one event, as a duplicate-free list in insertion order. */
  method EventKeys(event: CalendarEvent, offset: int) returns (keys: seq<Text>)
    ensures forall key :: key in keys <==> Lists(event, offset, key)
    ensures forall i, j :: 0 <= i < j < |keys| ==> keys[i] != keys[j]
  {
    hide *;
    keys := [];
    ghost var days: seq<int> := [];
    ghost var first := FirstDay(event, offset);
    var ts, guard := event.startAt, 0;
    NothingWalked(event, first);
    if event.isAllDay {
      while ts < event.endAt && guard < MAX_STEPS
        invariant 0 <= guard <= MAX_STEPS && ts == event.startAt + guard * MS_PER_DAY
        invariant KeysOf(event, days, keys) && Walked(event, days, first, guard)
        decreases MAX_STEPS - guard
      {
        var key := UtcDayKey(IsoString(ts));
        StepKey(event, offset, ts, guard);
        AddDay(event, days, keys, first + guard);
        WalkOn(event, days, first, guard);
        if key !in keys {
          keys := keys + [key];
        }
        days := days + [first + guard];
        ts, guard := ts + MS_PER_DAY, guard + 1;
      }
      WalkEnds(event, days, keys, first, guard);
      ghost var walk := days;
      if |keys| == 0 {
        StepKey(event, offset, event.startAt, 0);
        AddDay(event, days, keys, first);
        keys := keys + [UtcDayKey(IsoString(event.startAt))];
        days := days + [first];
      }
      AllDayIsCovered(event, offset, walk, guard, days);
    } else {
      while ts <= event.endAt && guard < MAX_STEPS
        invariant 0 <= guard <= MAX_STEPS && ts == event.startAt + guard * MS_PER_DAY
        invariant KeysOf(event, days, keys) && Walked(event, days, first, guard)
        decreases MAX_STEPS - guard
      {
        var key := LocalDayKey(ts, offset);
        StepKey(event, offset, ts, guard);
        AddDay(event, days, keys, first + guard);
        WalkOn(event, days, first, guard);
        if key !in keys {
          keys := keys + [key];
        }
        days := days + [first + guard];
        ts, guard := ts + MS_PER_DAY, guard + 1;
      }
      WalkEnds(event, days, keys, first, guard);
      var key := LocalDayKey(event.endAt, offset);
      EndKey(event, offset);
      AddDay(event, days, keys, LocalDay(event.endAt, offset));
      if key !in keys {
        keys := keys + [key];
      }
      TimedIsCovered(event, offset, days, guard);
      days := days + [LocalDay(event.endAt, offset)];
    }
    KeysAreListed(event, offset, days, keys);
  }

  // ---- what the loops keep ----

  /** `keys` are the distinct keys of `days`. */
  ghost predicate KeysOf(event: CalendarEvent, days: seq<int>, keys: seq<Text>) {
    && (forall i, j :: 0 <= i < j < |keys| ==> keys[i] != keys[j])
    && (forall day :: day in days ==> EventKey(event, day) in keys)
    && (forall key :: key in keys ==> exists day :: day in days && EventKey(event, day) == key)
  }

  /** The first `n` steps, one day each. */
  ghost predicate Walked(event: CalendarEvent, days: seq<int>, first: int, n: nat) {
    |days| == n && forall k :: 0 <= k < n ==> days[k] == first + k && Running(event, k)
  }

  lemma NothingWalked(event: CalendarEvent, first: int)
    ensures KeysOf(event, [], []) && Walked(event, [], first, 0)
  {
  }

  lemma StepKey(event: CalendarEvent, offset: int, ts: int, k: nat)
    requires ts == event.startAt + k * MS_PER_DAY
    ensures var day := FirstDay(event, offset) + k;
            EventKey(event, day) == if event.isAllDay then UtcDayKey(IsoString(ts)) else LocalDayKey(ts, offset)
  {
    StepIsNextDay(event.startAt, k, if event.isAllDay then 0 else offset);
    UtcKeyOfInstant(ts);
    hide UtcDayKey, IsoString, DayKey, LocalDay, UtcKey;
  }

  lemma EndKey(event: CalendarEvent, offset: int)
    requires !event.isAllDay
    ensures LocalDayKey(event.endAt, offset) == EventKey(event, LocalDay(event.endAt, offset))
  {
    hide DayKey, LocalDay, UtcKey;
  }

  lemma AddDay(event: CalendarEvent, days: seq<int>, keys: seq<Text>, day: int)
    requires KeysOf(event, days, keys)
    ensures var key := EventKey(event, day);
            KeysOf(event, days + [day], if key in keys then keys else keys + [key])
  {
    hide EventKey;
    forall key | key in keys ensures exists d :: d in days + [day] && EventKey(event, d) == key {
      var d :| d in days && EventKey(event, d) == key;
      assert d in days + [day];
    }
    assert day in days + [day];
  }

  lemma WalkOn(event: CalendarEvent, days: seq<int>, first: int, n: nat)
    requires Walked(event, days, first, n) && n < MAX_STEPS
    requires if event.isAllDay then event.startAt + n * MS_PER_DAY < event.endAt
             else event.startAt + n * MS_PER_DAY <= event.endAt
    ensures Walked(event, days + [first + n], first, n + 1)
  {
  }

  lemma RunningEnds(event: CalendarEvent, n: nat)
    requires !Running(event, n)
    ensures forall k: nat :: n <= k ==> !Running(event, k)
  {
    forall k: nat | n <= k ensures !Running(event, k) {
      assert n * MS_PER_DAY <= k * MS_PER_DAY;
    }
  }

  lemma WalkEnds(event: CalendarEvent, days: seq<int>, keys: seq<Text>, first: int, n: nat)
    requires Walked(event, days, first, n) && KeysOf(event, days, keys)
    requires n == MAX_STEPS || if event.isAllDay then event.startAt + n * MS_PER_DAY >= event.endAt
                               else event.startAt + n * MS_PER_DAY > event.endAt
    ensures !Running(event, n) && (|keys| == 0 <==> n == 0)
  {
    hide EventKey;
    if n > 0 {
      assert days[0] in days;
    }
    if |keys| > 0 {
      assert keys[0] in keys;
    }
  }

  lemma WalkIsRunning(event: CalendarEvent, walk: seq<int>, first: int, n: nat, day: int)
    requires Walked(event, walk, first, n) && !Running(event, n)
    ensures day in walk <==> day >= first && Running(event, day - first)
  {
    RunningEnds(event, n);
    if day >= first && Running(event, day - first) {
      assert walk[day - first] == day;
    }
  }

  lemma AllDayIsCovered(event: CalendarEvent, offset: int, walk: seq<int>, n: nat, days: seq<int>)
    requires event.isAllDay && Walked(event, walk, FirstDay(event, offset), n) && !Running(event, n)
    requires days == if n == 0 then walk + [FirstDay(event, offset)] else walk
    ensures forall day :: day in days <==> Covers(event, offset, day)
  {
    hide FirstDay, Running;
    forall day ensures day in days <==> Covers(event, offset, day) {
      WalkIsRunning(event, walk, FirstDay(event, offset), n, day);
    }
  }

  lemma TimedIsCovered(event: CalendarEvent, offset: int, walk: seq<int>, n: nat)
    requires !event.isAllDay && Walked(event, walk, FirstDay(event, offset), n) && !Running(event, n)
    ensures forall day :: day in walk + [LocalDay(event.endAt, offset)] <==> Covers(event, offset, day)
  {
    hide FirstDay, Running, LocalDay;
    forall day ensures day in walk + [LocalDay(event.endAt, offset)] <==> Covers(event, offset, day) {
      WalkIsRunning(event, walk, FirstDay(event, offset), n, day);
    }
  }

  lemma KeysAreListed(event: CalendarEvent, offset: int, days: seq<int>, keys: seq<Text>)
    requires KeysOf(event, days, keys) && forall day :: day in days <==> Covers(event, offset, day)
    ensures forall key :: key in keys <==> Lists(event, offset, key)
    ensures forall i, j :: 0 <= i < j < |keys| ==> keys[i] != keys[j]
  {
    hide Covers, EventKey;
  }

  // ---- closed forms, and where the 62-step guard bites ----

  /** A timed event, in closed form: the first 62 days from its start day, cut at
      its end, and always its end day. */
  lemma TimedDays(event: CalendarEvent, offset: int, day: int)
    requires !event.isAllDay
    ensures var (first, last) := (LocalDay(event.startAt, offset), LocalDay(event.endAt, offset));
            Covers(event, offset, day) <==> (first <= day <= last && day < first + 62) || day == last
  {
    var k := day - LocalDay(event.startAt, offset);
    if k >= 0 {
      LastStep(event.startAt, event.endAt, offset, k);
    }
    hide LocalDay;
  }

  lemma LastStep(start: int, end: int, offset: int, k: int)
    ensures start + k * MS_PER_DAY <= end ==> LocalDay(start, offset) + k <= LocalDay(end, offset)
    ensures LocalDay(start, offset) + k < LocalDay(end, offset) ==> start + k * MS_PER_DAY <= end
  {
  }

  /** The loop lists a timed event on exactly its days, first to last, if and only
      if it spans at most 62 of them beyond the first. */
  lemma TimedRangeIsExact(event: CalendarEvent, offset: int)
    requires !event.isAllDay
    ensures var (first, last) := (LocalDay(event.startAt, offset), LocalDay(event.endAt, offset));
            (forall day :: Covers(event, offset, day) <==> first <= day <= last) <==>
            first <= last && last - first <= 62
  {
    var first, last := LocalDay(event.startAt, offset), LocalDay(event.endAt, offset);
    hide Covers, LocalDay;
    forall day ensures Covers(event, offset, day) <==> (first <= day <= last && day < first + 62) || day == last {
      TimedDays(event, offset, day);
    }
    assert Covers(event, offset, last);
    if last - first > 62 {
      assert !Covers(event, offset, first + 62);
    }
  }

  /** An all-day event at any instants: its start day, and one day more for each
      whole day after the start that begins before the end, up to 62. */
  lemma AllDaySteps(event: CalendarEvent, offset: int, day: int)
    requires event.isAllDay
    ensures var k := day - UtcDay(event.startAt);
            Covers(event, offset, day) <==>
            k == 0 || (0 < k < 62 && event.startAt + k * 86_400_000 < event.endAt)
  {
    hide LocalDay;
    assert Running(event, 0) <==> event.startAt < event.endAt;
  }

  /** An all-day event between UTC midnights, in closed form. */
  lemma AllDayDays(event: CalendarEvent, offset: int, day: int)
    requires event.isAllDay && event.startAt % MS_PER_DAY == 0 && event.endAt % MS_PER_DAY == 0
    ensures var (first, end) := (UtcDay(event.startAt), UtcDay(event.endAt));
            Covers(event, offset, day) <==> (first <= day < end && day < first + 62) || (end <= first == day)
  {
    var first, end := UtcDay(event.startAt), UtcDay(event.endAt);
    assert event.startAt == first * MS_PER_DAY && event.endAt == end * MS_PER_DAY;
    assert first + 0 < end <==> event.startAt < event.endAt;
    assert day < end <==> event.startAt + (day - first) * MS_PER_DAY < event.endAt;
    hide LocalDay;
  }

  /** The loop lists an all-day event on exactly its UTC dates, end excluded, if and
      only if it has between one and 62 of them. */
  lemma AllDayRangeIsExact(event: CalendarEvent, offset: int)
    requires event.isAllDay && event.startAt % MS_PER_DAY == 0 && event.endAt % MS_PER_DAY == 0
    ensures var (first, end) := (UtcDay(event.startAt), UtcDay(event.endAt));
            (forall day :: Covers(event, offset, day) <==> first <= day < end) <==> 0 < end - first <= 62
  {
    var first, end := UtcDay(event.startAt), UtcDay(event.endAt);
    hide Covers, LocalDay;
    forall day
      ensures Covers(event, offset, day) <==> (first <= day < end && day < first + 62) || (end <= first == day)
    {
      AllDayDays(event, offset, day);
    }
    if end <= first {
      assert Covers(event, offset, first);
    } else if end - first > 62 {
      assert !Covers(event, offset, first + 62);
    }
  }

  // ---- keys and grid days ----

  /** Being listed under the key of a day is being listed on that day, except that
      no all-day event is listed under the key of a day whose year has not four
      figures: no UTC key is written that way. */
  lemma ListedOnItsDays(event: CalendarEvent, offset: int, day: int)
    ensures Lists(event, offset, DayKey(day)) <==>
            Covers(event, offset, day) && (event.isAllDay ==> 1000 <= YearOf(day) <= 9999)
  {
    hide Covers, DayKey, UtcKey, YearOf, LocalDay;
    if Lists(event, offset, DayKey(day)) {
      var other :| Covers(event, offset, other) && EventKey(event, other) == DayKey(day);
      if event.isAllDay {
        UtcKeyOnGrid(other, day);
      } else {
        DayKeyIsInjective(other, day);
      }
    } else if Covers(event, offset, day) && event.isAllDay {
      UtcKeyOnGrid(day, day);
    }
  }

  lemma UtcKeyOnGrid(a: int, day: int)
    ensures UtcKey(a) == DayKey(day) <==> a == day && 1000 <= YearOf(day) <= 9999
  {
    LocalMidnightUtc(a);
    UtcKeyIsDayKey(a * MS_PER_DAY, day);
    hide YearOf, UtcDay, UtcDayKey, IsoString, DayKey;
  }
}
