/** The day index of the calendar page: `buildBuckets` fills a map of mutable
    buckets, got or created by key (apps/web/src/pages/CalendarPage.tsx). */
module Buckets {
  import opened Options
  import opened Utf16
  import opened DayKeys
  import opened Gregorian
  import opened EventDays
  import opened Filters

  datatype Recording = Recording(id: Text, occurredAt: int, documentDate: Option<int>)
  datatype Reminder = Reminder(id: Text, dueAt: int)

  /** A scanned document goes by its own UTC date, anything else by the local day it
      happened on. */
  function RecordingKey(r: Recording, offset: int): Text {
    match r.documentDate
    case Some(date) => UtcDayKey(IsoString(date))
    case None => LocalDayKey(r.occurredAt, offset)
  }

  function ReminderKey(r: Reminder, offset: int): Text {
    LocalDayKey(r.dueAt, offset)
  }

  // ---- the simple filters the index must equal ----

  ghost function ListedUnder(offset: int, key: Text): CalendarEvent -> bool {
    event => Lists(event, offset, key)
  }

  function RecordedUnder(offset: int, key: Text): Recording -> bool {
    recording => RecordingKey(recording, offset) == key
  }

  function DueUnder(offset: int, key: Text): Reminder -> bool {
    reminder => ReminderKey(reminder, offset) == key
  }

  ghost function EventsOn(events: seq<CalendarEvent>, offset: int, key: Text): seq<CalendarEvent> {
    Filter(ListedUnder(offset, key), events)
  }

  ghost function RecordingsOn(recordings: seq<Recording>, offset: int, key: Text): seq<Recording> {
    Filter(RecordedUnder(offset, key), recordings)
  }

  ghost function RemindersOn(reminders: seq<Reminder>, offset: int, key: Text): seq<Reminder> {
    Filter(DueUnder(offset, key), reminders)
  }

  datatype Contents = Contents(events: seq<CalendarEvent>, recordings: seq<Recording>, reminders: seq<Reminder>)

  const EMPTY := Contents([], [], [])

  class DayBucket {
    var events: seq<CalendarEvent>
    var recordings: seq<Recording>
    var reminders: seq<Reminder>

    constructor ()
      ensures events == [] && recordings == [] && reminders == []
    {
      events, recordings, reminders := [], [], [];
    }
  }

  class BucketIndex {
    var buckets: map<Text, DayBucket>

    /** No two keys share a bucket. */
    ghost predicate Valid()
      reads this
    {
      forall k, l :: k in buckets && l in buckets && k != l ==> buckets[k] != buckets[l]
    }

    /** What a lookup of `key` shows; a missing bucket reads as an empty one. */
    ghost function At(key: Text): Contents
      reads this, buckets.Values
    {
      if key in buckets then
        var b := buckets[key];
        Contents(b.events, b.recordings, b.reminders)
      else EMPTY
    }

    /** No bucket was created for nothing. */
    ghost predicate Tidy()
      reads this, buckets.Values
    {
      Valid() && forall key :: key in buckets ==> At(key) != EMPTY
    }

    constructor ()
      ensures Tidy() && buckets == map[]
    {
      buckets := map[];
    }

    /** Get or create. */
    method Bucket(key: Text) returns (entry: DayBucket)
      requires Valid()
      modifies this
      ensures Valid() && key in buckets && buckets[key] == entry
      ensures buckets == old(buckets)[key := entry]
      ensures if key in old(buckets) then entry == old(buckets)[key] else fresh(entry)
      ensures forall k :: At(k) == old(At(k))
    {
      if key in buckets {
        entry := buckets[key];
      } else {
        entry := new DayBucket();
        buckets := buckets[key := entry];
      }
    }

    method AddEvent(key: Text, event: CalendarEvent)
      requires Tidy()
      modifies this, buckets.Values
      ensures Tidy() && fresh(buckets.Values - old(buckets.Values))
      ensures forall k :: At(k) == if k == key then old(At(k)).(events := old(At(k)).events + [event]) else old(At(k))
    {
      var entry := Bucket(key);
      entry.events := entry.events + [event];
    }

    method AddRecording(key: Text, recording: Recording)
      requires Tidy()
      modifies this, buckets.Values
      ensures Tidy() && fresh(buckets.Values - old(buckets.Values))
      ensures forall k ::
                At(k) == if k == key then old(At(k)).(recordings := old(At(k)).recordings + [recording]) else old(At(k))
    {
      var entry := Bucket(key);
      entry.recordings := entry.recordings + [recording];
    }

    method AddReminder(key: Text, reminder: Reminder)
      requires Tidy()
      modifies this, buckets.Values
      ensures Tidy() && fresh(buckets.Values - old(buckets.Values))
      ensures forall k ::
                At(k) == if k == key then old(At(k)).(reminders := old(At(k)).reminders + [reminder]) else old(At(k))
    {
      var entry := Bucket(key);
      entry.reminders := entry.reminders + [reminder];
    }
  }

  method FileEvent(index: BucketIndex, event: CalendarEvent, offset: int)
    requires index.Tidy()
    modifies index, index.buckets.Values
    ensures index.Tidy() && fresh(index.buckets.Values - old(index.buckets.Values))
    ensures forall key :: index.At(key) ==
              var was := old(index.At(key));
              if Lists(event, offset, key) then was.(events := was.events + [event]) else was
  {
    hide Lists;
    var keys := EventKeys(event, offset);
    for j := 0 to |keys|
      invariant index.Tidy() && fresh(index.buckets.Values - old(index.buckets.Values))
      invariant forall key :: index.At(key) ==
                  var was := old(index.At(key));
                  if key in keys[..j] then was.(events := was.events + [event]) else was
    {
      TakeSnoc(keys, j);
      assert keys[j] !in keys[..j];
      index.AddEvent(keys[j], event);
    }
    assert keys[..|keys|] == keys;
  }

  method FileEvents(index: BucketIndex, events: seq<CalendarEvent>, offset: int)
    requires index.Tidy()
    modifies index, index.buckets.Values
    ensures index.Tidy() && fresh(index.buckets.Values - old(index.buckets.Values))
    ensures forall key :: index.At(key) ==
              var was := old(index.At(key)); was.(events := was.events + EventsOn(events, offset, key))
  {
    hide Filter, Lists, BucketIndex.Tidy, BucketIndex.At;
    NoneYet(offset);
    for i := 0 to |events|
      invariant index.Tidy() && fresh(index.buckets.Values - old(index.buckets.Values))
      invariant forall key :: index.At(key) ==
                  var was := old(index.At(key)); was.(events := was.events + EventsOn(events[..i], offset, key))
    {
      FileEvent(index, events[i], offset);
      forall key ensures index.At(key) ==
          var was := old(index.At(key)); was.(events := was.events + EventsOn(events[..i + 1], offset, key))
      {
        FilterNext(ListedUnder(offset, key), events, i);
        Assoc(old(index.At(key)).events, EventsOn(events[..i], offset, key), [events[i]]);
      }
    }
    assert events[..|events|] == events;
  }

  method FileRecording(index: BucketIndex, recording: Recording, offset: int)
    requires index.Tidy()
    modifies index, index.buckets.Values
    ensures index.Tidy() && fresh(index.buckets.Values - old(index.buckets.Values))
    ensures forall key :: index.At(key) ==
              var was := old(index.At(key));
              if RecordingKey(recording, offset) == key then was.(recordings := was.recordings + [recording]) else was
  {
    hide UtcDayKey, IsoString, LocalDayKey;
    var key := match recording.documentDate
      case Some(date) => UtcDayKey(IsoString(date))
      case None => LocalDayKey(recording.occurredAt, offset);
    assert key == RecordingKey(recording, offset);
    hide RecordingKey;
    index.AddRecording(key, recording);
  }

  method FileRecordings(index: BucketIndex, recordings: seq<Recording>, offset: int)
    requires index.Tidy()
    modifies index, index.buckets.Values
    ensures index.Tidy() && fresh(index.buckets.Values - old(index.buckets.Values))
    ensures forall key :: index.At(key) ==
              var was := old(index.At(key)); was.(recordings := was.recordings + RecordingsOn(recordings, offset, key))
  {
    hide Filter, RecordingKey, BucketIndex.Tidy, BucketIndex.At;
    NoneYet(offset);
    for i := 0 to |recordings|
      invariant index.Tidy() && fresh(index.buckets.Values - old(index.buckets.Values))
      invariant forall key :: index.At(key) ==
                  var was := old(index.At(key));
                  was.(recordings := was.recordings + RecordingsOn(recordings[..i], offset, key))
    {
      FileRecording(index, recordings[i], offset);
      forall key ensures index.At(key) ==
          var was := old(index.At(key));
          was.(recordings := was.recordings + RecordingsOn(recordings[..i + 1], offset, key))
      {
        FilterNext(RecordedUnder(offset, key), recordings, i);
        Assoc(old(index.At(key)).recordings, RecordingsOn(recordings[..i], offset, key), [recordings[i]]);
      }
    }
    assert recordings[..|recordings|] == recordings;
  }

  method FileReminder(index: BucketIndex, reminder: Reminder, offset: int)
    requires index.Tidy()
    modifies index, index.buckets.Values
    ensures index.Tidy() && fresh(index.buckets.Values - old(index.buckets.Values))
    ensures forall key :: index.At(key) ==
              var was := old(index.At(key));
              if ReminderKey(reminder, offset) == key then was.(reminders := was.reminders + [reminder]) else was
  {
    hide LocalDayKey;
    index.AddReminder(LocalDayKey(reminder.dueAt, offset), reminder);
  }

  method FileReminders(index: BucketIndex, reminders: seq<Reminder>, offset: int)
    requires index.Tidy()
    modifies index, index.buckets.Values
    ensures index.Tidy() && fresh(index.buckets.Values - old(index.buckets.Values))
    ensures forall key :: index.At(key) ==
              var was := old(index.At(key)); was.(reminders := was.reminders + RemindersOn(reminders, offset, key))
  {
    hide Filter, ReminderKey, BucketIndex.Tidy, BucketIndex.At;
    NoneYet(offset);
    for i := 0 to |reminders|
      invariant index.Tidy() && fresh(index.buckets.Values - old(index.buckets.Values))
      invariant forall key :: index.At(key) ==
                  var was := old(index.At(key));
                  was.(reminders := was.reminders + RemindersOn(reminders[..i], offset, key))
    {
      FileReminder(index, reminders[i], offset);
      forall key ensures index.At(key) ==
          var was := old(index.At(key)); was.(reminders := was.reminders + RemindersOn(reminders[..i + 1], offset, key))
      {
        FilterNext(DueUnder(offset, key), reminders, i);
        Assoc(old(index.At(key)).reminders, RemindersOn(reminders[..i], offset, key), [reminders[i]]);
      }
    }
    assert reminders[..|reminders|] == reminders;
  }

  /** The index equals the simple filter, key by key. */
  method BuildBuckets(events: seq<CalendarEvent>, recordings: seq<Recording>, reminders: seq<Reminder>, offset: int)
    returns (index: BucketIndex)
    ensures fresh(index) && fresh(index.buckets.Values) && index.Tidy()
    ensures forall key :: index.At(key) == Contents(EventsOn(events, offset, key),
                                                    RecordingsOn(recordings, offset, key),
                                                    RemindersOn(reminders, offset, key))
  {
    hide EventsOn, RecordingsOn, RemindersOn;
    index := new BucketIndex();
    FileEvents(index, events, offset);
    FileRecordings(index, recordings, offset);
    FileReminders(index, reminders, offset);
  }

  lemma NoneYet(offset: int)
    ensures forall key ::
              && EventsOn([], offset, key) == []
              && RecordingsOn([], offset, key) == []
              && RemindersOn([], offset, key) == []
  {
  }

  /** What a lookup of the key of a day finds. Keys never mix up days, and the key of
      a year without four figures is nobody's UTC key. */
  ghost function FoundOn(offset: int, day: int): CalendarEvent -> bool {
    event => Covers(event, offset, day) && (event.isAllDay ==> 1000 <= YearOf(day) <= 9999)
  }

  /** Looking up the key of a day finds, in input order, exactly the events that
      cover that day, but only the timed ones outside the four-figure years. */
  lemma LookupFindsTheDay(events: seq<CalendarEvent>, offset: int, day: int)
    ensures EventsOn(events, offset, DayKey(day)) == Filter(FoundOn(offset, day), events)
  {
    hide Lists, Covers, DayKey, YearOf;
    forall event: CalendarEvent ensures ListedUnder(offset, DayKey(day))(event) == FoundOn(offset, day)(event) {
      ListedOnItsDays(event, offset, day);
    }
    FilterAlike(ListedUnder(offset, DayKey(day)), FoundOn(offset, day), events);
  }

  /** A scanned document is filed under the day of its own UTC date, if the year has
      four figures, any other recording under the local day it happened on. */
  lemma RecordingOnItsDay(r: Recording, offset: int, day: int)
    ensures RecordingKey(r, offset) == DayKey(day) <==>
            match r.documentDate
            case Some(date) => UtcDay(date) == day && 1000 <= YearOf(day) <= 9999
            case None => LocalDay(r.occurredAt, offset) == day
  {
    hide UtcDay, LocalDay, DayKey, YearOf, IsoString, UtcDayKey;
    match r.documentDate {
      case Some(date) =>
        UtcKeyIsDayKey(date, day);
      case None =>
        if DayKey(LocalDay(r.occurredAt, offset)) == DayKey(day) {
          DayKeyIsInjective(LocalDay(r.occurredAt, offset), day);
        }
    }
  }

  lemma ReminderOnItsDay(r: Reminder, offset: int, day: int)
    ensures ReminderKey(r, offset) == DayKey(day) <==> LocalDay(r.dueAt, offset) == day
  {
    hide LocalDay, DayKey;
    if DayKey(LocalDay(r.dueAt, offset)) == DayKey(day) {
      DayKeyIsInjective(LocalDay(r.dueAt, offset), day);
    }
  }

  // ---- nothing is lost, nothing is filed twice ----

  /** Under each key an event is filed as often as it was given, if it is listed
      there, and else not at all. */
  lemma EventsAreConserved(events: seq<CalendarEvent>, offset: int, key: Text, e: CalendarEvent)
    ensures multiset(EventsOn(events, offset, key))[e] == if Lists(e, offset, key) then multiset(events)[e] else 0
  {
    hide Lists;
    FilterCounts(ListedUnder(offset, key), events, e);
  }

  /** Every recording lands in exactly one bucket, as often as it was given. */
  lemma RecordingsAreConserved(recordings: seq<Recording>, offset: int, key: Text, r: Recording)
    ensures multiset(RecordingsOn(recordings, offset, key))[r] ==
            if key == RecordingKey(r, offset) then multiset(recordings)[r] else 0
  {
    hide RecordingKey;
    FilterCounts(RecordedUnder(offset, key), recordings, r);
  }

  /** Every reminder lands in exactly one bucket, as often as it was given. */
  lemma RemindersAreConserved(reminders: seq<Reminder>, offset: int, key: Text, r: Reminder)
    ensures multiset(RemindersOn(reminders, offset, key))[r] ==
            if key == ReminderKey(r, offset) then multiset(reminders)[r] else 0
  {
    hide ReminderKey;
    FilterCounts(DueUnder(offset, key), reminders, r);
  }
}
