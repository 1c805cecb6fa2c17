/** The student's event calendar (src/components/EventCalendar.tsx): the fetched active
    events (ordered by `date_time`, ascending), the days that get a marker, and the list
    of events on the selected day. Turning a timestamp into a local calendar day depends
    on the time zone, so it is the parameter `localDay`. */
module EventCalendar {
  import opened Wrappers
  import opened Text
  import Seqs

  /** A local calendar day: `getFullYear()`, `getMonth()`, `getDate()`. */
  datatype Day = Day(year: int, month: int, date: int)

  /** An `events` row; `dateTime` is `date_time` as a timestamp. */
  datatype Event = Event(id: string, title: string, dateTime: int, location: string, description: string)

  /** The page's state: the selected date (`undefined` as `None`), the fetched events,
      the marked dates, and the selected day's events. */
  datatype Calendar = Calendar(date: Option<int>, events: seq<Event>, eventDates: seq<int>, selected: seq<Event>)

  /** The `dayEvents` test: the same local date, month and year, compared one by one. */
  predicate OnDay(e: Event, date: int, localDay: int -> Day) {
    localDay(e.dateTime).date == localDay(date).date &&
    localDay(e.dateTime).month == localDay(date).month &&
    localDay(e.dateTime).year == localDay(date).year
  }

  function OnDayTest(date: int, localDay: int -> Day): Event -> bool {
    (e: Event) => OnDay(e, date, localDay)
  }

  /** `events.filter(...)` for the selected date. */
  function DayEvents(events: seq<Event>, date: int, localDay: int -> Day): (r: seq<Event>)
    ensures forall i :: 0 <= i < |r| ==> localDay(r[i].dateTime) == localDay(date)
  {
    Seqs.Filter(events, OnDayTest(date, localDay))
  }

  /** The selected day's list holds exactly the fetched events that fall on that local day,
      in fetched order. */
  lemma DayEventsSpec(events: seq<Event>, date: int, localDay: int -> Day, e: Event)
    ensures e in DayEvents(events, date, localDay) <==> e in events && localDay(e.dateTime) == localDay(date)
    ensures Seqs.IsSubsequence(DayEvents(events, date, localDay), events)
  {
    Seqs.FilterMembership(events, OnDayTest(date, localDay), e);
    Seqs.FilterIsSubsequence(events, OnDayTest(date, localDay));
  }

  /** `a` is not later than `b`. */
  function NotLater(): (Event, Event) -> bool {
    (a: Event, b: Event) => a.dateTime <= b.dateTime
  }

  /** Fetched in ascending `date_time`, the day's events are listed earliest first. */
  lemma DayEventsChronological(events: seq<Event>, date: int, localDay: int -> Day)
    requires Seqs.SortedBy(events, NotLater())
    ensures Seqs.SortedBy(DayEvents(events, date, localDay), NotLater())
  {
    Seqs.FilterSorted(events, OnDayTest(date, localDay), NotLater());
  }

  /** The effect on `[date, events]`: with a date, the day's list is recomputed; without
      one (`undefined`), the earlier list stays. */
  function Refresh(c: Calendar, localDay: int -> Day): (r: Calendar)
    ensures r.date == c.date && r.events == c.events && r.eventDates == c.eventDates
    ensures c.date.None? ==> r.selected == c.selected
    ensures c.date.Some? ==> r.selected == DayEvents(c.events, c.date.value, localDay)
  {
    if c.date.Some? then c.(selected := DayEvents(c.events, c.date.value, localDay)) else c
  }

  /** `onSelect={setDate}` followed by the effect. */
  function Select(c: Calendar, date: Option<int>, localDay: int -> Day): (r: Calendar)
    ensures r.date == date && r.events == c.events && r.eventDates == c.eventDates
    ensures date.Some? ==> r.selected == DayEvents(c.events, date.value, localDay)
    ensures date.None? ==> r.selected == c.selected
  {
    Refresh(c.(date := date), localDay)
  }

  /** `fetchEvents` followed by the effect: a returned list becomes the events, and each
      event's `date_time` is marked, one date per event in the same order; no data changes
      nothing. */
  function Fetch(c: Calendar, data: Option<seq<Event>>, localDay: int -> Day): (r: Calendar)
    ensures data.Some? ==> r.events == data.value
    ensures data.Some? ==> |r.eventDates| == |data.value|
    ensures data.Some? ==> forall i :: 0 <= i < |data.value| ==> r.eventDates[i] == data.value[i].dateTime
    ensures data.None? ==> r == c
  {
    if data.Some? then
      var dates := seq(|data.value|, i requires 0 <= i < |data.value| => data.value[i].dateTime);
      Refresh(c.(events := data.value, eventDates := dates), localDay)
    else c
  }

  /** Clearing the selection keeps the list that was on screen, even after new events
      arrive. */
  lemma ClearKeepsList(c: Calendar, data: seq<Event>, localDay: int -> Day)
    ensures Fetch(Select(c, None, localDay), Some(data), localDay).selected == c.selected
  {
  }

  /** Every event on the selected day is on a marked date. */
  lemma SelectedAreMarked(c: Calendar, data: seq<Event>, date: int, localDay: int -> Day, e: Event)
    requires e in Fetch(Select(c, Some(date), localDay), Some(data), localDay).selected
    ensures e.dateTime in Fetch(Select(c, Some(date), localDay), Some(data), localDay).eventDates
  {
    var r := Fetch(Select(c, Some(date), localDay), Some(data), localDay);
    DayEventsSpec(data, date, localDay, e);
    var i :| 0 <= i < |data| && data[i] == e;
    assert r.eventDates[i] == e.dateTime;
  }

  /** `{n} event{n !== 1 ? 's' : ''} scheduled`. */
  function CountLabel(n: nat): (s: string)
    ensures StartsWith(s, NatToString(n) + " event")
  {
    NatToString(n) + " event" + (if n != 1 then "s" else "") + " scheduled"
  }

  /** The label is plural exactly when the count is not 1. */
  lemma CountLabelPlural(n: nat)
    ensures n != 1 <==> CountLabel(n) == NatToString(n) + " events scheduled"
    ensures n == 1 <==> CountLabel(n) == "1 event scheduled"
  {
    var digits := NatToString(n);
    assert |digits| >= 1;
    if n == 1 {
      assert digits == "1";
    }
  }
}
