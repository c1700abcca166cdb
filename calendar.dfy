/**
 * `CalendarAPIClient`: an in-memory, append-only list of events with a range
 * query on start times. The id `event_${Date.now()}` comes from a clock, so
 * the caller supplies it.
 */
module Calendar {
  import opened Wrappers
  import opened Parser

  /** The event object the scheduler submits; its end can be the Invalid Date. */
  datatype EventRequest = EventRequest(title: string, startTime: Instant, endTime: Date,
                                       location: Option<string>, participants: seq<string>)

  /** A stored event: the submitted fields plus an id. */
  datatype CalendarEvent = CalendarEvent(id: string, title: string, startTime: Instant, endTime: Date,
                                         location: Option<string>, participants: seq<string>)

  /** `{ id, ...event }` */
  function Stamp(req: EventRequest, id: string): (e: CalendarEvent)
    ensures e.id == id && e.title == req.title && e.startTime == req.startTime && e.endTime == req.endTime
    ensures e.location == req.location && e.participants == req.participants
  {
    CalendarEvent(id, req.title, req.startTime, req.endTime, req.location, req.participants)
  }

  /** The fields of an event other than its id. */
  function Request(e: CalendarEvent): EventRequest {
    EventRequest(e.title, e.startTime, e.endTime, e.location, e.participants)
  }

  /** Stamping keeps the whole request: dropping the id again gives it back. */
  lemma StampKeepsRequest(req: EventRequest, id: string)
    ensures Request(Stamp(req, id)) == req
  {
  }

  predicate InWindow(e: CalendarEvent, from: Instant, to: Instant) {
    from <= e.startTime <= to
  }

  /** `events.filter(event => event.startTime >= startDate && event.startTime <= endDate)` */
  function InRange(events: seq<CalendarEvent>, from: Instant, to: Instant): (r: seq<CalendarEvent>)
    ensures |r| <= |events|
    ensures forall e :: e in r <==> e in events && InWindow(e, from, to)
    decreases |events|
  {
    if events == [] then []
    else
      var init := InRange(events[..|events| - 1], from, to);
      var last := events[|events| - 1];
      assert events == events[..|events| - 1] + [last];
      if InWindow(last, from, to) then init + [last] else init
  }

  /** The filter keeps insertion order: it distributes over concatenation. */
  lemma {:induction false} InRangeAppend(a: seq<CalendarEvent>, b: seq<CalendarEvent>, from: Instant, to: Instant)
    ensures InRange(a + b, from, to) == InRange(a, from, to) + InRange(b, from, to)
    decreases |b|
  {
    if b == [] {
      assert a + b == a;
    } else {
      var init := b[..|b| - 1];
      assert (a + b)[..|a + b| - 1] == a + init;
      assert (a + b)[|a + b| - 1] == b[|b| - 1];
      InRangeAppend(a, init, from, to);
    }
  }

  /** An event in range is returned, and only it is, among its own list. */
  lemma InRangeSingle(e: CalendarEvent, from: Instant, to: Instant)
    ensures InRange([e], from, to) == if InWindow(e, from, to) then [e] else []
  {
    assert [e][..0] == [];
  }

  class CalendarClient {
    var events: seq<CalendarEvent>

    constructor()
      ensures events == []
    {
      events := [];
    }

    /** `createEvent`: stamps the request with `id` and pushes it; earlier events stay as they were. */
    method CreateEvent(req: EventRequest, id: string) returns (e: CalendarEvent)
      modifies this
      ensures e == Stamp(req, id)
      ensures events == old(events) + [e]
    {
      e := Stamp(req, id);
      events := events + [e];
    }

    /** `getEvents`: the stored events whose start lies in `[from, to]`, in insertion order. */
    function GetEvents(from: Instant, to: Instant): (r: seq<CalendarEvent>)
      reads this
      ensures |r| <= |events|
      ensures forall e :: e in r <==> e in events && from <= e.startTime <= to
    {
      InRange(events, from, to)
    }
  }

  /** After `createEvent`, a range query returns what it returned before, plus the new event if it starts in range. */
  lemma InRangeAfterPush(events: seq<CalendarEvent>, e: CalendarEvent, from: Instant, to: Instant)
    ensures InRange(events + [e], from, to) == InRange(events, from, to) + (if from <= e.startTime <= to then [e] else [])
  {
    InRangeAppend(events, [e], from, to);
    InRangeSingle(e, from, to);
  }
}
