/**
 * `ChatMeetingScheduler.processMessage`: parse the message, then for every
 * span extract the details, validate them and, when they are valid, submit the
 * event to the calendar. A span that fails, in validation or at the calendar,
 * adds a failed entry and the loop goes on with the next one.
 *
 * The calendar is fallible: `env(k)` is the outcome of the `k`-th calendar
 * call of this message (an id for the new event, or the message of the error
 * it throws). The chrono results for the message are an input, as in `Parser`.
 */
module Scheduler {
  import opened Wrappers
  import opened Parser
  import opened Extractor
  import opened Validator
  import opened Calendar

  /** What one calendar call does: it stores the event under an id, or throws an error with a message. */
  datatype Reply = Accept(id: string) | Fail(message: string)

  /** One entry of `results`: `{ success: true, event }` or `{ success: false, errors }`. */
  datatype SpanResult = Scheduled(event: CalendarEvent) | Rejected(errors: seq<string>)
  {
    predicate Success() { Scheduled? }
  }

  /** The value `processMessage` resolves to; `success` is a field the code always sets to `true`. */
  datatype Outcome =
    | NoTemporals(success: bool, events: seq<CalendarEvent>, message: string)
    | Processed(success: bool, results: seq<SpanResult>)

  const NoTemporalsMessage := "No temporal expressions found"

  /** The event object built for a valid span. */
  function RequestFor(t: Temporal, d: MeetingDetails): (req: EventRequest)
    ensures req.title == d.title && req.location == d.location && req.participants == d.participants
    ensures req.startTime == t.startDate && req.endTime == EffectiveEnd(t, d)
  {
    EventRequest(d.title, t.startDate, EffectiveEnd(t, d), d.location, d.participants)
  }

  /** Whether the span passes validation (the clock does not matter for this). */
  predicate IsValidSpan(message: string, t: Temporal, now: Instant) {
    Validation(t, DetailsOf(message, t), now).isValid
  }

  /** The entry a span adds to `results`; `reply` is what the calendar does if it is called. */
  function Entry(message: string, t: Temporal, now: Instant, reply: Reply): (r: SpanResult)
    ensures r.Success() <==> IsValidSpan(message, t, now) && reply.Accept?
  {
    var d := DetailsOf(message, t);
    var v := Validation(t, d, now);
    if !v.isValid then Rejected(v.errors)
    else
      match reply
      case Accept(id) => Scheduled(Stamp(RequestFor(t, d), id))
      case Fail(msg) => Rejected([msg])
  }

  /**
   * A span that fails validation carries its validation errors; a valid one
   * is the stamped event if the calendar accepts it, and the calendar's error
   * message if it throws. A failed entry always has at least one message.
   */
  lemma EntryCases(message: string, t: Temporal, now: Instant, reply: Reply)
    ensures var r := Entry(message, t, now, reply);
            && (!IsValidSpan(message, t, now) ==> r == Rejected(Validation(t, DetailsOf(message, t), now).errors))
            && (IsValidSpan(message, t, now) && reply.Accept? ==>
                  r == Scheduled(Stamp(RequestFor(t, DetailsOf(message, t)), reply.id)))
            && (IsValidSpan(message, t, now) && reply.Fail? ==> r == Rejected([reply.message]))
            && (r.Rejected? ==> |r.errors| >= 1)
  {
  }

  /**
   * A booked event never ends at or before its start, since validation
   * rejects those spans; its end can still be the Invalid Date, which no
   * comparison catches.
   */
  lemma ScheduledEndsAfterStart(message: string, t: Temporal, now: Instant, reply: Reply)
    ensures var r := Entry(message, t, now, reply);
            r.Scheduled? ==> r.event.endTime.InvalidDate? || r.event.endTime.ms > r.event.startTime
  {
    ValidationErrors(t, DetailsOf(message, t), now);
  }

  /** The request a span submits to the calendar: one if it is valid, none otherwise. */
  function Submission(message: string, t: Temporal, now: Instant): seq<EventRequest> {
    if IsValidSpan(message, t, now) then [RequestFor(t, DetailsOf(message, t))] else []
  }

  /** The event a span adds to the store: one if it is valid and the calendar accepts it. */
  function Creation(message: string, t: Temporal, now: Instant, reply: Reply): seq<CalendarEvent> {
    var r := Entry(message, t, now, reply);
    if r.Scheduled? then [r.event] else []
  }

  /** The loop's state after some spans: the entries, the events stored and the requests submitted, in order. */
  datatype RunState = RunState(results: seq<SpanResult>, created: seq<CalendarEvent>, submitted: seq<EventRequest>)

  /** One pass of the loop body. */
  function Step(st: RunState, message: string, t: Temporal, now: Instant, reply: Reply): RunState {
    RunState(st.results + [Entry(message, t, now, reply)],
             st.created + Creation(message, t, now, reply),
             st.submitted + Submission(message, t, now))
  }

  /** The loop over `spans`; the `k`-th calendar call gets `env(k)`. */
  function RunSpans(message: string, spans: seq<Temporal>, now: Instant, env: nat -> Reply): (st: RunState)
    ensures |st.results| == |spans|
    decreases |spans|
  {
    if spans == [] then RunState([], [], [])
    else
      var st := RunSpans(message, spans[..|spans| - 1], now, env);
      Step(st, message, spans[|spans| - 1], now, env(|st.submitted|))
  }

  /** The requests the loop submits: one per valid span, in span order. */
  function ValidRequests(message: string, spans: seq<Temporal>, now: Instant): seq<EventRequest>
    decreases |spans|
  {
    if spans == [] then []
    else
      var t := spans[|spans| - 1];
      ValidRequests(message, spans[..|spans| - 1], now) +
      (if IsValidSpan(message, t, now) then [RequestFor(t, DetailsOf(message, t))] else [])
  }

  /** The events that the entries of `results` carry, in order. */
  function ScheduledEvents(results: seq<SpanResult>): seq<CalendarEvent>
    decreases |results|
  {
    if results == [] then []
    else
      var last := results[|results| - 1];
      ScheduledEvents(results[..|results| - 1]) + (if last.Scheduled? then [last.event] else [])
  }

  /**
   * The calendar is called once per valid span, in span order, and never for
   * an invalid one; the events stored are exactly those of the successful
   * entries.
   */
  lemma {:induction false} RunSpansShape(message: string, spans: seq<Temporal>, now: Instant, env: nat -> Reply)
    ensures RunSpans(message, spans, now, env).submitted == ValidRequests(message, spans, now)
    ensures RunSpans(message, spans, now, env).created == ScheduledEvents(RunSpans(message, spans, now, env).results)
    decreases |spans|
  {
    if spans != [] {
      var init := spans[..|spans| - 1];
      RunSpansShape(message, init, now, env);
      var st := RunSpans(message, init, now, env);
      var st' := RunSpans(message, spans, now, env);
      assert st'.results[..|st'.results| - 1] == st.results;
    }
  }

  /** The loop after span `i` is the loop before it followed by one more pass. */
  lemma RunSpansUnfold(message: string, spans: seq<Temporal>, i: nat, now: Instant, env: nat -> Reply)
    requires i < |spans|
    ensures var st := RunSpans(message, spans[..i], now, env);
            RunSpans(message, spans[..i + 1], now, env) == Step(st, message, spans[i], now, env(|st.submitted|))
  {
    assert spans[..i + 1][..i] == spans[..i];
  }

  /** Processing more spans never changes the entries of the earlier ones. */
  lemma {:induction false} RunSpansPrefix(message: string, spans: seq<Temporal>, i: nat, now: Instant, env: nat -> Reply)
    requires i <= |spans|
    ensures RunSpans(message, spans[..i], now, env).results <= RunSpans(message, spans, now, env).results
    decreases |spans|
  {
    if i < |spans| {
      var init := spans[..|spans| - 1];
      assert spans[..i] == init[..i];
      RunSpansPrefix(message, init, i, now, env);
    } else {
      assert spans[..i] == spans;
    }
  }

  /** The entry of span `i` is its `Entry`, with the reply of the calendar call numbered by the valid spans before it. */
  lemma EntryOfSpan(message: string, spans: seq<Temporal>, i: nat, now: Instant, env: nat -> Reply)
    requires i < |spans|
    ensures RunSpans(message, spans, now, env).results[i] ==
            Entry(message, spans[i], now, env(|ValidRequests(message, spans[..i], now)|))
  {
    var before := RunSpans(message, spans[..i], now, env);
    var upto := RunSpans(message, spans[..i + 1], now, env);
    RunSpansUnfold(message, spans, i, now, env);
    assert upto.results[i] == Entry(message, spans[i], now, env(|before.submitted|));
    RunSpansShape(message, spans[..i], now, env);
    RunSpansPrefix(message, spans, i + 1, now, env);
  }

  /** Every event a message stores ends after it starts, unless its end is the Invalid Date. */
  lemma {:induction false} CreatedEndAfterStart(message: string, spans: seq<Temporal>, now: Instant, env: nat -> Reply)
    ensures forall e :: e in RunSpans(message, spans, now, env).created ==>
              e.endTime.InvalidDate? || e.endTime.ms > e.startTime
    decreases |spans|
  {
    if spans != [] {
      var init := spans[..|spans| - 1];
      CreatedEndAfterStart(message, init, now, env);
      var st := RunSpans(message, init, now, env);
      ScheduledEndsAfterStart(message, spans[|spans| - 1], now, env(|st.submitted|));
    }
  }

  /** The `processMessage` loop after `i` spans: its entries, its call count and the store agree with `RunSpans`. */
  predicate LoopState(message: string, spans: seq<Temporal>, i: nat, now: Instant, env: nat -> Reply,
                      results: seq<SpanResult>, calls: nat, events0: seq<CalendarEvent>, events: seq<CalendarEvent>)
  {
    i <= |spans| &&
    var st := RunSpans(message, spans[..i], now, env);
    results == st.results && calls == |st.submitted| && events == events0 + st.created
  }

  /** One pass of `HandleSpan` takes the loop state from `i` spans to `i + 1`. */
  lemma LoopStep(message: string, spans: seq<Temporal>, i: nat, now: Instant, env: nat -> Reply,
                 results: seq<SpanResult>, calls: nat, events0: seq<CalendarEvent>, before: seq<CalendarEvent>,
                 r: SpanResult, calls': nat, after: seq<CalendarEvent>)
    requires i < |spans| && LoopState(message, spans, i, now, env, results, calls, events0, before)
    requires r == Entry(message, spans[i], now, env(calls))
    requires calls' == calls + |Submission(message, spans[i], now)|
    requires after == before + Creation(message, spans[i], now, env(calls))
    ensures LoopState(message, spans, i + 1, now, env, results + [r], calls', events0, after)
  {
    var st := RunSpans(message, spans[..i], now, env);
    RunSpansUnfold(message, spans, i, now, env);
    AppendAssoc(events0, st.created, Creation(message, spans[i], now, env(calls)));
  }

  lemma AppendAssoc<T>(a: seq<T>, b: seq<T>, c: seq<T>)
    ensures (a + b) + c == a + (b + c)
  {
  }

  class ChatMeetingScheduler {
    const calendarClient: CalendarClient

    constructor()
      ensures fresh(calendarClient) && calendarClient.events == []
    {
      calendarClient := new CalendarClient();
    }

    /** One pass of the `for` loop over the spans; `calls` counts the calendar calls made so far. */
    method HandleSpan(message: string, temporal: Temporal, now: Instant, env: nat -> Reply, calls: nat)
      returns (r: SpanResult, calls': nat)
      modifies calendarClient
      ensures r == Entry(message, temporal, now, env(calls))
      ensures calls' == calls + |Submission(message, temporal, now)|
      ensures calendarClient.events == old(calendarClient.events) + Creation(message, temporal, now, env(calls))
    {
      var details := Extract(message, temporal);
      var validation := Validate(temporal, details, now);
      if !validation.isValid {
        return Rejected(validation.errors), calls;
      }
      // `temporal.endDate || new Date(...)`, the same end the validator checked.
      var endTime := EffectiveEnd(temporal, details);
      var event := EventRequest(details.title, temporal.startDate, endTime, details.location, details.participants);
      var reply := env(calls);
      calls' := calls + 1;
      match reply {
        case Accept(id) =>
          var createdEvent := calendarClient.CreateEvent(event, id);
          r := Scheduled(createdEvent);
        case Fail(msg) =>
          r := Rejected([msg]);
      }
    }

    /**
     * `processMessage`. With no span the calendar is left alone; otherwise the
     * entries are `RunSpans`'s and the store has grown by exactly the events `RunSpans`
     * created. `success` is `true` either way.
     */
    method ProcessMessage(message: string, chrono: seq<ChronoResult>, now: Instant, env: nat -> Reply)
      returns (out: Outcome)
      modifies calendarClient
      ensures out.success
      ensures Parse(chrono) == [] ==>
                out == NoTemporals(true, [], NoTemporalsMessage) && calendarClient.events == old(calendarClient.events)
      ensures Parse(chrono) != [] ==>
                var st := RunSpans(message, Parse(chrono), now, env);
                out == Processed(true, st.results) && calendarClient.events == old(calendarClient.events) + st.created
    {
      var temporals := Parse(chrono);
      if |temporals| == 0 {
        return NoTemporals(true, [], NoTemporalsMessage);
      }
      var results: seq<SpanResult> := [];
      var calls := 0;
      for i := 0 to |temporals|
        invariant LoopState(message, temporals, i, now, env, results, calls, old(calendarClient.events), calendarClient.events)
      {
        ghost var before := calendarClient.events;
        var r, calls' := HandleSpan(message, temporals[i], now, env, calls);
        LoopStep(message, temporals, i, now, env, results, calls, old(calendarClient.events), before, r, calls', calendarClient.events);
        results, calls := results + [r], calls';
      }
      assert temporals[..|temporals|] == temporals;
      return Processed(true, results);
    }
  }
}
