/**
 * `Validator.validate`: the errors that stop a meeting from being booked and
 * the warnings that do not. The clock reading `new Date()` is the parameter
 * `now`; instants are milliseconds, so the 24-hour limit is 86400000 ms.
 */
module Validator {
  import opened Wrappers
  import opened Text
  import opened Parser
  import opened Extractor

  datatype ValidationResult = ValidationResult(isValid: bool, errors: seq<string>, warnings: seq<string>)

  const TitleRequired := "Meeting title is required"
  const EndBeforeStart := "End time must be after start time"
  const InThePast := "Meeting is scheduled in the past"
  const TooLong := "Meeting duration exceeds 24 hours"

  /**
   * `temporal.endDate || new Date(start + duration * 60000)`: the end the span
   * states, else start plus the duration, which is the Invalid Date once it
   * leaves the range of `Date`.
   */
  function EffectiveEnd(t: Temporal, d: MeetingDetails): (end: Date)
    ensures t.endDate.Some? ==> end == Valid(t.endDate.value)
    ensures t.endDate.None? && end.Valid? ==> end.ms - t.startDate == d.duration * 60000
    ensures t.endDate.None? ==> (end.Valid? <==> -MaxTimeValue <= t.startDate + d.duration * 60000 <= MaxTimeValue)
  {
    match t.endDate
    case Some(e) => Valid(e)
    case None => NewDate(t.startDate + d.duration * 60000)
  }

  predicate TitleMissing(d: MeetingDetails) {
    Trim(d.title) == []
  }

  /** `endDate <= temporal.startDate`, which is false for the Invalid Date. */
  predicate EndNotAfterStart(t: Temporal, d: MeetingDetails) {
    var e := EffectiveEnd(t, d);
    e.Valid? && e.ms <= t.startDate
  }

  /** `(endDate - startDate) / (1000 * 60 * 60) > 24`, in whole milliseconds; the Invalid Date gives `NaN > 24`, false. */
  predicate LongerThanADay(t: Temporal, d: MeetingDetails) {
    var e := EffectiveEnd(t, d);
    e.Valid? && e.ms - t.startDate > 86400000
  }

  /** What `validate` returns: the errors, then the warnings, each list in the order the checks are made. */
  function Validation(t: Temporal, d: MeetingDetails, now: Instant): (v: ValidationResult)
    ensures v.isValid <==> v.errors == []
  {
    var errors := (if TitleMissing(d) then [TitleRequired] else []) +
                  (if EndNotAfterStart(t, d) then [EndBeforeStart] else []);
    var warnings := (if t.startDate < now then [InThePast] else []) +
                    (if LongerThanADay(t, d) then [TooLong] else []);
    ValidationResult(errors == [], errors, warnings)
  }

  /** Each error is present exactly when its condition holds; there are no others, and the title check comes first. */
  lemma ValidationErrors(t: Temporal, d: MeetingDetails, now: Instant)
    ensures var v := Validation(t, d, now);
            (TitleRequired in v.errors <==> TitleMissing(d)) &&
            (EndBeforeStart in v.errors <==> EndNotAfterStart(t, d)) &&
            (forall e :: e in v.errors ==> e == TitleRequired || e == EndBeforeStart) &&
            |v.errors| <= 2 && (|v.errors| == 2 ==> v.errors == [TitleRequired, EndBeforeStart])
  {
  }

  /** Each warning is present exactly when its condition holds; there are no others, and the past check comes first. */
  lemma ValidationWarnings(t: Temporal, d: MeetingDetails, now: Instant)
    ensures var v := Validation(t, d, now);
            (InThePast in v.warnings <==> t.startDate < now) &&
            (TooLong in v.warnings <==> LongerThanADay(t, d)) &&
            (forall w :: w in v.warnings ==> w == InThePast || w == TooLong) &&
            |v.warnings| <= 2 && (|v.warnings| == 2 ==> v.warnings == [InThePast, TooLong])
  {
  }

  /** `validate`: the two lists grow by successive pushes, then are packaged. */
  method Validate(t: Temporal, d: MeetingDetails, now: Instant) returns (v: ValidationResult)
    ensures v == Validation(t, d, now)
  {
    var errors: seq<string> := [];
    var warnings: seq<string> := [];
    if Trim(d.title) == [] {
      errors := errors + [TitleRequired];
    }
    if t.startDate < now {
      warnings := warnings + [InThePast];
    }
    var endDate := match t.endDate case Some(e) => Valid(e) case None => NewDate(t.startDate + d.duration * 60000);
    // Both comparisons are false when `endDate` is the Invalid Date.
    if endDate.Valid? && endDate.ms <= t.startDate {
      errors := errors + [EndBeforeStart];
    }
    if endDate.Valid? && endDate.ms - t.startDate > 86400000 {
      warnings := warnings + [TooLong];
    }
    assert endDate == EffectiveEnd(t, d);
    assert errors == (if TitleMissing(d) then [TitleRequired] else []) +
                     (if EndNotAfterStart(t, d) then [EndBeforeStart] else []);
    assert warnings == (if t.startDate < now then [InThePast] else []) +
                       (if LongerThanADay(t, d) then [TooLong] else []);
    v := ValidationResult(|errors| == 0, errors, warnings);
  }

  /**
   * Without an end date the end check fails exactly for a duration of zero
   * minutes or less whose end is still a valid `Date`.
   */
  lemma NoEndDateEndCheck(t: Temporal, d: MeetingDetails, now: Instant)
    requires t.endDate.None?
    ensures EndBeforeStart in Validation(t, d, now).errors <==>
            d.duration <= 0 && -MaxTimeValue <= t.startDate + d.duration * 60000 <= MaxTimeValue
  {
    ValidationErrors(t, d, now);
  }

  /**
   * Without an end date the long-meeting warning appears exactly above 1440
   * minutes, as long as the end is still a valid `Date`.
   */
  lemma NoEndDateLongWarning(t: Temporal, d: MeetingDetails, now: Instant)
    requires t.endDate.None?
    ensures TooLong in Validation(t, d, now).warnings <==>
            d.duration > 1440 && -MaxTimeValue <= t.startDate + d.duration * 60000 <= MaxTimeValue
  {
    ValidationWarnings(t, d, now);
  }

  /** Warnings never decide validity: the clock changes the warnings only. */
  lemma ValidityIgnoresClock(t: Temporal, d: MeetingDetails, now1: Instant, now2: Instant)
    ensures Validation(t, d, now1).isValid == Validation(t, d, now2).isValid
    ensures Validation(t, d, now1).errors == Validation(t, d, now2).errors
  {
  }
}
