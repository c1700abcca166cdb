/**
 * `NLPParser.parse` after its call into chrono: the candidates chrono returns
 * are an input here. The parser drops "for N hours" duration phrases, applies
 * the business-hours default to vague times, scores confidence and records
 * where in the message each span lies.
 */
module Parser {
  import opened Wrappers
  import opened Text

  /** A JavaScript `Date`: milliseconds on the local clock, day 0 starting at local midnight. */
  type Instant = int

  /** The largest time value a `Date` can hold: 100,000,000 days either side of the epoch. */
  const MaxTimeValue: int := 8640000000000000

  /**
   * A `Date` computed by arithmetic: a valid instant, or the Invalid Date,
   * against which every `<`, `<=` and `>` comparison is false.
   */
  datatype Date = Valid(ms: Instant) | InvalidDate

  /** `new Date(ms)` for a whole number `ms`: TimeClip turns any value outside the range into the Invalid Date. */
  function NewDate(ms: int): (d: Date)
    ensures d.Valid? <==> -MaxTimeValue <= ms <= MaxTimeValue
    ensures d.Valid? ==> d.ms == ms
  {
    if -MaxTimeValue <= ms <= MaxTimeValue then Valid(ms) else InvalidDate
  }

  /** What `getHours`/`setHours` see of a `Date`: the day on the local calendar and the time of day. */
  datatype LocalTime = LocalTime(day: int, hour: int, minute: int, second: int, ms: int)

  predicate IsTimeOfDay(lt: LocalTime) {
    0 <= lt.hour < 24 && 0 <= lt.minute < 60 && 0 <= lt.second < 60 && 0 <= lt.ms < 1000
  }

  function ToInstant(lt: LocalTime): Instant {
    lt.day * 86400000 + lt.hour * 3600000 + lt.minute * 60000 + lt.second * 1000 + lt.ms
  }

  /** Splits an instant into local calendar day and time of day; `ToInstant` undoes it. */
  function FromInstant(t: Instant): (lt: LocalTime)
    ensures IsTimeOfDay(lt)
    ensures ToInstant(lt) == t
  {
    var r1 := t % 86400000;
    var r2 := r1 % 3600000;
    var r3 := r2 % 60000;
    assert t == (t / 86400000) * 86400000 + r1;
    assert r1 == (r1 / 3600000) * 3600000 + r2;
    assert r2 == (r2 / 60000) * 60000 + r3;
    assert r3 == (r3 / 1000) * 1000 + r3 % 1000;
    LocalTime(t / 86400000, r1 / 3600000, r2 / 60000, r3 / 1000, r3 % 1000)
  }

  /** Every well-formed local time is the reading of exactly one instant. */
  lemma FromToInstant(lt: LocalTime)
    requires IsTimeOfDay(lt)
    ensures FromInstant(ToInstant(lt)) == lt
  {
    var t := ToInstant(lt);
    var r3 := lt.second * 1000 + lt.ms;
    var r2 := lt.minute * 60000 + r3;
    var r1 := lt.hour * 3600000 + r2;
    assert t / 86400000 == lt.day && t % 86400000 == r1;
    assert r1 / 3600000 == lt.hour && r1 % 3600000 == r2;
    assert r2 / 60000 == lt.minute && r2 % 60000 == r3;
    assert r3 / 1000 == lt.second && r3 % 1000 == lt.ms;
  }

  /** `chrono`'s `start` component: its date and the certainty it reports. */
  datatype ChronoStart = ChronoStart(date: Instant, hourCertain: bool, certain: bool)

  /** One candidate returned by `chrono.parse`: matched text, its index in the message, start and optional end. */
  datatype ChronoResult = ChronoResult(text: string, index: nat, start: ChronoStart, end: Option<Instant>)

  /** The two confidence values, 0.9 and 0.6. */
  datatype Confidence = High | Low

  datatype Position = Position(start: nat, end: nat)

  /** A detected meeting time as the parser hands it to the rest of the pipeline. */
  datatype Temporal = Temporal(startDate: Instant, endDate: Option<Instant>, confidence: Confidence,
                               originalText: string, position: Position)

  /** `^for\s+\d+\s+(hour|minute|min)` on an already lower-cased text, matched one part at a time. */
  predicate IsDurationPhrase(s: string)
    ensures IsDurationPhrase(s) ==> |s| >= 9
  {
    "for" <= s && SpacedNumberUnit(s[3..])
  }

  /** `\s+\d+\s+(hour|minute|min)` at the start of `a`. */
  predicate SpacedNumberUnit(a: string)
    ensures SpacedNumberUnit(a) ==> |a| >= 6
  {
    var w := Run(a, IsSpace);
    w >= 1 && NumberUnit(a[w..])
  }

  /** `\d+\s+(hour|minute|min)` at the start of `b`. */
  predicate NumberUnit(b: string)
    ensures NumberUnit(b) ==> |b| >= 5
  {
    var d := Run(b, IsDigit);
    d >= 1 && SpacedUnit(b[d..])
  }

  /** `\s+(hour|minute|min)` at the start of `c`. */
  predicate SpacedUnit(c: string)
    ensures SpacedUnit(c) ==> |c| >= 4
  {
    var w := Run(c, IsSpace);
    w >= 1 && IsDurationUnit(c[w..])
  }

  predicate IsDurationUnit(u: string)
    ensures IsDurationUnit(u) ==> |u| >= 3
  {
    "hour" <= u || "minute" <= u || "min" <= u
  }

  /** "for", whitespace, a number, whitespace, then a unit word: a duration phrase, whatever follows. */
  lemma ForNumberUnit(gap1: string, digits: string, gap2: string, rest: string)
    requires gap1 != [] && AllSpace(gap1) && gap2 != [] && AllSpace(gap2)
    requires digits != [] && forall i :: 0 <= i < |digits| ==> IsDigit(digits[i])
    requires IsDurationUnit(rest)
    ensures IsDurationPhrase("for" + gap1 + digits + gap2 + rest)
  {
    var c := gap2 + rest;
    var b := digits + c;
    var a := gap1 + b;
    assert "for" + gap1 + digits + gap2 + rest == "for" + a;
    SpacesThenWord(gap2, rest);
    DigitsThenSpaces(digits, c);
    SpacesThenDigits(gap1, b);
    assert ("for" + a)[3..] == a;
  }

  /** `s` is "for", whitespace, a digit run, whitespace, then a text that starts with a unit word. */
  predicate DurationParts(s: string, gap1: string, digits: string, gap2: string, rest: string) {
    && s == "for" + gap1 + digits + gap2 + rest
    && gap1 != [] && AllSpace(gap1) && gap2 != [] && AllSpace(gap2)
    && digits != [] && (forall i :: 0 <= i < |digits| ==> IsDigit(digits[i]))
    && IsDurationUnit(rest)
  }

  /** Every duration phrase has that structure: the pattern matches nothing else. */
  lemma DurationPhraseParts(s: string)
    requires IsDurationPhrase(s)
    ensures exists gap1, digits, gap2, rest :: DurationParts(s, gap1, digits, gap2, rest)
  {
    var gap1, digits, gap2, rest := SpacedNumberUnitParts(s[3..]);
    assert s == "for" + s[3..];
    Regroup("for", gap1, digits, gap2, rest);
    assert DurationParts(s, gap1, digits, gap2, rest);
  }

  lemma Regroup(p: string, a: string, b: string, c: string, d: string)
    ensures p + (a + (b + (c + d))) == p + a + b + c + d
  {
  }

  lemma SpacedNumberUnitParts(a: string) returns (gap1: string, digits: string, gap2: string, rest: string)
    requires SpacedNumberUnit(a)
    ensures a == gap1 + (digits + (gap2 + rest))
    ensures gap1 != [] && AllSpace(gap1) && gap2 != [] && AllSpace(gap2)
    ensures digits != [] && (forall i :: 0 <= i < |digits| ==> IsDigit(digits[i]))
    ensures IsDurationUnit(rest)
  {
    var w := Run(a, IsSpace);
    RunChars(a, IsSpace);
    gap1 := a[..w];
    digits, gap2, rest := NumberUnitParts(a[w..]);
    assert a == gap1 + a[w..];
  }

  lemma NumberUnitParts(b: string) returns (digits: string, gap: string, rest: string)
    requires NumberUnit(b)
    ensures b == digits + (gap + rest)
    ensures digits != [] && (forall i :: 0 <= i < |digits| ==> IsDigit(digits[i]))
    ensures gap != [] && AllSpace(gap) && IsDurationUnit(rest)
  {
    var d := Run(b, IsDigit);
    RunChars(b, IsDigit);
    digits := b[..d];
    gap, rest := SpacedUnitParts(b[d..]);
    assert b == digits + b[d..];
  }

  lemma SpacedUnitParts(c: string) returns (gap: string, rest: string)
    requires SpacedUnit(c)
    ensures c == gap + rest && gap != [] && AllSpace(gap) && IsDurationUnit(rest)
  {
    var w := Run(c, IsSpace);
    RunChars(c, IsSpace);
    gap, rest := c[..w], c[w..];
    assert c == gap + rest;
  }

  /** The pattern matches exactly the texts with that structure. */
  lemma DurationPhraseIff(s: string)
    ensures IsDurationPhrase(s) <==>
            exists gap1, digits, gap2, rest :: DurationParts(s, gap1, digits, gap2, rest)
  {
    if IsDurationPhrase(s) {
      DurationPhraseParts(s);
    }
    if exists gap1, digits, gap2, rest :: DurationParts(s, gap1, digits, gap2, rest) {
      var gap1, digits, gap2, rest :| DurationParts(s, gap1, digits, gap2, rest);
      ForNumberUnit(gap1, digits, gap2, rest);
    }
  }

  lemma SpacesThenWord(gap: string, rest: string)
    requires gap != [] && AllSpace(gap) && IsDurationUnit(rest)
    ensures SpacedUnit(gap + rest)
  {
    RunConcat(gap, rest, IsSpace);
    assert (gap + rest)[|gap|..] == rest;
  }

  lemma DigitsThenSpaces(digits: string, c: string)
    requires digits != [] && (forall i :: 0 <= i < |digits| ==> IsDigit(digits[i])) && SpacedUnit(c)
    ensures NumberUnit(digits + c)
  {
    assert IsSpace(c[0]);
    RunConcat(digits, c, IsDigit);
    assert (digits + c)[|digits|..] == c;
  }

  lemma SpacesThenDigits(gap: string, b: string)
    requires gap != [] && AllSpace(gap) && NumberUnit(b)
    ensures SpacedNumberUnit(gap + b)
  {
    assert IsDigit(b[0]);
    RunConcat(gap, b, IsSpace);
    assert (gap + b)[|gap|..] == b;
  }

  /** A lower-case text stays as it is under `toLowerCase`. */
  lemma LowerStringUnchanged(s: string)
    requires forall i :: 0 <= i < |s| ==> !('A' <= s[i] <= 'Z')
    ensures LowerString(s) == s
  {
  }

  /** The filter's test: the candidate's lower-cased text is a stand-alone duration phrase. */
  predicate Dropped(c: ChronoResult)
    ensures Dropped(c) ==> |c.text| >= 9
  {
    IsDurationPhrase(LowerString(c.text))
  }

  /** "for 30 minutes" is a duration phrase, so chrono's candidate with that text is dropped. */
  lemma DurationCandidateDropped(c: ChronoResult)
    requires c.text == "for 30 minutes"
    ensures Dropped(c)
  {
    LowerThirtyMinutes();
    ForThirtyMinutes();
  }

  lemma LowerThirtyMinutes()
    ensures LowerString("for 30 minutes") == "for 30 minutes"
  {
    LowerStringUnchanged("for 30 minutes");
  }

  lemma ForThirtyMinutes()
    ensures IsDurationPhrase("for 30 minutes")
  {
    assert "for 30 minutes" == "for" + " " + "30" + " " + "minutes";
    assert "minute" <= "minutes";
    ForNumberUnit(" ", "30", " ", "minutes");
  }

  /** A meeting time such as "tomorrow at 10am" is kept. */
  lemma MeetingCandidateKept(c: ChronoResult)
    requires c.text == "tomorrow at 10am"
    ensures !Dropped(c)
  {
    assert LowerString(c.text)[0] == 't';
  }

  /** The business-hours rule applies: the hour was guessed and lies before 9:00 or after 18:59. */
  predicate BusinessHoursDefault(c: ChronoResult)
    ensures BusinessHoursDefault(c) ==> AtTwoPm(c.start.date) != c.start.date
  {
    var hour := FromInstant(c.start.date).hour;
    !c.start.hourCertain && (hour < 9 || hour > 18)
  }

  /** `startDate.setHours(14, 0, 0, 0)`: same local day, time of day 14:00:00.000. */
  function AtTwoPm(t: Instant): (r: Instant)
    ensures FromInstant(r) == FromInstant(t).(hour := 14, minute := 0, second := 0, ms := 0)
  {
    var lt := FromInstant(t).(hour := 14, minute := 0, second := 0, ms := 0);
    FromToInstant(lt);
    ToInstant(lt)
  }

  /** The `map` step of `parse` for one kept candidate. */
  function Interpret(c: ChronoResult): (r: Temporal)
    ensures r.originalText == c.text && r.endDate == c.end
    ensures r.position.start == c.index && r.position.end - r.position.start == |c.text|
    ensures r.confidence == High <==> c.start.certain
    ensures BusinessHoursDefault(c) ==>
              FromInstant(r.startDate) == FromInstant(c.start.date).(hour := 14, minute := 0, second := 0, ms := 0)
    ensures !BusinessHoursDefault(c) ==> r.startDate == c.start.date
  {
    var startDate := if BusinessHoursDefault(c) then AtTwoPm(c.start.date) else c.start.date;
    Temporal(startDate, c.end, if c.start.certain then High else Low, c.text,
             Position(c.index, c.index + |c.text|))
  }

  /** After the parser, a guessed hour always lies in business hours, 9 through 18. */
  lemma GuessedHourInBusinessHours(c: ChronoResult)
    requires !c.start.hourCertain
    ensures 9 <= FromInstant(Interpret(c).startDate).hour <= 18
  {
  }

  /** The rule is `hour > 18`: a guessed 18:xx is kept as chrono gave it, and so is every certain hour. */
  lemma BusinessHoursBoundary(c: ChronoResult)
    requires c.start.hourCertain || 9 <= FromInstant(c.start.date).hour <= 18
    ensures Interpret(c).startDate == c.start.date
  {
  }

  /** `parse` after chrono: drop duration phrases, then interpret each remaining candidate, in order. */
  function Parse(candidates: seq<ChronoResult>): (spans: seq<Temporal>)
    ensures |spans| <= |candidates|
    decreases |candidates|
  {
    if candidates == [] then []
    else
      var rest := Parse(candidates[1..]);
      if Dropped(candidates[0]) then rest else [Interpret(candidates[0])] + rest
  }

  /** Every kept candidate's interpretation is a span, and every span is the interpretation of a kept candidate. */
  lemma {:induction false} ParseKeeps(candidates: seq<ChronoResult>)
    ensures forall c :: c in candidates && !Dropped(c) ==> Interpret(c) in Parse(candidates)
    ensures forall t :: t in Parse(candidates) ==> exists c :: c in candidates && !Dropped(c) && t == Interpret(c)
    decreases |candidates|
  {
    if candidates != [] {
      var tail := candidates[1..];
      ParseKeeps(tail);
      assert forall c :: c in candidates ==> c == candidates[0] || c in tail;
      assert forall c :: c in tail ==> c in candidates;
    }
  }

  /** Parsing one more candidate appends its span, or nothing if it is dropped: order is kept. */
  lemma {:induction false} ParseAppend(candidates: seq<ChronoResult>, c: ChronoResult)
    ensures Parse(candidates + [c]) == Parse(candidates) + (if Dropped(c) then [] else [Interpret(c)])
    decreases |candidates|
  {
    if candidates == [] {
      assert [c][1..] == [];
    } else {
      var x, tail := candidates[0], candidates[1..];
      assert candidates == [x] + tail;
      assert candidates + [c] == [x] + (tail + [c]);
      ParseCons(x, tail);
      ParseCons(x, tail + [c]);
      ParseAppend(tail, c);
    }
  }

  lemma ParseCons(x: ChronoResult, rest: seq<ChronoResult>)
    ensures Parse([x] + rest) == (if Dropped(x) then [] else [Interpret(x)]) + Parse(rest)
  {
    assert ([x] + rest)[1..] == rest;
  }

  /** The number of candidates the filter keeps. */
  function KeptCount(candidates: seq<ChronoResult>): nat
    decreases |candidates|
  {
    if candidates == [] then 0 else (if Dropped(candidates[0]) then 0 else 1) + KeptCount(candidates[1..])
  }

  /** One span per kept candidate. */
  lemma {:induction false} ParseLength(candidates: seq<ChronoResult>)
    ensures |Parse(candidates)| == KeptCount(candidates)
    decreases |candidates|
  {
    if candidates != [] {
      ParseLength(candidates[1..]);
    }
  }

  /** No span at all exactly when every candidate is a duration phrase. */
  lemma {:induction false} ParseEmpty(candidates: seq<ChronoResult>)
    ensures Parse(candidates) == [] <==> forall i :: 0 <= i < |candidates| ==> Dropped(candidates[i])
    decreases |candidates|
  {
    if candidates != [] {
      ParseEmpty(candidates[1..]);
      if Parse(candidates) == [] {
        assert Dropped(candidates[0]);
        forall i | 1 <= i < |candidates| ensures Dropped(candidates[i]) {
          assert candidates[1..][i - 1] == candidates[i];
        }
      } else if forall i :: 0 <= i < |candidates| ==> Dropped(candidates[i]) {
        assert Dropped(candidates[0]);
        forall i | 0 <= i < |candidates| - 1 ensures Dropped(candidates[1..][i]) {
          assert candidates[1..][i] == candidates[i + 1];
        }
      }
    }
  }

  /** chrono reports each match as the text found at its index in the message. */
  predicate FoundIn(message: string, c: ChronoResult) {
    c.index + |c.text| <= |message| && message[c.index..c.index + |c.text|] == c.text
  }

  /** Every span's position lies within the message and covers exactly its original text. */
  lemma PositionsWithinMessage(message: string, candidates: seq<ChronoResult>)
    requires forall c :: c in candidates ==> FoundIn(message, c)
    ensures forall t :: t in Parse(candidates) ==>
              t.position.start <= t.position.end <= |message| &&
              message[t.position.start..t.position.end] == t.originalText
  {
    ParseKeeps(candidates);
  }
}
