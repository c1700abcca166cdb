# Chat meeting scheduler, modelled in Dafny

The system reads a chat message, finds the time expressions in it and
books one calendar meeting per expression. Five components make up its
decision logic, and each becomes one Dafny module.

- **`NLPParser`** is the `Parser` module. It post-processes the candidates the chrono library returns:
  - it drops stand-alone "for N hours/minutes" phrases;
  - it moves a guessed hour outside business hours to 14:00;
  - it assigns a two-level confidence;
  - it records where each span lies in the message.
- **`MeetingExtractor`** is the `Extractor` module. It reads four fields off the message:
  - the title, from the text around the span;
  - the participants, from "with X and Y" phrases and `@mentions`;
  - the location, from "at …", else "in …", else a URL;
  - the duration, from an hours pattern, else a `min` pattern, else a `minute` pattern, else 60 minutes.
- **`Validator`** is the `Validator` module. It produces the errors that stop a booking and the warnings that do not.
- **`CalendarAPIClient`** is the `Calendar` module. It is an in-memory, append-only event store with an inclusive range query on start times. It is a class with an `events` field.
- **`ChatMeetingScheduler.processMessage`** is the `Scheduler` module. It loops over the spans. Each span is extracted, validated and, when valid, submitted to the calendar. A failure adds a failed entry and the loop goes on with the next span.

Two supporting modules hold nothing the system itself names. `Text` has the
character classes, greedy runs, `trim`, first line, case-insensitive
prefixes and `parseInt`. `Wrappers` has `Option`.

## How the model is built

- **Regular expressions** are hand-written matchers over `seq<char>`.
  - A `…At` function tries the pattern at position 0, including the engine's backtracking where it matters. `Backtrack` models `\s+([^,.\n]+)` giving back whitespace.
  - A search function moves right one character at a time, as `match` and `matchAll` do.
  - Character classes are ASCII. Under the `i` flag only A–Z fold to a–z.
- **Instants** are integer milliseconds on the local clock.
  - A `Date` made by arithmetic, the end `new Date(start + duration * 60000)`, is `Valid(ms)` or the Invalid Date. It is invalid once it lies more than 8.64·10^15 ms from the epoch, by TimeClip in section 21.4.1.31 of ECMA-262. Every `<`, `<=` and `>` comparison with the Invalid Date is false.
  - `FromInstant`/`ToInstant` split an instant into a local day and a time of day, and join it back. This pair is a proved round trip.
  - `setHours(14, 0, 0, 0)` keeps the local day and sets the time of day to 14:00:00.000.
- **Clocks and the calendar back end are parameters.**
  - The clock reading `new Date()` is the parameter `now`.
  - Each calendar call's outcome comes from `env(k)`, the result of the `k`-th calendar call of the message. It is either an id, standing in for `event_${Date.now()}`, or the message of the error thrown.
- **Specification functions.** The imperative members (the loops of `extractParticipants`, `extractDuration` and `processMessage`, and the successive pushes of `validate`) are methods. Each is proved equal to a function (`ParticipantsOf`, `DurationOf`, `Validation`, `RunSpans`), and the properties are lemmas about those functions.

## Model

| member | source | states |
|---|---|---|
| Extractor.ExtractTitle | src/extractor.js:11-23 | If the trimmed text before the span is non-empty, the title is a prefix of it. Otherwise, if the trimmed text after the span is non-empty, the title is a prefix of that. Otherwise it is the span's original text. A title taken from text is non-empty, at most 100 characters long and free of `\n`, and it stops only at 100 characters, at the end of the text or at a `\n`. |
| Extractor.FirstLineTitle | src/extractor.js:18-20 | The first line of a non-empty trimmed text, cut to 100 characters: a non-empty prefix of the text without `\n` that ends at 100 characters, at the end of the text or at a line feed. |
| Extractor.Before | src/extractor.js:13 | `substring(0, position.start)`, with a start beyond the message clamped to its end. |
| Extractor.After | src/extractor.js:14 | `substring(position.end)`, with an end beyond the message clamped to its end. |
| Extractor.SplitAnd | src/extractor.js:31 | `split` always returns at least one part. |
| Extractor.SplitAndFirstPart | src/extractor.js:31 | The first part is everything before the first separator. A string without a separator is returned whole, as the only part. |
| Extractor.SepLen | src/extractor.js:27-31 | The `\s+and\s+` separator at the start of a string, when present, is at least 5 characters long and lies inside the string. |
| Extractor.SepLenPrefix | src/extractor.js:31 | A separator found at the start of a string is found unchanged in every prefix that still contains it. |
| Extractor.ChainLen | src/extractor.js:27 | The length the name chain `[A-Z][a-z]+(?:\s+and\s+[A-Z][a-z]+)*` matches under the `i` flag: at least the first name and no more than the string. |
| Extractor.ChainNamesAreNames | src/extractor.js:27 | A chain match consists of at least one name, and every part is two or more ASCII letters of either case. |
| Extractor.FirstSep | src/extractor.js:31 | The separator search stops inside the string only at a position where `\s+and\s+` matches. |
| Extractor.FirstSepIs | src/extractor.js:31 | The search returns the first position from which the separator matches. |
| Extractor.NoSepInLetters | src/extractor.js:31 | No separator starts inside a run of letters. |
| Extractor.ChainSplit | src/extractor.js:27-32 | Splitting a `with` capture on `/\s+and\s+/i` gives back exactly the names the capture was matched from, in order. |
| Extractor.SplitFirstName | src/extractor.js:31 | A name followed by a separator is split off as the first part, and the rest is split in turn. |
| Extractor.SplitOneName | src/extractor.js:31 | A lone name is not split. |
| Extractor.WithAt | src/extractor.js:27 | A match means the text starts with `with` (any case), then whitespace up to where the names start, and the names begin with two letters. |
| Extractor.WithAtFinds | src/extractor.js:27 | Wherever `with\s+` followed by a name matches at the start, `WithAt` reports it, with the names starting where the whitespace ends. |
| Extractor.WithCaptures | src/extractor.js:27-29 | Every capture of the global `with` pattern begins with a name of at least two letters. |
| Extractor.WithCapturesFirst | src/extractor.js:27-29 | The first capture is the name chain at the leftmost position where the pattern matches, and the scan goes on right after that chain. |
| Extractor.WithCapturesNone | src/extractor.js:27-29 | There are no captures exactly when the `with` pattern matches at no position of the message. |
| Extractor.WithCapturesSplitToNames | src/extractor.js:27-32 | Every part that any `with` capture splits into is a name. |
| Extractor.WithNamesAreNames | src/extractor.js:30-33 | Everything the first loop pushes is a name. |
| Extractor.Mentions | src/extractor.js:36-40 | Each `@(\w+)` handle is a non-empty run of word characters and contains no `@`. |
| Extractor.MentionsFirst | src/extractor.js:36-40 | The first handle is the longest word-character run after the leftmost `@` that is followed by a word character, and the scan goes on right after that handle. |
| Extractor.MentionsNone | src/extractor.js:36-40 | There are no handles exactly when no `@` in the message is followed by a word character. |
| Extractor.ParticipantsShape | src/extractor.js:25-43 | The participants are all names from `with` phrases followed by all mention handles. Nothing is dropped or interleaved. Every entry before the mentions is a name, and every entry after is a handle without `@`. |
| Extractor.NamesThenHandles | src/extractor.js:30-40 | In a list of names followed by handles, each position holds the kind its group requires. |
| Extractor.WithNamesStep | src/extractor.js:30-33 | One pass of the first loop appends the split of the next capture. |
| Extractor.ExtractParticipants | src/extractor.js:25-43 | The two push loops return exactly `ParticipantsOf(message)`, the `with` names followed by the mentions. |
| Extractor.Backtrack | src/extractor.js:47-48 | When `\s+` may take up to `k` characters, the capture starts at the largest position `j` with 1 ≤ `j` ≤ `k` that holds a character other than `,`, `.` or `\n`. Every position after `j`, up to `k`, holds one of those three. There is no match exactly when positions 1 to `k` all hold one. |
| Extractor.KeywordAt | src/extractor.js:47-48 | A capture of `kw\s+([^,.\n]+)` is non-empty and contains no `,`, `.` or `\n`. |
| Extractor.KeywordAtExtent | src/extractor.js:47-48 | The text starts with the keyword, and the capture lies right after it, with only whitespace between them. It extends up to the first `,`, `.` or `\n`, or to the end of the text. |
| Extractor.KeywordThenCapture | src/extractor.js:47-48 | The keyword, then whitespace, then text that starts with a non-space and has no `,`, `.` or `\n`, then a stop character or nothing: that text is exactly the capture. |
| Extractor.SearchKeyword | src/extractor.js:47-56 | The case-insensitive match of `\bkw\s+([^,.\n]+)` has a non-empty capture without `,`, `.` or `\n`. |
| Extractor.SearchKeywordFirst | src/extractor.js:47-55 | `match` returns the capture of the leftmost position where the word boundary holds and the pattern matches. |
| Extractor.SearchKeywordNone | src/extractor.js:47-55 | There is no match exactly when no position has both the word boundary and a match of the pattern. |
| Extractor.SearchSkip | src/extractor.js:47-48 | A stretch where no position has both `\b` and the keyword's first letter changes nothing: the search resumes after it. |
| Extractor.WordNoKeywordStart | src/extractor.js:47-48 | `\b` never holds inside a word, so a word that does not begin with the keyword's letter starts no match. |
| Extractor.NoKeywordStartAppend | src/extractor.js:47-48 | Two stretches without a keyword start make one, with the boundary judged where they meet. |
| Extractor.DemoLocation | src/extractor.js:45-52 | For "Coffee chat on Friday at 2pm https://meet.google.com/abc-defg-hij" the location is "2pm https://meet". The "at" inside "chat" lacks `\b`, and the capture stops at the URL's first `.`. |
| Extractor.SchemeAt | src/extractor.js:49 | A match of a scheme followed by `[^\s]+` is a prefix of the text, longer than the scheme. It ends where whitespace or the text ends. |
| Extractor.UrlAt | src/extractor.js:49 | A match of `https?:\/\/[^\s]+` is a prefix of the text, at least 8 characters long, ending where whitespace or the text ends. |
| Extractor.SearchUrl | src/extractor.js:49-58 | A URL found is at least 8 characters long and no longer than the message. |
| Extractor.SearchUrlFirst | src/extractor.js:57-58 | `match` returns the URL that starts at the leftmost position where the pattern matches. |
| Extractor.SearchUrlNone | src/extractor.js:57-60 | No URL is found exactly when no position starts a match. |
| Extractor.SearchUrlWhole | src/extractor.js:49-58 | The URL found occurs in the message and is followed there by whitespace or the end of the message. |
| Extractor.UrlAtIsUrl | src/extractor.js:49-59 | A URL match starts with `http://` or `https://` in any case and contains no whitespace. |
| Extractor.HttpsUrl | src/extractor.js:49 | The `https://` branch of the URL pattern yields a URL. |
| Extractor.HttpUrl | src/extractor.js:49 | The `http://` branch of the URL pattern yields a URL. |
| Extractor.SchemeThenNonSpace | src/extractor.js:49 | A scheme without whitespace followed by a run of non-whitespace keeps the scheme and contains no whitespace. |
| Extractor.SearchUrlIsUrl | src/extractor.js:49-59 | The leftmost URL found in the message is a URL. |
| Extractor.ExtractLocation | src/extractor.js:45-61 | Strict priority between the patterns. If "at" matches, the location is its trimmed capture. Otherwise, if "in" matches, it is that trimmed capture. Otherwise it is the leftmost URL. There is no location exactly when none of the three matches. |
| Extractor.LocationShape | src/extractor.js:47-59 | An "at" or "in" location contains no `,`, `.` or `\n`. A URL location starts with `http://` or `https://`, has no whitespace, and is followed in the message by whitespace or the end. |
| Extractor.TrimNoStop | src/extractor.js:52-56 | Trimming a capture adds no `,`, `.` or `\n`. |
| Extractor.DurationOf | src/extractor.js:63-83 | The duration is never negative, and it is 60 when no pattern matches. |
| Extractor.ExtractDuration | src/extractor.js:63-83 | The pattern loop with its early return computes `DurationOf(message)`. |
| Extractor.PatternDecides | src/extractor.js:71-79 | The first pattern that matches decides the result. It is N·60 for the pattern whose source contains `hour` and N for the others. |
| Extractor.NoPatternDecides | src/extractor.js:82 | Without any match the result is 60. |
| Extractor.OnlyHoursUnitSaysHour | src/extractor.js:65-75 | Of the three patterns only the first has `hour` in its source. |
| Extractor.MinuteMatchIsMinMatch | src/extractor.js:66-67 | Wherever `(\d+)\s*minute` matches, `(\d+)\s*min` matches with the same number. |
| Extractor.MinuteFoundIsMinFound | src/extractor.js:66-67 | A `minute` match anywhere in the message implies a `min` match. |
| Extractor.MinutePatternNeverDecides | src/extractor.js:65-82 | The third pattern never decides: without an hours or `min` match the result is 60. |
| Extractor.OneNumberDuration | src/extractor.js:65-82 | For a single number followed by text without digits, the duration is N·60 when the word after it starts with `hour`, N when it starts with `min`, and 60 otherwise. |
| Extractor.NumberAt | src/extractor.js:65-68 | A duration pattern matches only at a position holding a digit. |
| Extractor.NumberAtDigitsThenText | src/extractor.js:65-74 | At a run of digits followed by a non-digit, the match reads the whole run's value when whitespace and the unit follow, and there is no match otherwise. |
| Extractor.FindNumberFirst | src/extractor.js:72 | `match` returns the number of the leftmost position where the pattern matches. |
| Extractor.FindNumberNone | src/extractor.js:72-73 | There is no match exactly when the pattern matches at no position. |
| Extractor.NumberThenText | src/extractor.js:72 | In such a message, the leftmost match of `(\d+)\s*unit` starts at the number and reads its whole value, or there is no match. |
| Extractor.DurationOfHours | src/extractor.js:65-76 | "2 hours" is 120 minutes. |
| Extractor.DurationOfMins | src/extractor.js:66-78 | "45 mins" is 45 minutes. |
| Extractor.DurationOfMinutes | src/extractor.js:66-78 | "30 minutes" is 30 minutes, matched by the `mins?` pattern. |
| Extractor.DurationOfZero | src/extractor.js:74-78 | "0 min" is 0 minutes, because the value is not checked for being positive. |
| Extractor.NoDigitsDefaultDuration | src/extractor.js:82 | A message without digits has the default duration of 60. |
| Extractor.NoDigitsNoNumber | src/extractor.js:65-68 | No duration pattern matches in a text without digits. |
| Extractor.DetailsIgnoreSpan | src/extractor.js:2-9 | Only the title depends on the span. Participants, location and duration are read from the whole message. |
| Extractor.Extract | src/extractor.js:2-9 | `extract` returns the four fields together as `DetailsOf(message, temporal)`. |
| Validator.EffectiveEnd | src/validator.js:22 | The end is `endDate` when present. Otherwise it is start plus duration·60000 ms, and that is a valid `Date` exactly when it lies within 8.64·10^15 ms of the epoch. |
| Validator.Validation | src/validator.js:35-39 | `isValid` holds exactly when there are no errors. |
| Validator.ValidationErrors | src/validator.js:7-27 | 'Meeting title is required' is present iff the title trims to nothing. 'End time must be after start time' is present iff the end is a valid `Date` at or before the start. There are no other errors, at most two in all, and the title error comes first. |
| Validator.ValidationWarnings | src/validator.js:16-33 | 'Meeting is scheduled in the past' is present iff the start is before `now`. 'Meeting duration exceeds 24 hours' is present iff the end is a valid `Date` more than 86400000 ms after the start. There are no other warnings, and they appear in that order. |
| Validator.Validate | src/validator.js:2-40 | The successive pushes build exactly `Validation(temporal, details, now)`. |
| Validator.NoEndDateEndCheck | src/validator.js:22-27 | Without an end date, the end error appears iff the duration is 0 minutes or less and the computed end is within the `Date` range. |
| Validator.NoEndDateLongWarning | src/validator.js:22-33 | Without an end date, the 24-hour warning appears iff the duration exceeds 1440 minutes and the computed end is within the `Date` range. |
| Validator.ValidityIgnoresClock | src/validator.js:16-39 | The clock affects warnings only: validity and errors are the same for every `now`. |
| Parser.NewDate | src/validator.js:22 | `new Date(ms)` is valid, holding `ms`, exactly when \|`ms`\| ≤ 8.64·10^15. Otherwise it is the Invalid Date. |
| Parser.FromInstant | src/parser.js:22 | Every instant splits into a well-formed local day and time of day that `ToInstant` joins back. |
| Parser.FromToInstant | src/parser.js:22-24 | Every well-formed local time is the reading of exactly one instant. |
| Parser.AtTwoPm | src/parser.js:24 | `setHours(14, 0, 0, 0)` keeps the local day and sets the time of day to exactly 14:00:00.000. |
| Parser.ForNumberUnit | src/parser.js:11 | "for", whitespace, digits, whitespace, then "hour", "minute" or "min" matches `^for\s+\d+\s+(hour\|minute\|min)`, whatever follows. |
| Parser.DurationPhraseParts | src/parser.js:11 | Conversely, every text the pattern matches is "for", whitespace, digits, whitespace, then a text starting with "hour", "minute" or "min". |
| Parser.DurationPhraseIff | src/parser.js:8-13 | A lower-cased text is a duration phrase, so its candidate is dropped, if and only if it has that structure. |
| Parser.DurationCandidateDropped | src/parser.js:8-13 | A candidate with the text "for 30 minutes" is dropped. |
| Parser.MeetingCandidateKept | src/parser.js:8-15 | A candidate with the text "tomorrow at 10am" is kept. |
| Parser.BusinessHoursDefault | src/parser.js:21-24 | When the business-hours rule applies, moving the start to 14:00 changes it. |
| Parser.Interpret | src/parser.js:17-37 | The original text is the candidate's text. The end date is the candidate's end, so it is absent iff chrono gave none. The position starts at the index and spans the text's length. The confidence is high iff the start is fully certain. With the business-hours default the time of day becomes 14:00:00.000 on the same day, and otherwise the start is chrono's. |
| Parser.GuessedHourInBusinessHours | src/parser.js:21-26 | After the parser, a start whose hour chrono guessed always lies between 9:00 and 18:59. |
| Parser.BusinessHoursBoundary | src/parser.js:21-26 | A certain hour, or a guessed hour from 9 to 18 (18 included), keeps chrono's start unchanged. |
| Parser.Parse | src/parser.js:8-38 | There are no more spans than candidates. |
| Parser.ParseKeeps | src/parser.js:8-38 | Every kept candidate's interpretation is a span, and every span is the interpretation of a kept candidate. |
| Parser.ParseCons | src/parser.js:8-17 | A candidate in front contributes its span, or nothing when it is dropped, ahead of the spans of the rest. |
| Parser.ParseAppend | src/parser.js:8-17 | Order is kept: one more candidate appends its span, or nothing when that candidate is dropped. |
| Parser.ParseLength | src/parser.js:8-17 | There is exactly one span per kept candidate. |
| Parser.ParseEmpty | src/parser.js:8-17 | There are no spans exactly when every candidate is a duration phrase. |
| Parser.PositionsWithinMessage | src/parser.js:33-36 | For candidates found in the message, every span's position is an ordered pair of offsets within the message and covers exactly its original text. |
| Calendar.Stamp | src/calendar-client.js:8-11 | The stored event has the given id and every field of the request unchanged. |
| Calendar.StampKeepsRequest | src/calendar-client.js:8-11 | Dropping the id from a stored event gives back the request. |
| Calendar.InRange | src/calendar-client.js:20-22 | The filter returns no more events than the store holds. An event is returned iff it is stored and starts in the inclusive window. |
| Calendar.InRangeAppend | src/calendar-client.js:20-22 | The filter distributes over concatenation, so insertion order is kept. |
| Calendar.InRangeAfterPush | src/calendar-client.js:13-22 | After one push, a range query returns what it returned before, plus the new event if it starts in range. |
| Calendar.CalendarClient.constructor | src/calendar-client.js:2-4 | A new client starts with no events. |
| Calendar.CalendarClient.CreateEvent | src/calendar-client.js:6-16 | The returned event is the request stamped with the id. The store grows by exactly that event at the end, and earlier entries are unchanged. |
| Calendar.CalendarClient.GetEvents | src/calendar-client.js:18-23 | Without changing the store, returns exactly the stored events with start in `[from, to]`, and no more of them than are stored. |
| Scheduler.RequestFor | src/scheduler.js:59-67 | The submitted event copies title, location and participants from the details. Its start is the span's start, and its end is the effective end. |
| Scheduler.Entry | src/scheduler.js:46-75 | A span's entry is successful iff the span is valid and the calendar accepts it. |
| Scheduler.EntryCases | src/scheduler.js:52-75 | An invalid span's entry carries exactly the validator's errors. For a valid span, the entry is the stamped event if the calendar accepts it and the calendar's error message if it throws. A failed entry always has at least one message. |
| Scheduler.ScheduledEndsAfterStart | src/scheduler.js:52-67 | A booked event's end is after its start, unless the end is the Invalid Date, which the end check cannot reject. |
| Scheduler.CreatedEndAfterStart | src/scheduler.js:30-72 | Every event a message stores ends after it starts, unless its end is the Invalid Date. |
| Scheduler.RunSpans | src/scheduler.js:28-76 | There is one entry per span. |
| Scheduler.RunSpansShape | src/scheduler.js:52-75 | The calendar is called once per valid span, in span order, and never for an invalid one. The events stored are exactly those of the successful entries, in order. |
| Scheduler.RunSpansPrefix | src/scheduler.js:30-76 | Later spans never change the entries of earlier ones: no span aborts or rewrites the others. |
| Scheduler.EntryOfSpan | src/scheduler.js:30-76 | The entry of span `i` is its `Entry`, with the reply of the calendar call numbered by the count of valid spans before it. |
| Scheduler.ChatMeetingScheduler.constructor | src/scheduler.js:7-12 | The scheduler owns a fresh, empty calendar client. |
| Scheduler.ChatMeetingScheduler.HandleSpan | src/scheduler.js:35-75 | One loop pass adds the span's `Entry`, calls the calendar once for a valid span and never for an invalid one, and grows the store by at most the created event. |
| Scheduler.ChatMeetingScheduler.ProcessMessage | src/scheduler.js:14-83 | `success` is always true. With no spans the result is the no-temporals message and the store is unchanged. Otherwise the results are `RunSpans`'s entries, one per span in span order, and the store has grown by exactly the events `RunSpans` created. |

## Left out

- chrono-node's grammar and `referenceDate` (src/parser.js:1, 5): the library's output is an input sequence of `ChronoResult` records. `Parse` starts after that call, and `FoundIn` states what chrono is assumed to report.
- The wall clock and the id generator: `new Date()` is the parameter `now`. One `now` serves every span of a message, while src/validator.js:16 reads the clock again for each span. Only the past-start warning depends on it (`Validator.ValidityIgnoresClock`), so validity and errors do not depend on this simplification. The `Date.now()` ids and the calendar's outcomes are the function `env`, indexed by the number of the calendar call.
- Time zones and daylight saving time: local time is a fixed 86400000 ms per day, so `getHours`/`setHours` are arithmetic on that day. The offset from UTC is taken as zero, so `Parser.NewDate` applies TimeClip's ±8.64·10^15 bound to local-clock milliseconds, where JavaScript applies it to the UTC time value.
- Console output, `toLocaleString`, the success count that is only logged (src/scheduler.js:15-80), and the driver src/demo.js: presentation only.
- `async`/`await`: calendar calls are sequential and nothing runs concurrently.
- Floating-point values: confidence 0.9/0.6 is the enum `High`/`Low`, and the fractional-hour division in the 24-hour check is an exact comparison of integer milliseconds.
- JavaScript's Unicode `\s`, `trim` and `toLowerCase`: these are ASCII here.
- `parseInt` on very long digit runs: JavaScript loses precision beyond 2^53, while the model's integers are unbounded.
- 'Start date is required' (src/validator.js:11-13): the parser always supplies a start, so this error cannot occur. The start is modelled as always present.
- The parser, extractor and validator objects hold no state, so they are modules rather than classes. The scheduler's `parser`, `extractor` and `validator` fields are left out for the same reason.
- Parser.AtTwoPm: `setHours` changes the `Date` object in place, while the model computes a new instant. No other code holds the object, so nothing else observes the change.
- Extractor.ExtractParticipants: `matchAll` is a lazy iterator in the source, and `matches` here is the full list of captures, computed before the loop. The captures are the same.
- Calendar.CalendarClient.GetEvents: it is a function that reads the store instead of an `async` method. That is how the model states that the store does not change.
- Lengths and positions count Unicode scalar values, as Dafny strings do, while JavaScript counts UTF-16 code units. Text outside the Basic Multilingual Plane, such as an emoji, therefore counts differently. The 100-character title cut (src/extractor.js:19, `Extractor.FirstLineTitle`) and `position.end` (src/parser.js:35, `Parser.Interpret`) then differ from the source, which can also split a surrogate pair.
- Dates from chrono (the start, and an end chrono reports) are taken to be valid `Date`s. `setHours` on a start within a day of the edge of the `Date` range is not checked.
