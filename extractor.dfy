/**
 * `MeetingExtractor`: title, participants, location and duration of one
 * meeting, read off the message by ordered, first-match-wins heuristics. Each
 * regular expression of the extractor is a small matcher here; a `...At`
 * function tries a pattern at the start of a string (the regex engine at one
 * position, backtracking included) and a search function moves right one
 * character at a time until it matches, as `match` and `matchAll` do.
 */
module Extractor {
  import opened Wrappers
  import opened Text
  import opened Parser

  datatype MeetingDetails = MeetingDetails(title: string, participants: seq<string>,
                                           location: Option<string>, duration: int)

  // ---------------------------------------------------------------- title

  /** `message.substring(0, temporal.position.start)` */
  function Before(message: string, t: Temporal): string {
    message[..if t.position.start < |message| then t.position.start else |message|]
  }

  /** `message.substring(temporal.position.end)` */
  function After(message: string, t: Temporal): string {
    message[if t.position.end < |message| then t.position.end else |message|..]
  }

  /** `extractTitle`: the first line of the trimmed text before the span, else after it, cut to 100 characters. */
  function ExtractTitle(message: string, t: Temporal): (title: string)
    ensures Trim(Before(message, t)) != [] ==> title <= Trim(Before(message, t))
    ensures Trim(Before(message, t)) == [] && Trim(After(message, t)) != [] ==> title <= Trim(After(message, t))
    ensures Trim(Before(message, t)) == [] && Trim(After(message, t)) == [] ==> title == t.originalText
    ensures Trim(Before(message, t)) != [] || Trim(After(message, t)) != [] ==>
              0 < |title| <= 100 && '\n' !in title
    ensures var source := if Trim(Before(message, t)) != [] then Trim(Before(message, t)) else Trim(After(message, t));
            source != [] ==> |title| == 100 || |title| == |source| || source[|title|] == '\n'
  {
    var before := Trim(Before(message, t));
    var after := Trim(After(message, t));
    if |before| > 0 then FirstLineTitle(before)
    else if |after| > 0 then FirstLineTitle(after)
    else t.originalText
  }

  /** `text.split('\n')[0].substring(0, 100)` of a trimmed, non-empty text. */
  function FirstLineTitle(text: string): (title: string)
    requires text != [] && !IsSpace(text[0])
    ensures title <= text && 0 < |title| <= 100 && '\n' !in title
    ensures |title| == 100 || |title| == |text| || text[|title|] == '\n'
  {
    var line := FirstLine(text);
    assert line != [] by { assert text[0] != '\n'; }
    Take(line, 100)
  }

  // --------------------------------------------------------- participants

  /** `\s+and\s+` (case-insensitive) at the start of `v`: the separator's length. */
  function SepLen(v: string): (len: Option<nat>)
    ensures len.Some? ==> 5 <= len.value <= |v|
  {
    var w1 := Run(v, IsSpace);
    if w1 == 0 || !StartsWithCI(v[w1..], "and") then None
    else
      var w2 := Run(v[w1 + 3..], IsSpace);
      if w2 == 0 then None else Some(w1 + 3 + w2)
  }

  /** The separator found at the start of `v` is found in every prefix of `v` that still holds it. */
  lemma SepLenPrefix(v: string, k: nat)
    requires SepLen(v).Some? && SepLen(v).value <= k <= |v|
    ensures SepLen(v[..k]) == SepLen(v)
  {
    var w1 := Run(v, IsSpace);
    var m := w1 + 3;
    RunPrefix(v, IsSpace, k);
    SliceOfPrefix(v, k, w1);
    StartsWithCIPrefix(v[w1..], "and", k - w1);
    SliceOfPrefix(v, k, m);
    RunPrefix(v[m..], IsSpace, k - m);
  }

  lemma SliceOfPrefix(v: string, k: nat, i: nat)
    requires i <= k <= |v|
    ensures v[..k][i..] == v[i..][..k - i]
  {
  }

  /** A name of the `with` pattern: `[A-Z][a-z]+` under the `i` flag, two or more ASCII letters. */
  predicate IsName(s: string) {
    |s| >= 2 && forall i :: 0 <= i < |s| ==> IsLetter(s[i])
  }

  /**
   * The length that `[A-Z][a-z]+(?:\s+and\s+[A-Z][a-z]+)*` matches at the
   * start of `v`, which must begin with a name.
   */
  function ChainLen(v: string): (n: nat)
    requires Run(v, IsLetter) >= 2
    ensures Run(v, IsLetter) <= n <= |v|
    decreases |v|
  {
    var n := Run(v, IsLetter);
    var sep := SepLen(v[n..]);
    if sep.Some? && Run(v[n + sep.value..], IsLetter) >= 2 then n + sep.value + ChainLen(v[n + sep.value..])
    else n
  }

  /** The names that this match is made of, in order. */
  function ChainNames(v: string): (names: seq<string>)
    requires Run(v, IsLetter) >= 2
    decreases |v|
  {
    var n := Run(v, IsLetter);
    var sep := SepLen(v[n..]);
    if sep.Some? && Run(v[n + sep.value..], IsLetter) >= 2 then [v[..n]] + ChainNames(v[n + sep.value..])
    else [v[..n]]
  }

  /** One more name follows the first one, after a separator. */
  predicate ChainContinues(v: string)
    requires Run(v, IsLetter) >= 2
  {
    var n := Run(v, IsLetter);
    SepLen(v[n..]).Some? && Run(v[n + SepLen(v[n..]).value..], IsLetter) >= 2
  }

  /** The rest of the match after its first name and separator. */
  function ChainRest(v: string): (rest: string)
    requires Run(v, IsLetter) >= 2 && ChainContinues(v)
    ensures |rest| < |v| && Run(rest, IsLetter) >= 2
  {
    var n := Run(v, IsLetter);
    v[n + SepLen(v[n..]).value..]
  }

  lemma ChainUnfold(v: string)
    requires Run(v, IsLetter) >= 2
    ensures ChainContinues(v) ==> ChainNames(v) == [v[..Run(v, IsLetter)]] + ChainNames(ChainRest(v))
    ensures ChainContinues(v) ==> ChainLen(v) == Run(v, IsLetter) + SepLen(v[Run(v, IsLetter)..]).value + ChainLen(ChainRest(v))
    ensures !ChainContinues(v) ==> ChainNames(v) == [v[..Run(v, IsLetter)]] && ChainLen(v) == Run(v, IsLetter)
  {
  }

  /** A `with` match is made of at least one name, and only of names. */
  lemma {:induction false} ChainNamesAreNames(v: string)
    requires Run(v, IsLetter) >= 2
    ensures |ChainNames(v)| >= 1 && forall i :: 0 <= i < |ChainNames(v)| ==> IsName(ChainNames(v)[i])
    decreases |v|
  {
    var n := Run(v, IsLetter);
    RunChars(v, IsLetter);
    assert IsName(v[..n]);
    ChainUnfold(v);
    if ChainContinues(v) {
      ChainNamesAreNames(ChainRest(v));
    }
  }

  /** The first position at or after `q` where the separator matches, or `|c|`. */
  function FirstSep(c: string, q: nat): (p: nat)
    requires q <= |c|
    ensures q <= p <= |c|
    ensures p < |c| ==> SepLen(c[p..]).Some?
    decreases |c| - q
  {
    if q == |c| then q
    else if SepLen(c[q..]).Some? then q
    else FirstSep(c, q + 1)
  }

  /** `c.split(/\s+and\s+/i)` */
  function SplitAnd(c: string): (parts: seq<string>)
    ensures |parts| >= 1
    decreases |c|
  {
    var p := FirstSep(c, 0);
    if p == |c| then [c] else [c[..p]] + SplitAnd(c[p + SepLen(c[p..]).value..])
  }

  /** The first part is everything before the first separator, and all of `c` when there is none. */
  lemma SplitAndFirstPart(c: string)
    ensures SplitAnd(c)[0] == c[..FirstSep(c, 0)]
    ensures FirstSep(c, 0) == |c| ==> SplitAnd(c) == [c]
  {
  }

  /** The search for a separator stops at the first position where one matches. */
  lemma {:induction false} FirstSepIs(c: string, q: nat, p: nat)
    requires q <= p <= |c|
    requires forall j :: q <= j < p ==> SepLen(c[j..]).None?
    requires p < |c| ==> SepLen(c[p..]).Some?
    ensures FirstSep(c, q) == p
    decreases p - q
  {
    if q < p {
      FirstSepIs(c, q + 1, p);
    }
  }

  /** No separator starts inside a run of letters. */
  lemma NoSepInLetters(c: string, n: nat)
    requires n <= |c| && forall j :: 0 <= j < n ==> IsLetter(c[j])
    ensures forall j :: 0 <= j < n ==> SepLen(c[j..]).None?
  {
    forall j | 0 <= j < n ensures SepLen(c[j..]).None? {
      assert c[j..][0] == c[j];
    }
  }

  lemma SplitAndUnfold(c: string, p: nat, len: nat, q: nat)
    requires p == FirstSep(c, 0) && p < |c| && SepLen(c[p..]) == Some(len) && q == p + len
    ensures SplitAnd(c) == [c[..p]] + SplitAnd(c[q..])
  {
  }

  /** Splitting the text a `with` match captured on `and` gives back exactly the names it was matched from. */
  lemma {:induction false} ChainSplit(v: string)
    requires Run(v, IsLetter) >= 2
    ensures SplitAnd(v[..ChainLen(v)]) == ChainNames(v)
    decreases |v|
  {
    ChainUnfold(v);
    if ChainContinues(v) {
      ChainSplitCons(v);
      ChainSplit(ChainRest(v));
    } else {
      var n := Run(v, IsLetter);
      SplitOneName(v, n);
      assert v[..ChainLen(v)] == v[..n];
    }
  }

  /** The split of a match of several names starts with its first name, then splits the rest of the match. */
  lemma ChainSplitCons(v: string)
    requires Run(v, IsLetter) >= 2 && ChainContinues(v)
    ensures SplitAnd(v[..ChainLen(v)]) == [v[..Run(v, IsLetter)]] + SplitAnd(ChainRest(v)[..ChainLen(ChainRest(v))])
  {
    var n := Run(v, IsLetter);
    ChainUnfold(v);
    var len := SepLen(v[n..]).value;
    var p := n + len;
    var rest := ChainRest(v);
    var k := ChainLen(rest);
    var m := ChainLen(v);
    assert rest == v[p..];
    assert m == p + k;
    SplitPrefixFirstName(v, n, len, p, m);
    assert rest[..k] == v[p..][..m - p];
  }

  /** Cut at `m`, after a name ending at `n` and a separator ending at `p`, `v` splits into that name and the split of what remains. */
  lemma SplitPrefixFirstName(v: string, n: nat, len: nat, p: nat, m: nat)
    requires n == Run(v, IsLetter) && p == n + len && p <= m <= |v| && SepLen(v[n..]) == Some(len)
    ensures SplitAnd(v[..m]) == [v[..n]] + SplitAnd(v[p..][..m - p])
  {
    RunPrefix(v, IsLetter, m);
    ChainSplitStep(v, n, len, p, m);
    SplitFirstName(v[..m], n, len, p);
    assert v[..m][..n] == v[..n];
  }

  /** A name followed by a separator is split off as the first part. */
  lemma SplitFirstName(c: string, n: nat, len: nat, p: nat)
    requires n == Run(c, IsLetter) && p == n + len && p <= |c| && SepLen(c[n..]) == Some(len)
    ensures SplitAnd(c) == [c[..n]] + SplitAnd(c[p..])
  {
    RunChars(c, IsLetter);
    NoSepInLetters(c, n);
    FirstSepIs(c, 0, n);
    SplitAndUnfold(c, n, len, p);
  }

  /** Cutting a match after its end keeps the separator after its first name whole. */
  lemma ChainSplitStep(v: string, n: nat, len: nat, p: nat, m: nat)
    requires p == n + len && p <= m <= |v| && SepLen(v[n..]) == Some(len)
    ensures SepLen(v[..m][n..]) == Some(len)
    ensures v[..m][p..] == v[p..][..m - p]
  {
    assert v[..m][n..] == v[n..][..m - n];
    SepLenPrefix(v[n..], m - n);
  }

  /** A lone name is not split. */
  lemma SplitOneName(v: string, n: nat)
    requires n == Run(v, IsLetter)
    ensures SplitAnd(v[..n]) == [v[..n]]
  {
    RunChars(v, IsLetter);
    var c := v[..n];
    NoSepInLetters(c, n);
    FirstSepIs(c, 0, n);
  }

  /** Where the names start if `with\s+` followed by a name matches at the start of `t`. */
  function WithAt(t: string): (start: Option<nat>)
    ensures start.Some? ==> WithMatch(t, start.value)
  {
    if !StartsWithCI(t, "with") then None
    else
      var w := Run(t[4..], IsSpace);
      RunChars(t[4..], IsSpace);
      assert t[4..4 + w] == t[4..][..w];
      if w == 0 || Run(t[4 + w..], IsLetter) < 2 then None else Some(4 + w)
  }

  /** `with\s+[A-Z][a-z]+` matches at the start of `t` with the names starting at `start`. */
  predicate WithMatch(t: string, start: nat) {
    StartsWithCI(t, "with") && 5 <= start <= |t| && AllSpace(t[4..start]) &&
    Run(t[start..], IsLetter) >= 2
  }

  /** Wherever the pattern matches, `WithAt` finds it: the names can start in one place only. */
  lemma WithAtFinds(t: string, start: nat)
    requires WithMatch(t, start)
    ensures WithAt(t) == Some(start)
  {
    assert IsLetter(t[start]);
    assert t[4..] == t[4..start] + t[start..];
    RunConcat(t[4..start], t[start..], IsSpace);
  }

  /** `match[1]` of every match of `/with\s+([A-Z][a-z]+(?:\s+and\s+[A-Z][a-z]+)*)/gi`, in order. */
  function WithCaptures(t: string): (captures: seq<string>)
    ensures forall i :: 0 <= i < |captures| ==> Run(captures[i], IsLetter) >= 2
    decreases |t|
  {
    if t == [] then []
    else match WithAt(t)
      case Some(a) =>
        var v := t[a..];
        RunPrefix(v, IsLetter, ChainLen(v));
        [v[..ChainLen(v)]] + WithCaptures(v[ChainLen(v)..])
      case None => WithCaptures(t[1..])
  }

  /** Each `with` capture split on `and` yields only names. */
  lemma {:induction false} WithCapturesSplitToNames(t: string)
    ensures forall c :: c in WithCaptures(t) ==> forall n :: n in SplitAnd(c) ==> IsName(n)
    decreases |t|
  {
    if t != [] {
      match WithAt(t)
      case Some(a) =>
        var v := t[a..];
        ChainSplit(v);
        ChainNamesAreNames(v);
        WithCapturesSplitToNames(v[ChainLen(v)..]);
      case None =>
        WithCapturesSplitToNames(t[1..]);
    }
  }

  /** All captures' split results, concatenated in order: what the first loop of `extractParticipants` pushes. */
  function WithNames(captures: seq<string>): seq<string>
    decreases |captures|
  {
    if captures == [] then [] else WithNames(captures[..|captures| - 1]) + SplitAnd(captures[|captures| - 1])
  }

  lemma {:induction false} WithNamesAreNames(captures: seq<string>)
    requires forall c :: c in captures ==> forall n :: n in SplitAnd(c) ==> IsName(n)
    ensures forall n :: n in WithNames(captures) ==> IsName(n)
    decreases |captures|
  {
    if captures != [] {
      var init := captures[..|captures| - 1];
      assert forall c :: c in init ==> c in captures;
      WithNamesAreNames(init);
      assert captures[|captures| - 1] in captures;
    }
  }

  /** A handle of `@(\w+)`: one or more word characters, so never an `@`. */
  predicate IsHandle(s: string) {
    |s| >= 1 && forall i :: 0 <= i < |s| ==> IsWordChar(s[i])
  }

  /** `mention[1]` of every match of `/@(\w+)/g`, in order. */
  function Mentions(t: string): (handles: seq<string>)
    ensures forall h :: h in handles ==> IsHandle(h) && '@' !in h
    decreases |t|
  {
    if t == [] then []
    else if MentionAt(t) then
      var n := Run(t[1..], IsWordChar);
      RunChars(t[1..], IsWordChar);
      [t[1..][..n]] + Mentions(t[1..][n..])
    else Mentions(t[1..])
  }

  /** `@(\w+)` matches at the start of `t`. */
  predicate MentionAt(t: string) {
    t != [] && t[0] == '@' && Run(t[1..], IsWordChar) >= 1
  }

  /** The scan's next handle is the one at the leftmost `@` followed by a word character, and it goes on after that handle. */
  lemma {:induction false} MentionsFirst(t: string, q: nat)
    requires q < |t| && MentionAt(t[q..])
    requires forall p :: 0 <= p < q ==> !MentionAt(t[p..])
    ensures var n := Run(t[q + 1..], IsWordChar);
            Mentions(t) == [t[q + 1..q + 1 + n]] + Mentions(t[q + 1 + n..])
    decreases q
  {
    assert t[0..] == t;
    if q == 0 {
      MentionsHere(t);
    } else {
      MentionsSkip(t);
      forall p | 0 <= p < q - 1 ensures !MentionAt(t[1..][p..]) {
        assert t[1..][p..] == t[p + 1..];
      }
      assert t[1..][q - 1..] == t[q..];
      MentionsFirst(t[1..], q - 1);
      ShiftSlices(t, q, Run(t[q + 1..], IsWordChar));
    }
  }

  lemma MentionsHere(t: string)
    requires MentionAt(t)
    ensures var n := Run(t[1..], IsWordChar);
            Mentions(t) == [t[1..1 + n]] + Mentions(t[1 + n..])
  {
    var n := Run(t[1..], IsWordChar);
    assert t[1..][..n] == t[1..1 + n];
    assert t[1..][n..] == t[1 + n..];
  }

  lemma MentionsSkip(t: string)
    requires t != [] && !MentionAt(t)
    ensures Mentions(t) == Mentions(t[1..])
  {
  }

  /** Positions of `t[1..]` are those of `t` shifted by one. */
  lemma ShiftSlices(t: string, q: nat, n: nat)
    requires 1 <= q && q + 1 + n <= |t|
    ensures t[1..][q..] == t[q + 1..]
    ensures t[1..][q..q + n] == t[q + 1..q + 1 + n]
    ensures t[1..][q + n..] == t[q + 1 + n..]
  {
  }

  /** The scan finds no handle exactly when no `@` in `t` is followed by a word character. */
  lemma {:induction false} MentionsNone(t: string)
    ensures Mentions(t) == [] <==> forall q :: 0 <= q < |t| ==> !MentionAt(t[q..])
    decreases |t|
  {
    if t != [] {
      assert t[0..] == t;
      MentionsNone(t[1..]);
      forall q | 1 <= q < |t| ensures t[q..] == t[1..][q - 1..] {
      }
      if !MentionAt(t) && Mentions(t[1..]) != [] {
        var q :| 0 <= q < |t| - 1 && MentionAt(t[1..][q..]);
        assert MentionAt(t[q + 1..]);
      }
    }
  }

  /** The scan's next capture is the one at the leftmost match of the `with` pattern, and it goes on after that capture. */
  lemma {:induction false} WithCapturesFirst(t: string, q: nat, a: nat)
    requires q < |t| && WithAt(t[q..]) == Some(a)
    requires forall p :: 0 <= p < q ==> WithAt(t[p..]).None?
    ensures var v := t[q + a..];
            WithCaptures(t) == [v[..ChainLen(v)]] + WithCaptures(v[ChainLen(v)..])
    decreases q
  {
    assert t[0..] == t;
    if q == 0 {
      WithCapturesHere(t, a);
    } else {
      WithCapturesSkip(t);
      forall p | 0 <= p < q - 1 ensures WithAt(t[1..][p..]).None? {
        assert t[1..][p..] == t[p + 1..];
      }
      assert t[1..][q - 1..] == t[q..];
      WithCapturesFirst(t[1..], q - 1, a);
      assert t[1..][q - 1 + a..] == t[q + a..];
    }
  }

  lemma WithCapturesHere(t: string, a: nat)
    requires WithAt(t) == Some(a)
    ensures WithCaptures(t) == [t[a..][..ChainLen(t[a..])]] + WithCaptures(t[a..][ChainLen(t[a..])..])
  {
  }

  lemma WithCapturesSkip(t: string)
    requires t != [] && WithAt(t).None?
    ensures WithCaptures(t) == WithCaptures(t[1..])
  {
  }

  /** The scan finds no capture exactly when the `with` pattern matches nowhere in `t`. */
  lemma {:induction false} WithCapturesNone(t: string)
    ensures WithCaptures(t) == [] <==> forall q :: 0 <= q < |t| ==> WithAt(t[q..]).None?
    decreases |t|
  {
    if t != [] {
      assert t[0..] == t;
      WithCapturesNone(t[1..]);
      forall q | 1 <= q < |t| ensures t[q..] == t[1..][q - 1..] {
      }
      if WithAt(t).None? && WithCaptures(t[1..]) != [] {
        var q :| 0 <= q < |t| - 1 && WithAt(t[1..][q..]).Some?;
        assert WithAt(t[q + 1..]).Some?;
      }
    }
  }

  /** What `extractParticipants` returns: the names of all `with` phrases, then all mentions. */
  function ParticipantsOf(message: string): seq<string> {
    WithNames(WithCaptures(message)) + Mentions(message)
  }

  /** Names come first and mentions after them; every entry is a name or a handle as its group demands. */
  lemma ParticipantsShape(message: string)
    ensures var names := WithNames(WithCaptures(message));
            var ps := ParticipantsOf(message);
            && |ps| == |names| + |Mentions(message)|
            && (forall i :: 0 <= i < |names| ==> IsName(ps[i]))
            && (forall i :: |names| <= i < |ps| ==> IsHandle(ps[i]) && '@' !in ps[i])
  {
    var names := WithNames(WithCaptures(message));
    var handles := Mentions(message);
    WithCapturesSplitToNames(message);
    WithNamesAreNames(WithCaptures(message));
    NamesThenHandles(names, handles);
  }

  lemma NamesThenHandles(names: seq<string>, handles: seq<string>)
    requires forall n :: n in names ==> IsName(n)
    requires forall h :: h in handles ==> IsHandle(h) && '@' !in h
    ensures forall i :: 0 <= i < |names| ==> IsName((names + handles)[i])
    ensures forall i :: |names| <= i < |names| + |handles| ==> IsHandle((names + handles)[i]) && '@' !in (names + handles)[i]
  {
    forall i | 0 <= i < |names| ensures IsName((names + handles)[i]) {
      assert names[i] in names;
    }
    forall i | |names| <= i < |names| + |handles|
      ensures IsHandle((names + handles)[i]) && '@' !in (names + handles)[i]
    {
      assert handles[i - |names|] in handles;
    }
  }

  /** One pass of the first loop appends the split of one more capture. */
  lemma WithNamesStep(captures: seq<string>, i: nat)
    requires i < |captures|
    ensures WithNames(captures[..i + 1]) == WithNames(captures[..i]) + SplitAnd(captures[i])
  {
    assert captures[..i + 1][..i] == captures[..i];
  }

  lemma PushStep(prefix: seq<string>, items: seq<string>, i: nat)
    requires i < |items|
    ensures prefix + items[..i + 1] == (prefix + items[..i]) + [items[i]]
  {
    assert items[..i + 1] == items[..i] + [items[i]];
  }

  /** `extractParticipants`: two loops pushing onto one list. */
  method ExtractParticipants(message: string) returns (participants: seq<string>)
    ensures participants == ParticipantsOf(message)
  {
    participants := [];
    var matches := WithCaptures(message);
    for i := 0 to |matches|
      invariant participants == WithNames(matches[..i])
    {
      WithNamesStep(matches, i);
      var names := SplitAnd(matches[i]);
      participants := participants + names;
    }
    assert matches[..|matches|] == matches;
    var mentions := Mentions(message);
    for i := 0 to |mentions|
      invariant participants == WithNames(matches) + mentions[..i]
    {
      PushStep(WithNames(matches), mentions, i);
      participants := participants + [mentions[i]];
    }
    assert mentions[..|mentions|] == mentions;
  }

  // ------------------------------------------------------------- location

  /** The characters `[^,.\n]` excludes. */
  predicate IsStop(c: char) {
    c == ',' || c == '.' || c == '\n'
  }

  predicate IsPlaceChar(c: char) {
    !IsStop(c)
  }

  predicate NoStop(s: string) {
    forall i :: 0 <= i < |s| ==> !IsStop(s[i])
  }

  /**
   * Where the capture of `\s+([^,.\n]+)` starts in `u` when `\s+` may take at
   * most the first `k` characters: the regex engine gives the whitespace back
   * one character at a time and stops at the first place the class matches.
   */
  function Backtrack(u: string, k: nat): (j: Option<nat>)
    requires 1 <= k <= |u|
    ensures j.Some? ==> 1 <= j.value <= k && j.value < |u| && !IsStop(u[j.value])
    ensures j.Some? ==> forall i :: j.value < i <= k && i < |u| ==> IsStop(u[i])
    ensures j.None? ==> forall i :: 1 <= i <= k && i < |u| ==> IsStop(u[i])
    decreases k
  {
    if k < |u| && !IsStop(u[k]) then Some(k)
    else if k == 1 then None
    else Backtrack(u, k - 1)
  }

  /**
   * The capture `c` of `kw\s+([^,.\n]+)` occupies `t[j..j + |c|]`: `t` starts
   * with the keyword, only whitespace lies between the keyword and it, and it runs up to a comma,
   * period or line feed, or to the end of `t`.
   */
  predicate CaptureAt(t: string, kw: string, j: nat, c: string) {
    StartsWithCI(t, kw) && |kw| < j && j + |c| <= |t| && AllSpace(t[|kw|..j]) && t[j..j + |c|] == c &&
    (j + |c| == |t| || IsStop(t[j + |c|]))
  }

  /** `kw\s+([^,.\n]+)` (case-insensitive) at the start of `t`: the capture. */
  function KeywordAt(t: string, kw: string): (capture: Option<string>)
    ensures capture.Some? ==> |capture.value| >= 1 && NoStop(capture.value)
  {
    if !StartsWithCI(t, kw) then None
    else
      var u := t[|kw|..];
      var e := Run(u, IsSpace);
      if e == 0 then None
      else match Backtrack(u, e)
        case None => None
        case Some(j) =>
          var v := u[j..];
          RunChars(v, IsPlaceChar);
          Some(v[..Run(v, IsPlaceChar)])
  }

  /** The capture follows the keyword's whitespace and extends as far as the class allows. */
  lemma KeywordAtExtent(t: string, kw: string)
    requires KeywordAt(t, kw).Some?
    ensures exists j :: CaptureAt(t, kw, j, KeywordAt(t, kw).value)
  {
    var u := t[|kw|..];
    var e := Run(u, IsSpace);
    var j := Backtrack(u, e).value;
    RunChars(u, IsSpace);
    assert AllSpace(u[..j]);
    CaptureOfParts(t, kw, j, Run(u[j..], IsPlaceChar));
  }

  lemma CaptureOfParts(t: string, kw: string, j: nat, n: nat)
    requires StartsWithCI(t, kw) && 1 <= j <= |t| - |kw|
    requires AllSpace(t[|kw|..][..j]) && n == Run(t[|kw|..][j..], IsPlaceChar)
    ensures CaptureAt(t, kw, |kw| + j, t[|kw|..][j..][..n])
  {
    var a := |kw| + j;
    var b := a + n;
    SuffixSlices(t, |kw|, j, n, a, b);
  }

  lemma SuffixSlices(t: string, i: nat, j: nat, n: nat, a: nat, b: nat)
    requires a == i + j && b == a + n && b <= |t|
    ensures t[i..a] == t[i..][..j] && t[a..b] == t[i..][j..][..n] && |t[i..][j..][..n]| == n
    ensures b < |t| ==> t[b] == t[i..][j..][n]
  {
  }

  /**
   * The keyword, whitespace, then text without a stop character that starts
   * with a non-space and is followed by a stop character or nothing: that text
   * is the capture.
   */
  lemma KeywordThenCapture(kw: string, gap: string, cap: string, rest: string)
    requires StartsWithCI(kw, kw)
    requires gap != [] && AllSpace(gap)
    requires cap != [] && !IsSpace(cap[0]) && NoStop(cap)
    requires rest == [] || IsStop(rest[0])
    ensures KeywordAt(kw + gap + cap + rest, kw) == Some(cap)
  {
    var v := cap + rest;
    var u := gap + v;
    var t := kw + u;
    assert kw + gap + cap + rest == t;
    KeywordThenRest(kw, u);
    GapThenCapture(gap, cap, rest);
  }

  lemma KeywordThenRest(kw: string, u: string)
    requires StartsWithCI(kw, kw)
    ensures StartsWithCI(kw + u, kw) && (kw + u)[|kw|..] == u
  {
    assert (kw + u)[..|kw|] == kw;
    StartsWithCIPrefix(kw + u, kw, |kw|);
  }

  /** Whitespace, then the capture: `\s+` keeps all of the whitespace and the class takes the capture. */
  lemma GapThenCapture(gap: string, cap: string, rest: string)
    requires gap != [] && AllSpace(gap)
    requires cap != [] && !IsSpace(cap[0]) && NoStop(cap)
    requires rest == [] || IsStop(rest[0])
    ensures var u := gap + (cap + rest);
            Run(u, IsSpace) == |gap| && Backtrack(u, |gap|) == Some(|gap|) &&
            u[|gap|..][..Run(u[|gap|..], IsPlaceChar)] == cap
  {
    var v := cap + rest;
    var u := gap + v;
    RunConcat(gap, v, IsSpace);
    assert u[|gap|] == cap[0];
    assert u[|gap|..] == v;
    RunConcat(cap, rest, IsPlaceChar);
    assert v[..|cap|] == cap;
  }

  /**
   * `/\bkw\s+([^,.\n]+)/i` searched from the start of `t`; `prevWord` says
   * whether the character before `t` is a word character (`\b` holds before a
   * keyword that starts with a letter exactly when it is not).
   */
  function SearchKeyword(t: string, kw: string, prevWord: bool): (capture: Option<string>)
    ensures capture.Some? ==> |capture.value| >= 1 && NoStop(capture.value)
    decreases |t|
  {
    if t == [] then None
    else if !prevWord && KeywordAt(t, kw).Some? then KeywordAt(t, kw)
    else SearchKeyword(t[1..], kw, IsWordChar(t[0]))
  }

  /** `\b` before position `q` of `t`, for a keyword that starts with a word character. */
  predicate WordBoundary(t: string, q: nat, prevWord: bool)
    requires q < |t|
  {
    if q == 0 then !prevWord else !IsWordChar(t[q - 1])
  }

  /** The keyword pattern matches at position `q` of `t`. */
  predicate KeywordMatchAt(t: string, kw: string, prevWord: bool, q: nat)
    requires q < |t|
  {
    WordBoundary(t, q, prevWord) && KeywordAt(t[q..], kw).Some?
  }

  /** Dropping the first character of `t` moves every match one position to the left. */
  lemma KeywordMatchShift(t: string, kw: string, prevWord: bool, q: nat)
    requires 1 <= q < |t|
    ensures KeywordMatchAt(t, kw, prevWord, q) == KeywordMatchAt(t[1..], kw, IsWordChar(t[0]), q - 1)
  {
    assert t[1..][q - 1..] == t[q..];
    if q > 1 {
      assert t[1..][q - 2] == t[q - 1];
    }
  }

  /** The search returns the capture of the leftmost match. */
  lemma {:induction false} SearchKeywordFirst(t: string, kw: string, prevWord: bool, q: nat)
    requires q < |t| && KeywordMatchAt(t, kw, prevWord, q)
    requires forall p :: 0 <= p < q ==> !KeywordMatchAt(t, kw, prevWord, p)
    ensures SearchKeyword(t, kw, prevWord) == KeywordAt(t[q..], kw)
    decreases q
  {
    assert t[0..] == t;
    if q > 0 {
      assert !KeywordMatchAt(t, kw, prevWord, 0);
      KeywordMatchShift(t, kw, prevWord, q);
      forall p | 0 <= p < q - 1
        ensures !KeywordMatchAt(t[1..], kw, IsWordChar(t[0]), p)
      {
        KeywordMatchShift(t, kw, prevWord, p + 1);
      }
      SearchKeywordFirst(t[1..], kw, IsWordChar(t[0]), q - 1);
      assert t[1..][q - 1..] == t[q..];
    }
  }

  /** The search finds nothing exactly when the pattern matches nowhere in `t`. */
  lemma {:induction false} SearchKeywordNone(t: string, kw: string, prevWord: bool)
    ensures SearchKeyword(t, kw, prevWord).None? <==>
            forall q :: 0 <= q < |t| ==> !KeywordMatchAt(t, kw, prevWord, q)
    decreases |t|
  {
    if t != [] {
      assert t[0..] == t;
      SearchKeywordNone(t[1..], kw, IsWordChar(t[0]));
      if SearchKeyword(t, kw, prevWord).None? {
        forall q | 0 <= q < |t| ensures !KeywordMatchAt(t, kw, prevWord, q) {
          if q > 0 {
            KeywordMatchShift(t, kw, prevWord, q);
          }
        }
      } else if !prevWord && KeywordAt(t, kw).Some? {
        assert KeywordMatchAt(t, kw, prevWord, 0);
      } else {
        var q :| 0 <= q < |t| - 1 && KeywordMatchAt(t[1..], kw, IsWordChar(t[0]), q);
        KeywordMatchShift(t, kw, prevWord, q + 1);
        assert KeywordMatchAt(t, kw, prevWord, q + 1);
      }
    }
  }

  /** No position of `a` can start the keyword: each lacks the word boundary or the keyword's first letter. */
  predicate NoKeywordStart(a: string, kw: string, prevWord: bool)
    requires kw != []
  {
    forall q :: 0 <= q < |a| ==> !WordBoundary(a, q, prevWord) || Lower(a[q]) != kw[0]
  }

  /** Where no position of `a` can start the keyword, the search goes on in `b` as if `a` were not there. */
  lemma {:induction false} SearchSkip(a: string, b: string, kw: string, prevWord: bool)
    requires kw != [] && NoKeywordStart(a, kw, prevWord)
    ensures SearchKeyword(a + b, kw, prevWord) ==
            SearchKeyword(b, kw, if a == [] then prevWord else IsWordChar(a[|a| - 1]))
    decreases |a|
  {
    if a == [] {
      assert a + b == b;
    } else {
      var t := a + b;
      assert t[0] == a[0];
      assert WordBoundary(a, 0, prevWord) ==> !StartsWithCI(t, kw);
      assert t[1..] == a[1..] + b;
      forall q | 0 <= q < |a| - 1
        ensures !WordBoundary(a[1..], q, IsWordChar(a[0])) || Lower(a[1..][q]) != kw[0]
      {
        assert a[1..][q] == a[q + 1];
        assert WordBoundary(a[1..], q, IsWordChar(a[0])) == WordBoundary(a, q + 1, prevWord);
      }
      SearchSkip(a[1..], b, kw, IsWordChar(a[0]));
      if |a| > 1 {
        assert a[1..][|a[1..]| - 1] == a[|a| - 1];
      }
    }
  }

  /** Two stretches without a keyword start make one, given the boundary where they meet. */
  lemma NoKeywordStartAppend(a: string, b: string, kw: string, prevWord: bool)
    requires kw != [] && a != []
    requires NoKeywordStart(a, kw, prevWord) && NoKeywordStart(b, kw, IsWordChar(a[|a| - 1]))
    ensures NoKeywordStart(a + b, kw, prevWord)
  {
    forall q | 0 <= q < |a + b|
      ensures !WordBoundary(a + b, q, prevWord) || Lower((a + b)[q]) != kw[0]
    {
      if q < |a| {
        assert WordBoundary(a + b, q, prevWord) == WordBoundary(a, q, prevWord);
      } else {
        assert (a + b)[q] == b[q - |a|];
        assert WordBoundary(a + b, q, prevWord) == WordBoundary(b, q - |a|, IsWordChar(a[|a| - 1]));
      }
    }
  }

  /** A word that does not begin with the keyword's letter, then a space: no keyword starts there. */
  lemma WordThenSpace(w: string, kw: string, prevWord: bool)
    requires kw != [] && w != [] && Lower(w[0]) != kw[0] && Lower(' ') != kw[0]
    requires forall i :: 0 <= i < |w| ==> IsWordChar(w[i])
    ensures NoKeywordStart(w + " ", kw, prevWord)
  {
    WordNoKeywordStart(w, kw, prevWord);
    NoKeywordStartAppend(w, " ", kw, prevWord);
  }

  /** Inside a word `\b` never holds, so a word that does not begin with the keyword's letter cannot start it. */
  lemma WordNoKeywordStart(w: string, kw: string, prevWord: bool)
    requires kw != [] && w != [] && Lower(w[0]) != kw[0]
    requires forall i :: 0 <= i < |w| ==> IsWordChar(w[i])
    ensures NoKeywordStart(w, kw, prevWord)
  {
    forall q | 0 < q < |w| ensures !WordBoundary(w, q, prevWord) {
      assert IsWordChar(w[q - 1]);
    }
  }

  /** `scheme[^\s]+` (case-insensitive) at the start of `t`: the match runs up to whitespace or the end of `t`. */
  function SchemeAt(t: string, scheme: string): (url: Option<string>)
    ensures url.Some? ==> url.value <= t && |scheme| < |url.value|
    ensures url.Some? ==> |url.value| == |t| || IsSpace(t[|url.value|])
  {
    if StartsWithCI(t, scheme) && Run(t[|scheme|..], IsNonSpace) >= 1 then
      var n := Run(t[|scheme|..], IsNonSpace);
      assert |scheme| + n < |t| ==> t[|scheme|..][n] == t[|scheme| + n];
      Some(t[..|scheme| + n])
    else None
  }

  /** `https?:\/\/[^\s]+` (case-insensitive) at the start of `t`: the `s` is tried first, as the greedy `?` does. */
  function UrlAt(t: string): (url: Option<string>)
    ensures url.Some? ==> url.value <= t && 8 <= |url.value|
    ensures url.Some? ==> |url.value| == |t| || IsSpace(t[|url.value|])
  {
    if SchemeAt(t, "https://").Some? then SchemeAt(t, "https://") else SchemeAt(t, "http://")
  }

  /** The leftmost URL in `t`. */
  function SearchUrl(t: string): (url: Option<string>)
    ensures url.Some? ==> 8 <= |url.value| <= |t|
    decreases |t|
  {
    if t == [] then None
    else if UrlAt(t).Some? then UrlAt(t)
    else SearchUrl(t[1..])
  }

  /** The search returns the URL that starts leftmost. */
  lemma {:induction false} SearchUrlFirst(t: string, q: nat)
    requires q < |t| && UrlAt(t[q..]).Some?
    requires forall p :: 0 <= p < q ==> UrlAt(t[p..]).None?
    ensures SearchUrl(t) == UrlAt(t[q..])
    decreases q
  {
    assert t[0..] == t;
    if q > 0 {
      forall p | 0 <= p < q - 1 ensures UrlAt(t[1..][p..]).None? {
        assert t[1..][p..] == t[p + 1..];
      }
      assert t[1..][q - 1..] == t[q..];
      SearchUrlFirst(t[1..], q - 1);
    }
  }

  /** The search finds nothing exactly when no position of `t` starts a URL. */
  lemma {:induction false} SearchUrlNone(t: string)
    ensures SearchUrl(t).None? <==> forall q :: 0 <= q < |t| ==> UrlAt(t[q..]).None?
    decreases |t|
  {
    if t != [] {
      assert t[0..] == t;
      SearchUrlNone(t[1..]);
      forall q | 1 <= q < |t| ensures t[1..][q - 1..] == t[q..] {
      }
    }
  }

  /** `s` occurs in `t` at `p` and is followed by whitespace or the end of `t`. */
  predicate EndsAtSpace(t: string, p: nat, s: string) {
    p + |s| <= |t| && t[p..p + |s|] == s && (p + |s| == |t| || IsSpace(t[p + |s|]))
  }

  /** The URL found is a whole one: it runs up to whitespace or the end of the message. */
  lemma {:induction false} SearchUrlWhole(t: string)
    requires SearchUrl(t).Some?
    ensures exists p :: EndsAtSpace(t, p, SearchUrl(t).value)
    decreases |t|
  {
    var url := SearchUrl(t).value;
    if UrlAt(t).Some? {
      assert t[0..|url|] == url;
      assert EndsAtSpace(t, 0, url);
    } else {
      SearchUrlWhole(t[1..]);
      var p: nat :| EndsAtSpace(t[1..], p, url);
      EndsAtSpaceShift(t, p, url);
    }
  }

  lemma EndsAtSpaceShift(t: string, p: nat, s: string)
    requires t != [] && EndsAtSpace(t[1..], p, s)
    ensures EndsAtSpace(t, p + 1, s)
  {
    assert t[p + 1..p + 1 + |s|] == t[1..][p..p + |s|];
    assert p + 1 + |s| < |t| ==> t[p + 1 + |s|] == t[1..][p + |s|];
  }

  /** `[^\s]*`: no whitespace anywhere. */
  predicate NoSpace(s: string) {
    forall i :: 0 <= i < |s| ==> !IsSpace(s[i])
  }

  /** What a URL location looks like: `http://` or `https://` (any case) and no whitespace. */
  predicate IsUrl(s: string) {
    (StartsWithCI(s, "http://") || StartsWithCI(s, "https://")) && NoSpace(s)
  }

  lemma UrlAtIsUrl(t: string)
    requires UrlAt(t).Some?
    ensures IsUrl(UrlAt(t).value)
  {
    if SchemeAt(t, "https://").Some? {
      HttpsUrl(t);
    } else {
      HttpUrl(t);
    }
  }

  lemma HttpsUrl(t: string)
    requires SchemeAt(t, "https://").Some?
    ensures IsUrl(SchemeAt(t, "https://").value)
  {
    var m := 8 + Run(t[8..], IsNonSpace);
    assert SchemeAt(t, "https://").value == t[..m];
    assert NoSpace("https://");
    SchemeThenNonSpace(t, "https://", m);
  }

  lemma HttpUrl(t: string)
    requires SchemeAt(t, "http://").Some?
    ensures IsUrl(SchemeAt(t, "http://").value)
  {
    var m := 7 + Run(t[7..], IsNonSpace);
    assert SchemeAt(t, "http://").value == t[..m];
    assert NoSpace("http://");
    SchemeThenNonSpace(t, "http://", m);
  }

  /** A scheme without whitespace followed by the run of non-whitespace after it: the match keeps the scheme and has no whitespace. */
  lemma SchemeThenNonSpace(t: string, scheme: string, m: nat)
    requires StartsWithCI(t, scheme) && NoSpace(scheme) && m == |scheme| + Run(t[|scheme|..], IsNonSpace)
    ensures StartsWithCI(t[..m], scheme) && NoSpace(t[..m])
  {
    StartsWithCIPrefix(t, scheme, m);
    StartsWithCIChars(t, scheme);
    NonSpaceRun(t, |scheme|, m);
  }

  /** Text without whitespace up to `k`, then a run of non-whitespace ending at `m`: none up to `m`. */
  lemma NonSpaceRun(t: string, k: nat, m: nat)
    requires k <= |t| && m == k + Run(t[k..], IsNonSpace)
    requires forall i :: 0 <= i < k ==> !IsSpace(t[i])
    ensures NoSpace(t[..m])
  {
    var rest := t[k..];
    RunChars(rest, IsNonSpace);
    forall i | 0 <= i < m ensures !IsSpace(t[..m][i]) {
      if i >= k {
        assert t[i] == rest[i - k];
      }
    }
  }

  /** A case-insensitive match of a keyword that has no whitespace has no whitespace either. */
  lemma {:induction false} StartsWithCIChars(t: string, kw: string)
    requires StartsWithCI(t, kw) && NoSpace(kw)
    ensures forall i :: 0 <= i < |kw| ==> !IsSpace(t[i])
    decreases kw
  {
    if kw != [] {
      StartsWithCIChars(t[1..], kw[1..]);
      assert forall i :: 1 <= i < |kw| ==> t[i] == t[1..][i - 1];
    }
  }

  lemma {:induction false} SearchUrlIsUrl(t: string)
    ensures SearchUrl(t).Some? ==> IsUrl(SearchUrl(t).value)
    decreases |t|
  {
    if t != [] {
      if UrlAt(t).Some? { UrlAtIsUrl(t); } else { SearchUrlIsUrl(t[1..]); }
    }
  }

  function AtCapture(message: string): Option<string> {
    SearchKeyword(message, "at", false)
  }

  function InCapture(message: string): Option<string> {
    SearchKeyword(message, "in", false)
  }

  /** `extractLocation`: the first of the "at", "in" and URL patterns that matches; the later ones are not tried. */
  function ExtractLocation(message: string): (location: Option<string>)
    ensures AtCapture(message).Some? ==> location == Some(Trim(AtCapture(message).value))
    ensures AtCapture(message).None? && InCapture(message).Some? ==> location == Some(Trim(InCapture(message).value))
    ensures AtCapture(message).None? && InCapture(message).None? ==> location == SearchUrl(message)
    ensures location.None? <==> AtCapture(message).None? && InCapture(message).None? && SearchUrl(message).None?
  {
    match AtCapture(message)
    case Some(c) => Some(Trim(c))
    case None =>
      match InCapture(message)
      case Some(c) => Some(Trim(c))
      case None => SearchUrl(message)
  }

  /**
   * A location from the "at" or "in" pattern holds no comma, period or line
   * feed; a URL location is a whole URL, which the message follows with
   * whitespace or nothing.
   */
  lemma LocationShape(message: string)
    requires ExtractLocation(message).Some?
    ensures var location := ExtractLocation(message).value;
            if AtCapture(message).Some? || InCapture(message).Some? then NoStop(location)
            else IsUrl(location) && exists p :: EndsAtSpace(message, p, location)
  {
    if AtCapture(message).Some? {
      TrimNoStop(AtCapture(message).value);
    } else if InCapture(message).Some? {
      TrimNoStop(InCapture(message).value);
    } else {
      SearchUrlIsUrl(message);
      SearchUrlWhole(message);
    }
  }

  /**
   * The example message "Coffee chat on Friday at 2pm https://meet.google.com/abc-defg-hij",
   * written in three pieces: the "at" inside "chat" has no word boundary
   * before it, so the "at" before "2pm" matches, and its capture stops at the
   * first period, inside the URL.
   */
  lemma DemoLocation()
    ensures ExtractLocation("Coffee chat on Friday " + "at 2pm https://meet" + ".google.com/abc-defg-hij") ==
            Some("2pm https://meet")
  {
    var prefix := "Coffee chat on Friday ";
    var tail := "at 2pm https://meet" + ".google.com/abc-defg-hij";
    DemoTailCapture();
    DemoPrefixHasNoMatch();
    SearchSkip(prefix, tail, "at", false);
    assert prefix + "at 2pm https://meet" + ".google.com/abc-defg-hij" == prefix + tail;
    TrimUnchanged("2pm https://meet");
  }

  /** After the prefix, "at" matches at once and captures up to the period. */
  lemma DemoTailCapture()
    ensures SearchKeyword("at 2pm https://meet" + ".google.com/abc-defg-hij", "at", false) == Some("2pm https://meet")
  {
    var cap := "2pm https://meet";
    var rest := ".google.com/abc-defg-hij";
    assert "at 2pm https://meet" == "at" + " " + cap;
    assert NoStop(cap);
    KeywordThenCapture("at", " ", cap, rest);
    assert "at 2pm https://meet" + rest == "at" + " " + cap + rest;
  }

  /** No word of "Coffee chat on Friday " can start an "at" match. */
  lemma DemoPrefixHasNoMatch()
    ensures NoKeywordStart("Coffee chat on Friday ", "at", false)
  {
    WordThenSpace("Coffee", "at", false);
    WordThenSpace("chat", "at", false);
    WordThenSpace("on", "at", false);
    WordThenSpace("Friday", "at", false);
    assert "Coffee chat on Friday " == ("Coffee" + " ") + (("chat" + " ") + (("on" + " ") + ("Friday" + " ")));
    NoKeywordStartAppend("on" + " ", "Friday" + " ", "at", false);
    NoKeywordStartAppend("chat" + " ", ("on" + " ") + ("Friday" + " "), "at", false);
    NoKeywordStartAppend("Coffee" + " ", ("chat" + " ") + (("on" + " ") + ("Friday" + " ")), "at", false);
  }

  /** Trimming adds no character. */
  lemma TrimNoStop(c: string)
    requires NoStop(c)
    ensures NoStop(Trim(c))
  {
    var r := Trim(c);
    var a :| 0 <= a <= |c| - |r| && AllSpace(c[..a]) && r <= c[a..] && AllSpace(c[a + |r|..]);
    forall i | 0 <= i < |r| ensures !IsStop(r[i]) {
      assert r[i] == c[a + i];
    }
  }

  // ------------------------------------------------------------- duration

  /** One of the duration regexes, `(\d+)\s*<unit>s?` with the `i` flag. */
  datatype DurationPattern = DurationPattern(unit: string)

  /** The patterns in the order `extractDuration` tries them. */
  const DurationPatterns: seq<DurationPattern> :=
    [DurationPattern("hour"), DurationPattern("min"), DurationPattern("minute")]

  const DefaultDuration: int := 60

  /** `(\d+)\s*unit` at the start of `t`: the value of the digits. */
  function NumberAt(t: string, unit: string): (n: Option<nat>)
    ensures n.Some? ==> t != [] && IsDigit(t[0])
  {
    var d := Run(t, IsDigit);
    if d == 0 then None
    else
      var w := Run(t[d..], IsSpace);
      if StartsWithCI(t[d + w..], unit) then
        RunChars(t, IsDigit);
        assert forall i :: 0 <= i < d ==> t[..d][i] == t[i];
        Some(DecimalValue(t[..d]))
      else None
  }

  /** `message.match(pattern)`: the leftmost match's number. */
  function FindNumber(t: string, unit: string): Option<nat>
    decreases |t|
  {
    if t == [] then None
    else if NumberAt(t, unit).Some? then NumberAt(t, unit)
    else FindNumber(t[1..], unit)
  }

  /** The search returns the number of the leftmost match. */
  lemma {:induction false} FindNumberFirst(t: string, unit: string, q: nat)
    requires q < |t| && NumberAt(t[q..], unit).Some?
    requires forall p :: 0 <= p < q ==> NumberAt(t[p..], unit).None?
    ensures FindNumber(t, unit) == NumberAt(t[q..], unit)
    decreases q
  {
    assert t[0..] == t;
    if q > 0 {
      forall p | 0 <= p < q - 1 ensures NumberAt(t[1..][p..], unit).None? {
        assert t[1..][p..] == t[p + 1..];
      }
      assert t[1..][q - 1..] == t[q..];
      FindNumberFirst(t[1..], unit, q - 1);
    }
  }

  /** The search finds nothing exactly when the pattern matches at no position of `t`. */
  lemma {:induction false} FindNumberNone(t: string, unit: string)
    ensures FindNumber(t, unit).None? <==> forall q :: 0 <= q < |t| ==> NumberAt(t[q..], unit).None?
    decreases |t|
  {
    if t != [] {
      assert t[0..] == t;
      FindNumberNone(t[1..], unit);
      forall q | 1 <= q < |t| ensures t[1..][q - 1..] == t[q..] {
      }
    }
  }

  /**
   * The duration in minutes, stated directly: an hours match anywhere wins and
   * counts 60 minutes per hour, then a `min` match, then a `minute` match, else 60.
   */
  function DurationOf(message: string): (minutes: int)
    ensures minutes >= 0
    ensures (FindNumber(message, "hour").None? && FindNumber(message, "min").None? &&
             FindNumber(message, "minute").None?) ==> minutes == DefaultDuration
  {
    match FindNumber(message, "hour")
    case Some(n) => n * 60
    case None =>
      match FindNumber(message, "min")
      case Some(n) => n
      case None =>
        match FindNumber(message, "minute")
        case Some(n) => n
        case None => DefaultDuration
  }

  /** `extractDuration`: the pattern loop with its early return. */
  method ExtractDuration(message: string) returns (minutes: int)
    ensures minutes == DurationOf(message)
  {
    for i := 0 to |DurationPatterns|
      invariant forall j :: 0 <= j < i ==> FindNumber(message, DurationPatterns[j].unit).None?
    {
      var pattern := DurationPatterns[i];
      var found := FindNumber(message, pattern.unit);
      if found.Some? {
        var value := found.value;
        PatternDecides(message, i);
        if Contains(pattern.unit, "hour") {
          return value * 60;
        }
        return value;
      }
    }
    NoPatternDecides(message);
    return DefaultDuration;
  }

  /** The first pattern that matches gives the duration: hours for the one whose source says `hour`, minutes otherwise. */
  lemma PatternDecides(message: string, i: nat)
    requires i < |DurationPatterns|
    requires forall j :: 0 <= j < i ==> FindNumber(message, DurationPatterns[j].unit).None?
    requires FindNumber(message, DurationPatterns[i].unit).Some?
    ensures var n := FindNumber(message, DurationPatterns[i].unit).value;
            DurationOf(message) == if Contains(DurationPatterns[i].unit, "hour") then n * 60 else n
  {
    OnlyHoursUnitSaysHour();
    assert DurationPatterns[0].unit == "hour" && DurationPatterns[1].unit == "min" && DurationPatterns[2].unit == "minute";
  }

  lemma NoPatternDecides(message: string)
    requires forall j :: 0 <= j < |DurationPatterns| ==> FindNumber(message, DurationPatterns[j].unit).None?
    ensures DurationOf(message) == DefaultDuration
  {
    assert DurationPatterns[0].unit == "hour" && DurationPatterns[1].unit == "min" && DurationPatterns[2].unit == "minute";
  }

  /** `pattern.source.includes('hour')` holds for the first pattern only. */
  lemma OnlyHoursUnitSaysHour()
    ensures Contains("hour", "hour") && !Contains("min", "hour") && !Contains("minute", "hour")
  {
    assert "hour" <= "hour";
    WithoutFirstCharNotContained("min", "hour");
    WithoutFirstCharNotContained("minute", "hour");
  }

  /** A string that lacks the first character of `sub` does not contain `sub`. */
  lemma {:induction false} WithoutFirstCharNotContained(s: string, sub: string)
    requires sub != [] && forall i :: 0 <= i < |s| ==> s[i] != sub[0]
    ensures !Contains(s, sub)
    decreases |s|
  {
    if s != [] {
      assert s[0] != sub[0];
      assert forall i :: 0 <= i < |s| - 1 ==> s[1..][i] == s[i + 1];
      WithoutFirstCharNotContained(s[1..], sub);
    }
  }

  /** Where `(\d+)\s*minute` matches, `(\d+)\s*min` matches too. */
  lemma MinuteMatchIsMinMatch(t: string)
    requires NumberAt(t, "minute").Some?
    ensures NumberAt(t, "min") == NumberAt(t, "minute")
  {
    var d := Run(t, IsDigit);
    var w := Run(t[d..], IsSpace);
    StartsWithCIShorter(t[d + w..], "minute", 3);
    assert "minute"[..3] == "min";
  }

  lemma {:induction false} MinuteFoundIsMinFound(t: string)
    requires FindNumber(t, "minute").Some?
    ensures FindNumber(t, "min").Some?
    decreases |t|
  {
    if NumberAt(t, "minute").Some? {
      MinuteMatchIsMinMatch(t);
    } else if NumberAt(t, "min").None? {
      MinuteFoundIsMinFound(t[1..]);
    }
  }

  /** The third pattern never decides: without an hours or `min` match the duration is the default. */
  lemma MinutePatternNeverDecides(message: string)
    requires FindNumber(message, "hour").None? && FindNumber(message, "min").None?
    ensures DurationOf(message) == DefaultDuration
  {
    if FindNumber(message, "minute").Some? {
      MinuteFoundIsMinFound(message);
    }
  }

  /**
   * A message made of one number followed by text without digits: the
   * duration is read off that number and the word after it.
   */
  lemma OneNumberDuration(digits: string, tail: string)
    requires |digits| >= 1 && forall i :: 0 <= i < |digits| ==> IsDigit(digits[i])
    requires forall i :: 0 <= i < |tail| ==> !IsDigit(tail[i])
    ensures var word := tail[Run(tail, IsSpace)..];
            DurationOf(digits + tail) ==
              if StartsWithCI(word, "hour") then DecimalValue(digits) * 60
              else if StartsWithCI(word, "min") then DecimalValue(digits)
              else DefaultDuration
  {
    NumberThenText(digits, tail, "hour");
    NumberThenText(digits, tail, "min");
    NumberThenText(digits, tail, "minute");
    var word := tail[Run(tail, IsSpace)..];
    if StartsWithCI(word, "minute") {
      StartsWithCIShorter(word, "minute", 3);
      assert "minute"[..3] == "min";
    }
  }

  /** The leftmost match of `(\d+)\s*unit` in a number followed by digit-free text starts at the number, or there is none. */
  lemma {:induction false} NumberThenText(digits: string, tail: string, unit: string)
    requires |digits| >= 1 && forall i :: 0 <= i < |digits| ==> IsDigit(digits[i])
    requires forall i :: 0 <= i < |tail| ==> !IsDigit(tail[i])
    ensures FindNumber(digits + tail, unit) ==
            if StartsWithCI(tail[Run(tail, IsSpace)..], unit) then Some(DecimalValue(digits)) else None
    decreases |digits|
  {
    var t := digits + tail;
    var n := |digits|;
    NumberAtDigitsThenText(digits, tail, unit);
    if !StartsWithCI(tail[Run(tail, IsSpace)..], unit) {
      if n == 1 {
        assert t[1..] == tail;
        NoDigitsNoNumber(tail, unit);
      } else {
        assert t[1..] == digits[1..] + tail;
        NumberThenText(digits[1..], tail, unit);
      }
    }
  }

  /** The match at the start of a number followed by digit-free text reads the whole number, if the unit follows. */
  lemma NumberAtDigitsThenText(digits: string, tail: string, unit: string)
    requires |digits| >= 1 && forall i :: 0 <= i < |digits| ==> IsDigit(digits[i])
    requires tail == [] || !IsDigit(tail[0])
    ensures NumberAt(digits + tail, unit) ==
            if StartsWithCI(tail[Run(tail, IsSpace)..], unit) then Some(DecimalValue(digits)) else None
  {
    var t := digits + tail;
    var n := |digits|;
    RunConcat(digits, tail, IsDigit);
    assert t[n..] == tail;
    var w := Run(tail, IsSpace);
    assert t[n + w..] == tail[w..];
    assert t[..n] == digits;
  }

  /** "2 hours" is two hours. */
  lemma DurationOfHours()
    ensures DurationOf("2 hours") == 120
  {
    assert "2 hours" == "2" + " hours";
    SpaceThenHours(" hours", "hours");
    assert DecimalValue("2") == 2 by { assert "2"[..0] == []; }
    OneNumberDuration("2", " hours");
  }

  /** A tail of one space and an hours word: the word is what follows `\s*`, and it is an `hour` word. */
  lemma SpaceThenHours(tail: string, word: string)
    requires tail == " " + word && |word| >= 4 && word[..4] == "hour"
    ensures tail[Run(tail, IsSpace)..] == word
    ensures StartsWithCI(word, "hour")
  {
    assert tail[1..] == word;
    assert Run(tail, IsSpace) == 1;
    assert word[0] == 'h' && word[1] == 'o' && word[2] == 'u' && word[3] == 'r';
  }

  /** "45 mins" is 45 minutes. */
  lemma DurationOfMins()
    ensures DurationOf("45 mins") == 45
  {
    assert "45 mins" == "45" + " mins";
    SpaceThenWord(" mins", "mins");
    assert DecimalValue("45") == 45 by { assert "45"[..1] == "4"; assert "4"[..0] == []; }
    OneNumberDuration("45", " mins");
  }

  /** "30 minutes" is 30 minutes, read by the `mins?` pattern before the `minutes?` one is tried. */
  lemma DurationOfMinutes()
    ensures DurationOf("30 minutes") == 30
  {
    assert "30 minutes" == "30" + " minutes";
    SpaceThenWord(" minutes", "minutes");
    assert DecimalValue("30") == 30 by { assert "30"[..1] == "3"; assert "3"[..0] == []; }
    OneNumberDuration("30", " minutes");
  }

  /** A tail of one space and a minutes word: the word is what follows `\s*`, and it is a `min` word, not an hours one. */
  lemma SpaceThenWord(tail: string, word: string)
    requires tail == " " + word && |word| >= 3 && word[..3] == "min"
    ensures tail[Run(tail, IsSpace)..] == word
    ensures StartsWithCI(word, "min") && !StartsWithCI(word, "hour")
  {
    assert tail[1..] == word;
    assert Run(tail, IsSpace) == 1;
    assert word[0] == 'm' && word[1] == 'i' && word[2] == 'n';
  }

  /** "0 min" is a duration of zero: the number is not checked for being positive. */
  lemma DurationOfZero()
    ensures DurationOf("0 min") == 0
  {
    assert "0 min" == "0" + " min";
    SpaceThenWord(" min", "min");
    assert DecimalValue("0") == 0 by { assert "0"[..0] == []; }
    OneNumberDuration("0", " min");
  }

  /** A message without a digit has no duration cue, so the duration is the default hour. */
  lemma NoDigitsDefaultDuration(message: string)
    requires forall i :: 0 <= i < |message| ==> !IsDigit(message[i])
    ensures DurationOf(message) == DefaultDuration
  {
    NoDigitsNoNumber(message, "hour");
    NoDigitsNoNumber(message, "min");
    NoDigitsNoNumber(message, "minute");
  }

  lemma {:induction false} NoDigitsNoNumber(t: string, unit: string)
    requires forall i :: 0 <= i < |t| ==> !IsDigit(t[i])
    ensures FindNumber(t, unit).None?
    decreases |t|
  {
    if t != [] {
      assert forall i :: 0 <= i < |t| - 1 ==> t[1..][i] == t[i + 1];
      NoDigitsNoNumber(t[1..], unit);
    }
  }

  // -------------------------------------------------------------- extract

  /** What `extract` returns. */
  function DetailsOf(message: string, t: Temporal): MeetingDetails {
    MeetingDetails(ExtractTitle(message, t), ParticipantsOf(message), ExtractLocation(message), DurationOf(message))
  }

  /** Only the title depends on the span: the other fields are read from the whole message. */
  lemma DetailsIgnoreSpan(message: string, t1: Temporal, t2: Temporal)
    ensures DetailsOf(message, t1).participants == DetailsOf(message, t2).participants
    ensures DetailsOf(message, t1).location == DetailsOf(message, t2).location
    ensures DetailsOf(message, t1).duration == DetailsOf(message, t2).duration
  {
  }

  /** `extract` */
  method Extract(message: string, t: Temporal) returns (details: MeetingDetails)
    ensures details == DetailsOf(message, t)
  {
    var title := ExtractTitle(message, t);
    var participants := ExtractParticipants(message);
    var location := ExtractLocation(message);
    var duration := ExtractDuration(message);
    details := MeetingDetails(title, participants, location, duration);
  }
}
