/**
 * Strings and the regular-expression building blocks the extractor and the
 * parser use. JavaScript's `\s`, `\d`, `\w`, `trim` and the `i` flag are
 * modelled on ASCII: `\s` and `trim` share one whitespace class, as they do in
 * JavaScript, and case-insensitive matching folds A-Z onto a-z only.
 */
module Text {

  /** `\s` and the characters `String.prototype.trim` removes (ASCII part). */
  predicate IsSpace(c: char) {
    c == ' ' || c == '\t' || c == '\n' || c == '\r' || c == '\U{B}' || c == '\U{C}'
  }

  /** `\d` */
  predicate IsDigit(c: char) {
    '0' <= c <= '9'
  }

  /** `[A-Za-z]`; under the `i` flag this is also what `[A-Z]` and `[a-z]` match. */
  predicate IsLetter(c: char) {
    'a' <= c <= 'z' || 'A' <= c <= 'Z'
  }

  /** `\w` */
  predicate IsWordChar(c: char) {
    IsLetter(c) || IsDigit(c) || c == '_'
  }

  predicate IsNonSpace(c: char) {
    !IsSpace(c)
  }

  function Lower(c: char): char {
    if 'A' <= c <= 'Z' then (c as int + 32) as char else c
  }

  /** `toLowerCase`, restricted to ASCII letters. */
  function LowerString(s: string): (r: string)
    ensures |r| == |s|
    ensures forall i :: 0 <= i < |s| ==> r[i] == Lower(s[i])
  {
    if s == [] then [] else [Lower(s[0])] + LowerString(s[1..])
  }

  predicate AllSpace(s: string) {
    forall i :: 0 <= i < |s| ==> IsSpace(s[i])
  }

  /**
   * The length of the longest prefix of `t` whose characters all satisfy `p`:
   * what a greedy `p+` or `p*` consumes at the start of `t`.
   */
  function Run(t: string, p: char -> bool): (n: nat)
    ensures n <= |t|
    ensures n < |t| ==> !p(t[n])
    decreases |t|
  {
    if |t| > 0 && p(t[0]) then 1 + Run(t[1..], p) else 0
  }

  /** Every character of the run satisfies `p`. */
  lemma {:induction false} RunChars(t: string, p: char -> bool)
    ensures forall j :: 0 <= j < Run(t, p) ==> p(t[j])
    decreases |t|
  {
    if |t| > 0 && p(t[0]) {
      RunChars(t[1..], p);
      assert forall j :: 1 <= j < Run(t, p) ==> t[j] == t[1..][j - 1];
    }
  }

  /** A run is not changed by cutting the string anywhere at or after its end. */
  lemma RunPrefix(t: string, p: char -> bool, k: nat)
    requires Run(t, p) <= k <= |t|
    ensures Run(t[..k], p) == Run(t, p)
  {
    var n := Run(t, p);
    RunChars(t, p);
    RunChars(t[..k], p);
    assert forall j :: 0 <= j < k ==> t[..k][j] == t[j];
  }

  /** Case-insensitive prefix test of a regex under the `i` flag; `kw` is given in lower case. */
  predicate StartsWithCI(t: string, kw: string)
    ensures StartsWithCI(t, kw) ==> |kw| <= |t|
    decreases kw
  {
    kw == [] || (t != [] && Lower(t[0]) == kw[0] && StartsWithCI(t[1..], kw[1..]))
  }

  /** A run over `a`, whose characters all satisfy `p`, ends where `b` begins unless `b` continues it. */
  lemma {:induction false} RunConcat(a: string, b: string, p: char -> bool)
    requires forall i :: 0 <= i < |a| ==> p(a[i])
    requires b == [] || !p(b[0])
    ensures Run(a + b, p) == |a|
    decreases |a|
  {
    if a == [] {
      assert a + b == b;
    } else {
      assert (a + b)[1..] == a[1..] + b;
      RunConcat(a[1..], b, p);
    }
  }

  /** Whether `t` starts with `kw` depends only on the first `|kw|` characters of `t`. */
  lemma {:induction false} StartsWithCIPrefix(t: string, kw: string, k: nat)
    requires |kw| <= k <= |t|
    ensures StartsWithCI(t[..k], kw) == StartsWithCI(t, kw)
    decreases kw
  {
    if kw != [] {
      assert t[..k][1..] == t[1..][..k - 1];
      StartsWithCIPrefix(t[1..], kw[1..], k - 1);
    }
  }

  /** A case-insensitive match of `kw` is also one of every prefix of `kw`. */
  lemma {:induction false} StartsWithCIShorter(t: string, kw: string, k: nat)
    requires StartsWithCI(t, kw) && k <= |kw|
    ensures StartsWithCI(t, kw[..k])
    decreases kw
  {
    if k > 0 {
      assert kw[..k][1..] == kw[1..][..k - 1];
      StartsWithCIShorter(t[1..], kw[1..], k - 1);
    }
  }

  /** `trimEnd`: drops trailing whitespace. */
  function TrimEnd(s: string): (r: string)
    ensures r <= s
    ensures AllSpace(s[|r|..])
    ensures r == [] || !IsSpace(r[|r| - 1])
    decreases |s|
  {
    if |s| > 0 && IsSpace(s[|s| - 1]) then TrimEnd(s[..|s| - 1]) else s
  }

  /**
   * `String.prototype.trim`: the string with its leading and trailing
   * whitespace removed, and nothing else changed.
   */
  function Trim(s: string): (r: string)
    ensures AllSpace(s) <==> r == []
    ensures r != [] ==> !IsSpace(r[0]) && !IsSpace(r[|r| - 1])
    ensures exists a :: 0 <= a <= |s| - |r| && AllSpace(s[..a]) && r <= s[a..] && AllSpace(s[a + |r|..])
  {
    var a := Run(s, IsSpace);
    RunChars(s, IsSpace);
    TrimShape(s, a);
    TrimEnd(s[a..])
  }

  lemma TrimShape(s: string, a: nat)
    requires a == Run(s, IsSpace)
    ensures AllSpace(s) <==> TrimEnd(s[a..]) == []
    ensures TrimEnd(s[a..]) != [] ==> !IsSpace(TrimEnd(s[a..])[0])
    ensures AllSpace(s[a + |TrimEnd(s[a..])|..])
  {
    var r := TrimEnd(s[a..]);
    RunChars(s, IsSpace);
    assert s[a..][|r|..] == s[a + |r|..];
    if r == [] {
      assert a == |s|;
    } else {
      assert !IsSpace(s[a]);
    }
  }

  /** A string that neither starts nor ends with whitespace is its own trim. */
  lemma TrimUnchanged(s: string)
    requires s != [] && !IsSpace(s[0]) && !IsSpace(s[|s| - 1])
    ensures Trim(s) == s
  {
    assert Run(s, IsSpace) == 0;
    assert TrimEnd(s[0..]) == s by { assert s[0..] == s; }
  }

  /** Trimming is idempotent. */
  lemma TrimTwice(s: string)
    ensures Trim(Trim(s)) == Trim(s)
  {
    var r := Trim(s);
    if r != [] {
      TrimUnchanged(r);
    }
  }

  /** `s.split('\n')[0]`: everything before the first line feed. */
  function FirstLine(s: string): (r: string)
    ensures r <= s
    ensures '\n' !in r
    ensures r == s || s[|r|] == '\n'
  {
    if s == [] || s[0] == '\n' then [] else [s[0]] + FirstLine(s[1..])
  }

  /** `s.substring(0, n)` for `n >= 0`. */
  function Take(s: string, n: nat): (r: string)
    ensures r <= s && |r| == if |s| < n then |s| else n
  {
    s[..if |s| < n then |s| else n]
  }

  /** `s.includes(sub)` */
  predicate Contains(s: string, sub: string)
    decreases |s|
  {
    sub <= s || (s != [] && Contains(s[1..], sub))
  }

  /** `parseInt` of a non-empty run of decimal digits. */
  function DecimalValue(digits: string): (v: nat)
    requires forall i :: 0 <= i < |digits| ==> IsDigit(digits[i])
    decreases |digits|
  {
    if digits == [] then 0
    else
      var last := digits[|digits| - 1];
      assert IsDigit(last);
      10 * DecimalValue(digits[..|digits| - 1]) + (last as int - '0' as int)
  }
}
