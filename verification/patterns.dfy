/** The three regular expressions of the field extractor, each written as
    an explicit scan over the text with Python `re` semantics: `re.search`
    finds the leftmost match, `\d` is an ASCII digit, `\d+` is greedy and
    `[A-Z]?` takes the capital letter when one follows. */
module Patterns {
  import opened Wrappers
  import opened Text

  /** Number of ASCII digits starting at `i`: what a greedy `\d+`
      consumes there. */
  function DigitRun(s: string, i: nat): (n: nat)
    requires i <= |s|
    decreases |s| - i
    ensures i + n <= |s| && DigitsIn(s, i, i + n)
    ensures i + n == |s| || !IsDigit(s[i + n])
  {
    if i < |s| && IsDigit(s[i]) then 1 + DigitRun(s, i + 1) else 0
  }

  /** A run of digits followed by a non-digit (or the end) is the greedy
      run: `\d+` has only one way to stop before a non-digit. */
  lemma {:induction false} DigitRunUnique(s: string, i: nat, m: nat)
    requires i + m <= |s| && DigitsIn(s, i, i + m)
    requires i + m == |s| || !IsDigit(s[i + m])
    ensures m == DigitRun(s, i)
    decreases m
  {
    if m > 0 {
      DigitRunUnique(s, i + 1, m - 1);
    }
  }

  // ---------------------------------------------------------------------
  // Course code: f"{DEPT}_V \d+[A-Z]?"

  /** `t` has the shape `\d+[A-Z]?`. */
  predicate IsCourseNumber(t: string) {
    |t| >= 1 && IsDigit(t[0]) && AllDigits(t[..|t| - 1])
    && (IsDigit(t[|t| - 1]) || IsUpper(t[|t| - 1]))
  }

  /** The code pattern for department prefix `d` matches `s[k..e]`. */
  predicate CodeMatch(s: string, d: string, k: int, e: int) {
    OccursAt(s, d + "_V ", k) && k + |d| + 3 < e <= |s|
    && IsCourseNumber(s[k + |d| + 3..e])
  }

  /** `s[k..e]` is the match `re.search` reports: the leftmost start, and
      there the longest match, which is what the greedy `\d+` followed by
      the greedy `[A-Z]?` produces. */
  ghost predicate FirstCodeMatch(s: string, d: string, k: int, e: int) {
    CodeMatch(s, d, k, e)
    && (forall j, f :: j < k ==> !CodeMatch(s, d, j, f))
    && (forall f :: e < f ==> !CodeMatch(s, d, k, f))
  }

  /** After a maximal run of `n >= 1` digits at `j`, `\d+[A-Z]?` matches
      up to `e` (the run, plus a capital letter when one follows) and no
      further. */
  lemma GreedyNumber(s: string, j: nat, n: nat, e: nat)
    requires 1 <= n && j + n <= |s| && DigitsIn(s, j, j + n)
    requires j + n == |s| || !IsDigit(s[j + n])
    requires e == if j + n < |s| && IsUpper(s[j + n]) then j + n + 1 else j + n
    ensures IsCourseNumber(s[j..e])
    ensures forall f :: e < f <= |s| ==> !IsCourseNumber(s[j..f])
  {
    var t := s[j..e];
    assert t[0] == s[j] && t[|t| - 1] == s[e - 1];
    var front := t[..|t| - 1];
    forall i | 0 <= i < |front|
      ensures IsDigit(front[i])
    {
      assert front[i] == s[j + i];
    }
    forall f | e < f <= |s|
      ensures !IsCourseNumber(s[j..f])
    {
      var t := s[j..f];
      if f == j + n + 1 {
        assert t[|t| - 1] == s[j + n];
      } else {
        assert t[..|t| - 1][n] == s[j + n];
      }
    }
  }

  /** Where the greedy match that starts at `k` ends. */
  function CodeEnd(s: string, d: string, k: nat): (e: nat)
    requires OccursAt(s, d + "_V ", k) && k + |d| + 3 < |s| && IsDigit(s[k + |d| + 3])
    ensures CodeMatch(s, d, k, e)
    ensures forall f :: e < f ==> !CodeMatch(s, d, k, f)
  {
    var j := k + |d| + 3;
    var n := DigitRun(s, j);
    var e := if j + n < |s| && IsUpper(s[j + n]) then j + n + 1 else j + n;
    GreedyNumber(s, j, n, e);
    e
  }

  /** `re.search` of the code pattern from offset `k` on: the start and
      end of the leftmost-longest match, or None. */
  function SearchCodeFrom(s: string, d: string, k: nat): (r: Option<(nat, nat)>)
    requires k <= |s|
    decreases |s| - k
    ensures r.None? ==> forall j, f :: k <= j ==> !CodeMatch(s, d, j, f)
    ensures r.Some? ==> k <= r.value.0 && CodeMatch(s, d, r.value.0, r.value.1)
                        && (forall j, f :: k <= j < r.value.0 ==> !CodeMatch(s, d, j, f))
                        && (forall f :: r.value.1 < f ==> !CodeMatch(s, d, r.value.0, f))
  {
    var j := k + |d| + 3;
    if OccursAt(s, d + "_V ", k) && j < |s| && IsDigit(s[j]) then
      Some((k, CodeEnd(s, d, k)))
    else
      NoCodeMatchAt(s, d, k);
      if k == |s| then None else SearchCodeFrom(s, d, k + 1)
  }

  /** Without the literal prefix followed by a digit at `k`, no code match
      starts at `k`. */
  lemma NoCodeMatchAt(s: string, d: string, k: nat)
    requires !(OccursAt(s, d + "_V ", k) && k + |d| + 3 < |s| && IsDigit(s[k + |d| + 3]))
    ensures forall f :: !CodeMatch(s, d, k, f)
  {
  }

  /** `re.search(f"{d}_V \d+[A-Z]?", s)`. */
  function SearchCode(s: string, d: string): (r: Option<(nat, nat)>)
    ensures r.None? <==> forall j, f :: !CodeMatch(s, d, j, f)
    ensures r.Some? ==> FirstCodeMatch(s, d, r.value.0, r.value.1)
  {
    SearchCodeFrom(s, d, 0)
  }

  // ---------------------------------------------------------------------
  // Credits: r'\((\d+)\)'

  /** The credits pattern matches at `k` with a group of `n` digits. */
  predicate CreditsMatch(s: string, k: int, n: int) {
    0 <= k && 1 <= n && k + n + 2 <= |s| && s[k] == '('
    && DigitsIn(s, k + 1, k + 1 + n) && s[k + 1 + n] == ')'
  }

  /** At a given offset the credits pattern can match in one way only. */
  lemma CreditsMatchUnique(s: string, k: int, n: int)
    requires CreditsMatch(s, k, n)
    ensures n == DigitRun(s, k + 1)
  {
    DigitRunUnique(s, k + 1, n);
  }

  /** `re.search` of the credits pattern from offset `k` on: where the
      leftmost match starts and how many digits its group holds. */
  function SearchCreditsFrom(s: string, k: nat): (r: Option<(nat, nat)>)
    requires k <= |s|
    decreases |s| - k
    ensures r.None? ==> forall j, n :: k <= j ==> !CreditsMatch(s, j, n)
    ensures r.Some? ==> k <= r.value.0 && CreditsMatch(s, r.value.0, r.value.1)
                        && forall j, n :: k <= j < r.value.0 ==> !CreditsMatch(s, j, n)
  {
    if k == |s| then None
    else
      var n := DigitRun(s, k + 1);
      if s[k] == '(' && n >= 1 && k + 1 + n < |s| && s[k + 1 + n] == ')' then
        Some((k, n))
      else
        assert forall m :: !CreditsMatch(s, k, m) by {
          forall m | CreditsMatch(s, k, m) ensures false {
            CreditsMatchUnique(s, k, m);
          }
        }
        SearchCreditsFrom(s, k + 1)
  }

  /** The `credits` field: the digits of the first `(digits)` group, or
      "3" when the header has none. */
  function Credits(s: string): (r: string)
    ensures |r| >= 1 && AllDigits(r)
  {
    match SearchCreditsFrom(s, 0)
    case None => "3"
    case Some((k, n)) => s[k + 1..k + 1 + n]
  }

  /** With no `(digits)` group in the header, credits default to "3". */
  lemma CreditsDefault(s: string)
    requires forall k, n :: !CreditsMatch(s, k, n)
    ensures Credits(s) == "3"
  {
  }

  /** Credits are the digits of the leftmost `(digits)` group. */
  lemma CreditsFirst(s: string, k: nat, n: nat)
    requires CreditsMatch(s, k, n)
    requires forall j, m :: j < k ==> !CreditsMatch(s, j, m)
    ensures Credits(s) == s[k + 1..k + 1 + n]
  {
    var r := SearchCreditsFrom(s, 0);
    assert r.Some?;
    var (k', n') := r.value;
    assert k' == k;
    CreditsMatchUnique(s, k, n);
    CreditsMatchUnique(s, k, n');
  }

  // ---------------------------------------------------------------------
  // Course-hours suffix: r'\[\d+-\d+-\d+\]\s*$'

  /** `t` is matched in full by `\[\d+-\d+-\d+\]\s*`, as the pattern
      anchored by `$` requires of everything from the match's start to the
      end of the text. Each `\d+` is followed by a non-digit, so its greedy
      run is the only one that can succeed. */
  predicate IsHoursSuffix(t: string) {
    |t| >= 1 && t[0] == '['
    && (var a := DigitRun(t, 1);
        a >= 1 && 1 + a < |t| && t[1 + a] == '-'
        && (var b := DigitRun(t, 2 + a);
            b >= 1 && 2 + a + b < |t| && t[2 + a + b] == '-'
            && (var c := DigitRun(t, 3 + a + b);
                c >= 1 && 3 + a + b + c < |t| && t[3 + a + b + c] == ']'
                && forall k :: 4 + a + b + c <= k < |t| ==> IsSpace(t[k]))))
  }

  /** A suffix holds exactly one '[', its first character. */
  lemma HoursSuffixOneBracket(t: string, i: nat)
    requires IsHoursSuffix(t) && 0 < i < |t|
    ensures t[i] != '['
  {
    var a := DigitRun(t, 1);
    var b := DigitRun(t, 2 + a);
    var c := DigitRun(t, 3 + a + b);
  }

  /** The hours pattern matches from offset `j` to the end of `s`. */
  predicate HoursSuffixAt(s: string, j: int) {
    0 <= j <= |s| && IsHoursSuffix(s[j..])
  }

  /** The leftmost offset at or after `k` from which the rest of `s` is an
      hours suffix. */
  function SearchHoursFrom(s: string, k: nat): (r: Option<nat>)
    requires k <= |s|
    decreases |s| - k
    ensures r.None? ==> forall j :: k <= j ==> !HoursSuffixAt(s, j)
    ensures r.Some? ==> k <= r.value <= |s| && HoursSuffixAt(s, r.value)
                        && forall j :: k <= j < r.value ==> !HoursSuffixAt(s, j)
  {
    if HoursSuffixAt(s, k) then Some(k)
    else if k == |s| then None
    else SearchHoursFrom(s, k + 1)
  }

  /** `re.sub(r'\[\d+-\d+-\d+\]\s*$', '', s)`: every match reaches the end
      of the text, so at most one is removed. */
  function DropHoursSuffix(s: string): (r: string)
    ensures r <= s
  {
    match SearchHoursFrom(s, 0)
    case None => s
    case Some(i) => s[..i]
  }

  /** Text without an hours suffix is left as it is. */
  lemma DropHoursSuffixNone(s: string)
    requires forall j :: !HoursSuffixAt(s, j)
    ensures DropHoursSuffix(s) == s
  {
  }

  /** Exactly one trailing suffix is removed: whatever precedes it stays,
      including another suffix. */
  lemma DropHoursSuffixOne(x: string, t: string)
    requires IsHoursSuffix(t)
    ensures DropHoursSuffix(x + t) == x
  {
    var s := x + t;
    assert s[|x|..] == t;
    assert HoursSuffixAt(s, |x|);
    forall j | 0 <= j < |x| ensures !HoursSuffixAt(s, j) {
      if HoursSuffixAt(s, j) {
        HoursSuffixOneBracket(s[j..], |x| - j);
      }
    }
    assert s[..|x|] == x;
  }
}
