/** Models of the Python string builtins the scraper relies on:
    `str.isspace`/`str.strip`, `str.find`, `str.upper` and `str.lower`
    on ASCII letters, `str.split(sep)[0]` and `str.replace(pat, '')`.
    Strings are sequences of Unicode code points, as Python's `str` is. */
module Text {

  /** Python's `str.isspace`, which is also the set `\s` matches in a
      `str` pattern. */
  predicate IsSpace(c: char) {
    c == ' ' || ('\t' <= c <= '\r') || ('\U{1C}' <= c <= '\U{1F}')
    || c == '\U{85}' || c == '\U{A0}' || c == '\U{1680}'
    || ('\U{2000}' <= c <= '\U{200A}') || c == '\U{2028}' || c == '\U{2029}'
    || c == '\U{202F}' || c == '\U{205F}' || c == '\U{3000}'
  }

  predicate AllSpace(s: string) {
    forall i :: 0 <= i < |s| ==> IsSpace(s[i])
  }

  predicate IsDigit(c: char) { '0' <= c <= '9' }

  predicate IsUpper(c: char) { 'A' <= c <= 'Z' }

  predicate IsLower(c: char) { 'a' <= c <= 'z' }

  predicate AllDigits(s: string) {
    forall i :: 0 <= i < |s| ==> IsDigit(s[i])
  }

  /** Every character of `s` from offset `i` up to `j` is a digit. */
  predicate DigitsIn(s: string, i: nat, j: nat) {
    forall k :: i <= k < j && k < |s| ==> IsDigit(s[k])
  }

  /** The offset of the first character at or after `i` that is not
      whitespace, or `|s|` when there is none: where `lstrip` stops. */
  function SkipSpace(s: string, i: nat): (j: nat)
    requires i <= |s|
    decreases |s| - i
    ensures i <= j <= |s|
    ensures forall k :: i <= k < j ==> IsSpace(s[k])
    ensures j == |s| || !IsSpace(s[j])
  {
    if i < |s| && IsSpace(s[i]) then SkipSpace(s, i + 1) else i
  }

  /** The offset just past the last character before `j` that is not
      whitespace, or `i` when the characters from `i` to `j` are all
      whitespace: where `rstrip` stops. */
  function SkipSpaceBack(s: string, i: nat, j: nat): (k: nat)
    requires i <= j <= |s|
    decreases j
    ensures i <= k <= j
    ensures forall m :: k <= m < j ==> IsSpace(s[m])
    ensures k == i || !IsSpace(s[k - 1])
  {
    if i < j && IsSpace(s[j - 1]) then SkipSpaceBack(s, i, j - 1) else j
  }

  /** `s.strip()`, that is `s.lstrip().rstrip()`: the part of `s` between
      its leading and its trailing whitespace. */
  function Strip(s: string): (r: string)
    ensures r == [] || (!IsSpace(r[0]) && !IsSpace(r[|r| - 1]))
  {
    var a := SkipSpace(s, 0);
    s[a..SkipSpaceBack(s, a, |s|)]
  }

  /** `strip` removes only whitespace, and all of it at both ends: `s` is
      whitespace, then what `strip` keeps, then whitespace. */
  lemma StripSpec(s: string)
    ensures exists lead, trail :: s == lead + Strip(s) + trail && AllSpace(lead) && AllSpace(trail)
  {
    var a := SkipSpace(s, 0);
    var b := SkipSpaceBack(s, a, |s|);
    var lead, trail := s[..a], s[b..];
    assert AllSpace(lead) by {
      forall k | 0 <= k < a ensures IsSpace(lead[k]) {
        assert lead[k] == s[k];
      }
    }
    assert AllSpace(trail) by {
      forall k | 0 <= k < |s| - b ensures IsSpace(trail[k]) {
        assert trail[k] == s[b + k];
      }
    }
    assert Strip(s) == s[a..b];
    SplitThree(s, a, b);
  }

  lemma SplitThree(s: string, a: nat, b: nat)
    requires a <= b <= |s|
    ensures s == s[..a] + s[a..b] + s[b..]
  {
    assert s[..b] == s[..a] + s[a..b];
  }

  /** Stripping text that starts with a non-space character keeps every
      character up to the last non-space one: in particular a non-space
      prefix `w` survives. */
  lemma StripKeepsPrefix(w: string, s: string)
    requires w <= s && |w| > 0
    requires !IsSpace(w[0]) && !IsSpace(w[|w| - 1])
    ensures w <= Strip(s)
  {
    assert s[0] == w[0] && s[|w| - 1] == w[|w| - 1];
    var a := SkipSpace(s, 0);
    assert a == 0;
    var b := SkipSpaceBack(s, a, |s|);
    assert |w| <= b;
  }

  /** Stripping text that ends with a non-space piece `t` that also
      starts with a non-space character keeps `t` at the end. */
  lemma StripEndsWith(x: string, t: string)
    requires t != [] && !IsSpace(t[0]) && !IsSpace(t[|t| - 1])
    ensures |Strip(x + t)| >= |t| && Strip(x + t)[|Strip(x + t)| - |t|..] == t
  {
    var s := x + t;
    assert s[|x|] == t[0] && s[|s| - 1] == t[|t| - 1];
    var a := SkipSpace(s, 0);
    assert a <= |x|;
    assert SkipSpaceBack(s, a, |s|) == |s|;
    assert Strip(s) == x[a..] + t;
  }

  /** Stripping text that already has no whitespace at either end changes
      nothing. */
  lemma StripTrimmed(s: string)
    requires s == [] || (!IsSpace(s[0]) && !IsSpace(s[|s| - 1]))
    ensures Strip(s) == s
  {
  }

  predicate OccursAt(s: string, pat: string, i: int) {
    0 <= i && i + |pat| <= |s| && s[i..i + |pat|] == pat
  }

  /** An occurrence at `i` is a prefix of what follows `i`. */
  lemma OccursPrefix(s: string, pat: string, i: int)
    requires OccursAt(s, pat, i)
    ensures pat <= s[i..]
  {
    assert s[i..][..|pat|] == s[i..i + |pat|];
  }

  /** An occurrence inside a piece of `s` is an occurrence in `s`. */
  lemma OccursWithin(s: string, p: nat, tail: string, i: int, pat: string)
    requires p <= |s| && tail <= s[p..] && OccursAt(tail, pat, i)
    ensures OccursAt(s, pat, p + i)
  {
    assert s[p + i..p + i + |pat|] == tail[i..i + |pat|];
  }

  /** `s.find(pat, k)`: the least offset at or after `k` where `pat`
      occurs, or -1. */
  function FindFrom(s: string, pat: string, k: nat): (r: int)
    requires k <= |s|
    decreases |s| - k
    ensures r == -1 ==> forall i :: k <= i ==> !OccursAt(s, pat, i)
    ensures r != -1 ==> k <= r && OccursAt(s, pat, r)
                        && forall i :: k <= i < r ==> !OccursAt(s, pat, i)
  {
    if OccursAt(s, pat, k) then k
    else if k == |s| then -1
    else FindFrom(s, pat, k + 1)
  }

  /** `s.find(pat)`. */
  function Find(s: string, pat: string): (r: int)
    ensures r == -1 <==> forall i :: !OccursAt(s, pat, i)
    ensures r != -1 ==> OccursAt(s, pat, r) && forall i :: 0 <= i < r ==> !OccursAt(s, pat, i)
  {
    FindFrom(s, pat, 0)
  }

  function UpperChar(c: char): char {
    if IsLower(c) then (c as int - 'a' as int + 'A' as int) as char else c
  }

  function LowerChar(c: char): char {
    if IsUpper(c) then (c as int - 'A' as int + 'a' as int) as char else c
  }

  /** `s.upper()` for text whose letters are ASCII. */
  function Upper(s: string): (r: string)
    ensures |r| == |s|
    ensures forall i :: 0 <= i < |s| ==> !IsLower(r[i]) && (IsLower(s[i]) ==> LowerChar(r[i]) == s[i])
    ensures forall i :: 0 <= i < |s| && !IsLower(s[i]) ==> r[i] == s[i]
  {
    seq(|s|, i requires 0 <= i < |s| => UpperChar(s[i]))
  }

  /** `s.lower()` for text whose letters are ASCII. */
  function Lower(s: string): (r: string)
    ensures |r| == |s|
    ensures forall i :: 0 <= i < |s| ==> !IsUpper(r[i]) && (IsUpper(s[i]) ==> UpperChar(r[i]) == s[i])
    ensures forall i :: 0 <= i < |s| && !IsUpper(s[i]) ==> r[i] == s[i]
  {
    seq(|s|, i requires 0 <= i < |s| => LowerChar(s[i]))
  }

  /** `s.split(sep)[0]`: the text before the first `sep`, or all of `s`
      when `sep` does not occur. (`split` never returns an empty list.) */
  function BeforeFirst(s: string, sep: char): (r: string)
    ensures r <= s && sep !in r
    ensures |r| == |s| || s[|r|] == sep
  {
    if s == [] || s[0] == sep then [] else [s[0]] + BeforeFirst(s[1..], sep)
  }

  /** `s.replace(pat, '')`: scans left to right and drops every
      non-overlapping occurrence of `pat`. */
  function DeleteAll(s: string, pat: string): (r: string)
    requires |pat| > 0
    ensures |r| <= |s|
    ensures pat[0] !in s ==> r == s
  {
    if |s| < |pat| then s
    else if s[..|pat|] == pat then DeleteAll(s[|pat|..], pat)
    else [s[0]] + DeleteAll(s[1..], pat)
  }

  /** An occurrence at the front is dropped. */
  lemma DeleteAllLeading(pat: string, rest: string)
    requires |pat| > 0
    ensures DeleteAll(pat + rest, pat) == DeleteAll(rest, pat)
  {
    assert (pat + rest)[..|pat|] == pat;
    assert (pat + rest)[|pat|..] == rest;
  }

  /** Text before which no occurrence of `pat` can start passes through
      `replace` untouched. */
  lemma {:induction false} DeleteAllSkips(a: string, b: string, pat: string)
    requires |pat| > 0 && pat[0] !in a
    ensures DeleteAll(a + b, pat) == a + DeleteAll(b, pat)
  {
    if a != [] {
      var s := a + b;
      assert s[0] == a[0];
      if |s| < |pat| {
        assert DeleteAll(s, pat) == s;
        assert DeleteAll(b, pat) == b;
      } else {
        assert s[..|pat|] != pat by { assert s[..|pat|][0] == a[0]; }
        assert DeleteAll(s, pat) == [a[0]] + DeleteAll(s[1..], pat);
        assert s[1..] == a[1..] + b;
        DeleteAllSkips(a[1..], b, pat);
        assert a == [a[0]] + a[1..];
      }
    } else {
      assert a + b == b;
    }
  }
}
