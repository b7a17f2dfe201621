/** The field extractor of `UBCCourseScraper.parse_course_from_header`:
    from one course header, already reduced to its text, the text of its
    `<strong>` element and the text of the paragraph that follows it,
    derive the course record, or nothing when the header carries no
    course code. */
module FieldExtractor {
  import opened Wrappers
  import opened Text
  import opened Patterns

  const BaseUrl := "https://vancouver.calendar.ubc.ca"
  const NoTitle := "No title available"
  const NoDescription := "No description available"
  const NoPrerequisites := "None listed"
  /** Below this length the description falls back to the first sentence. */
  const MinDescriptionLength := 20

  /** The keywords that open the prerequisite part of a body, in the
      order the source lists them. */
  const Indicators: seq<string> :=
    ["Prerequisite", "Corequisite", "Not for students", "Restricted to", "Permission required"]

  /** One `h3.text-lg` element: its text, the text of its first `<strong>`
      (if any) and the text of the body paragraph found after it, either
      its next sibling `<p>` or the next `<p>` under its parent (if any). */
  datatype Header = Header(text: string, strong: Option<string>, body: Option<string>)

  /** The record the source builds as a dict with these seven keys. */
  datatype Course = Course(
    code: string,
    title: string,
    department: string,
    url: string,
    description: string,
    credits: string,
    prerequisites: string)

  /** A department code as the scraper's callers pass it: ASCII letters,
      which can be spliced into the code pattern unescaped. */
  predicate IsDeptCode(d: string) {
    forall i :: 0 <= i < |d| ==> IsUpper(d[i]) || IsLower(d[i])
  }

  /** The department's catalog page: the subject path, the department in
      lower case, then 'v'. */
  function DepartmentUrl(dept: string): (r: string)
    ensures var path := BaseUrl + "/course-descriptions/subject/";
            |r| == |path| + |dept| + 1 && r[..|path|] == path && r[|r| - 1] == 'v'
            && forall i :: 0 <= i < |dept| ==> r[|path| + i] == LowerChar(dept[i])
  {
    BaseUrl + "/course-descriptions/subject/" + Lower(dept) + "v"
  }

  /** The smallest first offset in `text` of any keyword of `kws`, or -1
      when none occurs; computed keyword by keyword in list order, as the
      source's loop does. */
  function EarliestAmong(text: string, kws: seq<string>): (p: int)
    decreases |kws|
    ensures p == -1 <==> forall w, i :: w in kws ==> !OccursAt(text, w, i)
    ensures p != -1 ==> 0 <= p <= |text| && (exists w :: w in kws && OccursAt(text, w, p))
    ensures forall w, i :: w in kws && 0 <= i < p ==> !OccursAt(text, w, i)
  {
    if kws == [] then -1
    else
      var init := kws[..|kws| - 1];
      var last := kws[|kws| - 1];
      assert forall w :: w in kws <==> w in init || w == last by {
        assert kws == init + [last];
      }
      var p := EarliestAmong(text, init);
      var q := Find(text, last);
      if q != -1 && (p == -1 || q < p) then q else p
  }

  /** The offset does not depend on the order the keywords are listed in:
      the earliest keyword by position wins. */
  lemma EarliestIgnoresOrder(text: string, a: seq<string>, b: seq<string>)
    requires forall w :: w in a <==> w in b
    ensures EarliestAmong(text, a) == EarliestAmong(text, b)
  {
    var p, q := EarliestAmong(text, a), EarliestAmong(text, b);
    if p != -1 && q != -1 {
      var w :| w in a && OccursAt(text, w, p);
      var v :| v in b && OccursAt(text, v, q);
    }
  }

  /** One more keyword updates the offset as the source's loop body does. */
  lemma EarliestStep(text: string, kws: seq<string>, k: nat)
    requires k < |kws|
    ensures var p, q := EarliestAmong(text, kws[..k]), Find(text, kws[k]);
            EarliestAmong(text, kws[..k + 1]) == if q != -1 && (p == -1 || q < p) then q else p
  {
    assert kws[..k + 1][..k] == kws[..k];
  }

  /** The loop that computes `prereq_start`. */
  method PrereqStart(text: string) returns (p: int)
    ensures p == EarliestAmong(text, Indicators)
  {
    var indicators := Indicators;
    p := -1;
    for k := 0 to |indicators|
      invariant p == EarliestAmong(text, indicators[..k])
    {
      EarliestStep(text, indicators, k);
      var pos := Find(text, indicators[k]);
      if pos != -1 {
        if p == -1 || pos < p {
          p := pos;
        }
      }
    }
    assert indicators[..|indicators|] == indicators;
  }

  /** `re.sub(r'\[\d+-\d+-\d+\]\s*$', '', d).strip()`. */
  function Cleanup(d: string): (r: string)
    ensures |r| <= |d|
    ensures r == [] || (!IsSpace(r[0]) && !IsSpace(r[|r| - 1]))
  {
    Strip(DropHoursSuffix(d))
  }

  /** The final description from the cleaned text `d`: `d` itself, or,
      when it is shorter than 20 characters, the body up to its first '.'
      with a '.' added. */
  function Finish(d: string, body: string): (r: string)
    ensures |r| >= MinDescriptionLength || (|r| >= 1 && r[|r| - 1] == '.')
    ensures |d| >= MinDescriptionLength ==> r == d
    ensures |d| < MinDescriptionLength ==> r == BeforeFirst(body, '.') + "."
  {
    if |d| < MinDescriptionLength then BeforeFirst(body, '.') + "." else d
  }

  /** Description and prerequisites of a stripped body text. */
  function DescribeBody(body: string): (r: (string, string))
    ensures |r.0| >= MinDescriptionLength || (|r.0| >= 1 && r.0[|r.0| - 1] == '.')
    ensures EarliestAmong(body, Indicators) == -1 ==> r.1 == NoPrerequisites
  {
    var p := EarliestAmong(body, Indicators);
    if p == -1 then
      (Finish(Cleanup(body), body), NoPrerequisites)
    else
      (Finish(Cleanup(Strip(body[..p])), body), Strip(body[p..]))
  }

  /** The title: the stripped `<strong>` text, or the placeholder. */
  function Title(strong: Option<string>): (r: string)
    ensures strong.None? ==> r == NoTitle
    ensures r == [] || (!IsSpace(r[0]) && !IsSpace(r[|r| - 1]))
  {
    match strong
    case None => NoTitle
    case Some(t) => Strip(t)
  }

  /** Description and prerequisites of a header's body paragraph, or the
      two placeholders when there is none. */
  function Describe(body: Option<string>): (r: (string, string))
    ensures body.None? ==> r == (NoDescription, NoPrerequisites)
    ensures |r.0| >= MinDescriptionLength || (|r.0| >= 1 && r.0[|r.0| - 1] == '.')
  {
    match body
    case None => (NoDescription, NoPrerequisites)
    case Some(b) => DescribeBody(Strip(b))
  }

  /** `parse_course_from_header`: None when the header text holds no code
      of the department, else the record. */
  function ParseCourse(dept: string, h: Header): (r: Option<Course>)
    requires IsDeptCode(dept)
    ensures r.Some? ==> r.value.department == dept && r.value.url == DepartmentUrl(dept)
  {
    match SearchCode(h.text, Upper(dept))
    case None => None
    case Some((k, e)) =>
      var (description, prerequisites) := Describe(h.body);
      Some(Course(
        code := DeleteAll(h.text[k..e], "_V"),
        title := Title(h.strong),
        department := dept,
        url := DepartmentUrl(dept),
        description := description,
        credits := Credits(h.text),
        prerequisites := prerequisites))
  }

  // ---------------------------------------------------------------------
  // What the extracted fields are

  lemma UpperHasNoUnderscore(d: string)
    requires forall i :: 0 <= i < |d| ==> IsUpper(d[i])
    ensures '_' !in d
  {
  }

  lemma NumberHasNoUnderscore(num: string)
    requires IsCourseNumber(num)
    ensures '_' !in " " + num
  {
  }

  /** Deleting `_V` from a matched code keeps the space before the
      number. */
  lemma DeleteSeparator(d: string, num: string)
    requires forall i :: 0 <= i < |d| ==> IsUpper(d[i])
    requires IsCourseNumber(num)
    ensures DeleteAll(d + "_V " + num, "_V") == d + " " + num
  {
    assert d + "_V " + num == d + ("_V" + (" " + num));
    UpperHasNoUnderscore(d);
    DeleteAllSkips(d, "_V" + (" " + num), "_V");
    DeleteAllLeading("_V", " " + num);
    NumberHasNoUnderscore(num);
    DeleteAllSkips(" " + num, [], "_V");
    assert " " + num + [] == " " + num;
  }

  /** A record exactly when the header text holds a code of the
      department. */
  lemma ParseFindsCode(dept: string, h: Header)
    requires IsDeptCode(dept)
    ensures ParseCourse(dept, h).None? <==> forall k, e :: !CodeMatch(h.text, Upper(dept), k, e)
  {
  }

  /** The credits are a non-empty run of digits; the title and the
      description fall back to their placeholders when the header has no
      `<strong>` element or no body paragraph. */
  lemma ParsePlaceholders(dept: string, h: Header)
    requires IsDeptCode(dept) && ParseCourse(dept, h).Some?
    ensures var c := ParseCourse(dept, h).value;
            |c.credits| >= 1 && AllDigits(c.credits) &&
            (h.strong.None? ==> c.title == NoTitle) &&
            (h.body.None? ==> c.description == NoDescription && c.prerequisites == NoPrerequisites)
  {
  }

  /** The code is the text the code search found, with `_V` deleted. */
  lemma ParseCodeRaw(dept: string, h: Header)
    requires IsDeptCode(dept) && SearchCode(h.text, Upper(dept)).Some?
    ensures ParseCourse(dept, h).Some?
    ensures var (k, e) := SearchCode(h.text, Upper(dept)).value;
            ParseCourse(dept, h).value.code == DeleteAll(h.text[k..e], "_V")
  {
  }

  /** Deleting `_V` from the text of a code match leaves the department,
      a space and the number. */
  lemma MatchedCode(dept: string, s: string, k: nat, e: nat)
    requires IsDeptCode(dept) && CodeMatch(s, Upper(dept), k, e)
    ensures DeleteAll(s[k..e], "_V") == Upper(dept) + " " + s[k + |dept| + 3..e]
  {
    var d := Upper(dept);
    var num := s[k + |d| + 3..e];
    assert s[k..e] == d + "_V " + num by {
      assert s[k..e] == s[k..k + |d| + 3] + num;
    }
    DeleteSeparator(d, num);
  }

  /** The code is the leftmost match of `<DEPT>_V <digits>[A-Z]?` with
      `_V` deleted: the space before the number stays. */
  lemma ParseCode(dept: string, h: Header, k: nat, e: nat)
    requires IsDeptCode(dept)
    requires FirstCodeMatch(h.text, Upper(dept), k, e)
    ensures ParseCourse(dept, h).Some?
    ensures ParseCourse(dept, h).value.code == Upper(dept) + " " + h.text[k + |dept| + 3..e]
  {
    assert SearchCode(h.text, Upper(dept)) == Some((k, e));
    ParseCodeRaw(dept, h);
    MatchedCode(dept, h.text, k, e);
  }

  /** The description and prerequisites come from the body paragraph. */
  lemma ParseParts(dept: string, h: Header)
    requires IsDeptCode(dept) && ParseCourse(dept, h).Some?
    ensures ParseCourse(dept, h).value.description == Describe(h.body).0
    ensures ParseCourse(dept, h).value.prerequisites == Describe(h.body).1
  {
  }

  /** Every description is at least 20 characters long or ends a
      sentence with '.'. */
  lemma DescriptionLongOrSentence(dept: string, h: Header)
    requires IsDeptCode(dept) && ParseCourse(dept, h).Some?
    ensures var d := ParseCourse(dept, h).value.description;
            |d| >= MinDescriptionLength || (|d| >= 1 && d[|d| - 1] == '.')
  {
    ParseParts(dept, h);
    if h.body.Some? {
      var body := Strip(h.body.value);
      var p := EarliestAmong(body, Indicators);
      if p == -1 {
        assert DescribeBody(body).0 == Finish(Cleanup(body), body);
      } else {
        assert DescribeBody(body).0 == Finish(Cleanup(Strip(body[..p])), body);
      }
    } else {
      assert |NoDescription| == 24;
    }
  }

  /** The title is the stripped `<strong>` text. */
  lemma ParseTitle(dept: string, h: Header)
    requires IsDeptCode(dept) && ParseCourse(dept, h).Some? && h.strong.Some?
    ensures ParseCourse(dept, h).value.title == Strip(h.strong.value)
  {
  }

  /** With a `(digits)` group in the header, credits are the digits of the
      leftmost one. */
  lemma ParseCredits(dept: string, h: Header, k: nat, n: nat)
    requires IsDeptCode(dept) && ParseCourse(dept, h).Some?
    requires CreditsMatch(h.text, k, n)
    requires forall j, m :: j < k ==> !CreditsMatch(h.text, j, m)
    ensures ParseCourse(dept, h).value.credits == h.text[k + 1..k + 1 + n]
  {
    CreditsFirst(h.text, k, n);
  }

  /** Without a `(digits)` group, credits are "3". */
  lemma ParseCreditsDefault(dept: string, h: Header)
    requires IsDeptCode(dept) && ParseCourse(dept, h).Some?
    requires forall j, m :: !CreditsMatch(h.text, j, m)
    ensures ParseCourse(dept, h).value.credits == "3"
  {
    CreditsDefault(h.text);
  }

  /** Every keyword starts and ends with a non-space character. */
  lemma IndicatorTrimmed(w: string)
    requires w in Indicators
    ensures |w| > 0 && !IsSpace(w[0]) && !IsSpace(w[|w| - 1])
  {
  }

  /** An occurrence before which no keyword occurs is the split offset. */
  lemma EarliestIsSplit(body: string, w: string, p: nat)
    requires w in Indicators && OccursAt(body, w, p)
    requires forall v, i :: v in Indicators && 0 <= i < p ==> !OccursAt(body, v, i)
    ensures EarliestAmong(body, Indicators) == p
  {
  }

  lemma DescribeAt(body: string, p: nat)
    requires EarliestAmong(body, Indicators) == p
    ensures DescribeBody(body).1 == Strip(body[p..])
    ensures DescribeBody(body).0 == Finish(Cleanup(Strip(body[..p])), body)
  {
  }

  /** The stripped text from a keyword occurrence on starts with that
      keyword. */
  lemma KeywordLeads(body: string, w: string, p: nat)
    requires w in Indicators && OccursAt(body, w, p)
    ensures w <= Strip(body[p..])
  {
    IndicatorTrimmed(w);
    OccursPrefix(body, w, p);
    StripKeepsPrefix(w, body[p..]);
  }

  /** A body is split at the earliest keyword occurrence `p`. */
  lemma DescribeSplit(body: string, w: string, p: nat)
    requires w in Indicators && OccursAt(body, w, p)
    requires forall v, i :: v in Indicators && 0 <= i < p ==> !OccursAt(body, v, i)
    ensures DescribeBody(body).1 == Strip(body[p..]) && w <= DescribeBody(body).1
    ensures var d := Cleanup(Strip(body[..p]));
            (|d| >= MinDescriptionLength ==> DescribeBody(body).0 == d) &&
            (|d| < MinDescriptionLength ==> DescribeBody(body).0 == BeforeFirst(body, '.') + ".")
  {
    EarliestIsSplit(body, w, p);
    DescribeAt(body, p);
    KeywordLeads(body, w, p);
  }

  /** The body is split at the earliest keyword occurrence `p`: the
      prerequisites are the stripped text from `p` on and start with that
      keyword; the description is made from the stripped text before `p`. */
  lemma ParseSplit(dept: string, h: Header, w: string, p: nat)
    requires IsDeptCode(dept) && ParseCourse(dept, h).Some? && h.body.Some?
    requires w in Indicators && OccursAt(Strip(h.body.value), w, p)
    requires forall v, i :: v in Indicators && 0 <= i < p ==> !OccursAt(Strip(h.body.value), v, i)
    ensures var c, body := ParseCourse(dept, h).value, Strip(h.body.value);
            var d := Cleanup(Strip(body[..p]));
            c.prerequisites == Strip(body[p..]) && w <= c.prerequisites
            && (|d| >= MinDescriptionLength ==> c.description == d)
            && (|d| < MinDescriptionLength ==> c.description == BeforeFirst(body, '.') + ".")
  {
    ParseParts(dept, h);
    DescribeSplit(Strip(h.body.value), w, p);
  }

  /** With no keyword in the body, the prerequisites keep their default and
      the description is made from the whole stripped body. */
  lemma ParseNoIndicator(dept: string, h: Header)
    requires IsDeptCode(dept) && ParseCourse(dept, h).Some? && h.body.Some?
    requires forall v, i :: v in Indicators ==> !OccursAt(Strip(h.body.value), v, i)
    ensures var c, body := ParseCourse(dept, h).value, Strip(h.body.value);
            var d := Cleanup(body);
            c.prerequisites == NoPrerequisites
            && (|d| >= MinDescriptionLength ==> c.description == d)
            && (|d| < MinDescriptionLength ==> c.description == BeforeFirst(body, '.') + ".")
  {
    ParseParts(dept, h);
  }

  /** Text without an hours suffix is only stripped by the cleanup. */
  lemma CleanupNoSuffix(d: string)
    requires forall j :: !HoursSuffixAt(d, j)
    ensures Cleanup(d) == Strip(d)
  {
    DropHoursSuffixNone(d);
  }

  /** The cleanup removes one trailing hours suffix with the whitespace
      after it, then strips. */
  lemma CleanupOneSuffix(x: string, t: string)
    requires IsHoursSuffix(t)
    ensures Cleanup(x + t) == Strip(x)
  {
    DropHoursSuffixOne(x, t);
  }

  /** A suffix that ends at its ']' has no whitespace at either end. */
  lemma HoursSuffixTrimmed(t: string)
    requires IsHoursSuffix(t) && t[|t| - 1] == ']'
    ensures t != [] && !IsSpace(t[0]) && !IsSpace(t[|t| - 1])
  {
  }

  /** Stripping keeps a trimmed suffix at the end of the text. */
  lemma StripKeepsHoursSuffix(x: string, t: string)
    requires IsHoursSuffix(t) && t != [] && !IsSpace(t[0]) && !IsSpace(t[|t| - 1])
    ensures var c := Strip(x + t); |c| >= |t| && IsHoursSuffix(c[|c| - |t|..])
  {
    StripEndsWith(x, t);
  }

  /** A description that ends in an hours block such as "[3-0-0]" loses
      that block: it survives the strip the description had already
      undergone, so the cleanup removes it and strips what precedes it. */
  lemma CleanupStrippedSuffix(x: string, t: string)
    requires IsHoursSuffix(t) && t[|t| - 1] == ']'
    ensures var c := Strip(x + t);
            |c| >= |t| && Cleanup(c) == Strip(c[..|c| - |t|])
  {
    HoursSuffixTrimmed(t);
    StripKeepsHoursSuffix(x, t);
    var c := Strip(x + t);
    var front, back := c[..|c| - |t|], c[|c| - |t|..];
    assert c == front + back;
    CleanupOneSuffix(front, back);
  }

  /** When the cleaned text is too short, the description is the body up
      to (not including) its first '.', followed by '.'. */
  lemma FinishFallback(d: string, body: string, i: nat)
    requires |d| < MinDescriptionLength
    requires i <= |body| && '.' !in body[..i] && (i == |body| || body[i] == '.')
    ensures Finish(d, body) == body[..i] + "."
  {
    var r := BeforeFirst(body, '.');
  }

  /** Under a short cleaned text and an indicator, the description is the
      whole body (it holds no '.') followed by '.'. */
  lemma FallbackWholeBody(body: string, p: nat)
    requires '.' !in body && EarliestAmong(body, Indicators) == p
    requires |Cleanup(Strip(body[..p]))| < MinDescriptionLength
    ensures DescribeBody(body).0 == body + "."
  {
    var d := Cleanup(Strip(body[..p]));
    DescribeAt(body, p);
    FinishFallback(d, body, |body|);
    assert body[..|body|] == body;
  }

  /** The stripped text from any offset on occurs in the body followed
      by '.'. */
  lemma StrippedTailOccurs(body: string, p: nat)
    requires p <= |body|
    ensures exists i :: OccursAt(body + ".", Strip(body[p..]), i)
  {
    var tail := body[p..];
    var pre := Strip(tail);
    var a := SkipSpace(tail, 0);
    assert pre == tail[a..a + |pre|];
    assert tail <= (body + ".")[p..];
    OccursWithin(body + ".", p, tail, a, pre);
  }

  /** A short description falls back to the first sentence of the whole
      body, which for a body without '.' repeats the prerequisites. */
  lemma FallbackRepeatsPrerequisites(body: string, p: nat)
    requires '.' !in body && EarliestAmong(body, Indicators) == p
    requires |Cleanup(Strip(body[..p]))| < MinDescriptionLength
    ensures exists i :: OccursAt(DescribeBody(body).0, DescribeBody(body).1, i)
  {
    FallbackWholeBody(body, p);
    DescribeAt(body, p);
    StrippedTailOccurs(body, p);
  }
}
