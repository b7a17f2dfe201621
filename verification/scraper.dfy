/** The department pipeline and the batch driver of the scraper: parse
    every course header of a department's page, keep the records found,
    cut each department's list to a limit and accumulate the lists in
    the scraper's `courses_data`. */
module CourseScraper {
  import opened Wrappers
  import opened FieldExtractor

  /** The calendar as the scraper sees it: for each page URL that can be
      fetched, the course headers on that page in document order. A URL
      that is not in the map is a page whose fetch fails. */
  type Site = map<string, seq<Header>>

  /** The departments scraped when the caller names none. */
  const DefaultDepartments: seq<string> := ["CPSC", "MATH", "ENGL"]

  /** The records parsed from `hs`, in header order; a header that holds
      no course code contributes nothing. */
  function ParseAll(dept: string, hs: seq<Header>): (r: seq<Course>)
    requires IsDeptCode(dept)
    ensures |r| <= |hs|
  {
    if hs == [] then []
    else ParseAll(dept, hs[..|hs| - 1]) + OptionToSeq(ParseCourse(dept, hs[|hs| - 1]))
  }

  /** The pipeline over one more header. */
  lemma ParseAllStep(dept: string, hs: seq<Header>, i: nat)
    requires IsDeptCode(dept) && i < |hs|
    ensures ParseAll(dept, hs[..i + 1]) == ParseAll(dept, hs[..i]) + OptionToSeq(ParseCourse(dept, hs[i]))
  {
    assert hs[..i + 1][..i] == hs[..i];
  }

  /** The parse result of every header, in header order. */
  function ParseEach(dept: string, hs: seq<Header>): (r: seq<Option<Course>>)
    requires IsDeptCode(dept)
    ensures |r| == |hs| && forall i :: 0 <= i < |hs| ==> r[i] == ParseCourse(dept, hs[i])
  {
    seq(|hs|, i requires 0 <= i < |hs| => ParseCourse(dept, hs[i]))
  }

  /** The pipeline is the filter that keeps the present parse results. */
  lemma {:induction false} ParseAllIsSomes(dept: string, hs: seq<Header>)
    requires IsDeptCode(dept)
    ensures ParseAll(dept, hs) == Somes(ParseEach(dept, hs))
  {
    if hs != [] {
      var n := |hs| - 1;
      ParseAllIsSomes(dept, hs[..n]);
      assert ParseEach(dept, hs)[..n] == ParseEach(dept, hs[..n]);
    }
  }

  /** Every record of a department's pipeline names that department and
      its page. */
  lemma {:induction false} ParseAllDepartment(dept: string, hs: seq<Header>)
    requires IsDeptCode(dept)
    ensures forall c :: c in ParseAll(dept, hs) ==> c.department == dept && c.url == DepartmentUrl(dept)
  {
    if hs != [] {
      ParseAllDepartment(dept, hs[..|hs| - 1]);
    }
  }

  /** The pipeline keeps exactly the headers that parse to a record, in
      header order: `idx` lists them ascending, and the k-th record is
      the parse of the header at `idx[k]`. */
  lemma ParseAllKeeps(dept: string, hs: seq<Header>)
    requires IsDeptCode(dept)
    ensures var r, idx := ParseAll(dept, hs), SomeIndices(ParseEach(dept, hs));
            |r| == |idx| &&
            (forall j, k :: 0 <= j < k < |idx| ==> idx[j] < idx[k]) &&
            (forall i :: 0 <= i < |hs| ==> (i in idx <==> ParseCourse(dept, hs[i]).Some?)) &&
            (forall k :: 0 <= k < |r| ==> idx[k] < |hs| && r[k] == ParseCourse(dept, hs[idx[k]]).value)
  {
    ParseAllIsSomes(dept, hs);
    SomesKeeps(ParseEach(dept, hs));
  }

  /** What the department pipeline returns: the parsed records of the
      department's page, or nothing when the page cannot be fetched. */
  function DepartmentCourses(dept: string, site: Site): (r: seq<Course>)
    requires IsDeptCode(dept)
    ensures DepartmentUrl(dept) !in site ==> r == []
    ensures DepartmentUrl(dept) in site ==> r == ParseAll(dept, site[DepartmentUrl(dept)])
    ensures forall c :: c in r ==> c.department == dept && c.url == DepartmentUrl(dept)
  {
    var url := DepartmentUrl(dept);
    if url in site then
      ParseAllDepartment(dept, site[url]);
      ParseAll(dept, site[url])
    else []
  }

  /** `cs[:n]`, with Python's reading of a negative `n` as "all but the
      last -n". */
  function PrefixSlice(cs: seq<Course>, n: int): (r: seq<Course>)
    ensures r <= cs
    ensures n >= 0 ==> |r| == if n < |cs| then n else |cs|
    ensures n < 0 ==> |r| == if |cs| + n > 0 then |cs| + n else 0
  {
    if n >= 0 then
      (if n < |cs| then cs[..n] else cs)
    else
      (if |cs| + n > 0 then cs[..|cs| + n] else [])
  }

  /** The per-department cut: applied only when the limit is given,
      non-zero and exceeded. */
  function Limit(cs: seq<Course>, limit: Option<int>): (r: seq<Course>)
    ensures r <= cs
  {
    if limit.Some? && limit.value != 0 && |cs| > limit.value then PrefixSlice(cs, limit.value)
    else cs
  }

  /** The cut keeps a prefix: all of the list without a limit or with
      limit zero (zero is falsy), the first `n` for a positive `n`, and all
      but the last `-n` for a negative `n`. */
  lemma LimitPrefix(cs: seq<Course>, limit: Option<int>)
    ensures var r := Limit(cs, limit);
            r <= cs &&
            (limit.None? || limit.value == 0 ==> r == cs) &&
            (limit.Some? && limit.value > 0 ==>
               |r| == if limit.value < |cs| then limit.value else |cs|) &&
            (limit.Some? && limit.value < 0 ==>
               |r| == if |cs| + limit.value > 0 then |cs| + limit.value else 0)
  {
  }

  /** The departments to scrape: the given list, or the defaults. */
  function Departments(departments: Option<seq<string>>): (r: seq<string>)
    ensures departments.Some? ==> r == departments.value
    ensures departments.None? ==> r == ["CPSC", "MATH", "ENGL"]
  {
    match departments
    case None => DefaultDepartments
    case Some(ds) => ds
  }

  predicate AllDeptCodes(ds: seq<string>) {
    forall i :: 0 <= i < |ds| ==> IsDeptCode(ds[i])
  }

  lemma AllDeptCodesAppend(a: seq<string>, b: seq<string>)
    requires AllDeptCodes(a) && AllDeptCodes(b)
    ensures AllDeptCodes(a + b)
  {
    assert forall i :: 0 <= i < |a + b| ==> (a + b)[i] == if i < |a| then a[i] else b[i - |a|];
  }

  /** What the department pipeline returns for each department, in
      department order. */
  function Fetched(depts: seq<string>, site: Site): (r: seq<seq<Course>>)
    requires AllDeptCodes(depts)
    ensures |r| == |depts|
    ensures forall i, c :: 0 <= i < |r| && c in r[i] ==> c.department == depts[i]
  {
    seq(|depts|, i requires 0 <= i < |depts| => DepartmentCourses(depts[i], site))
  }

  /** Fetching two runs of departments one after the other. */
  lemma FetchedAppend(a: seq<string>, b: seq<string>, site: Site)
    requires AllDeptCodes(a) && AllDeptCodes(b)
    ensures AllDeptCodes(a + b)
    ensures Fetched(a + b, site) == Fetched(a, site) + Fetched(b, site)
  {
    AllDeptCodesAppend(a, b);
    var whole, fa, fb := Fetched(a + b, site), Fetched(a, site), Fetched(b, site);
    forall i | 0 <= i < |a + b|
      ensures whole[i] == (fa + fb)[i]
    {
      ConcatIndex(a, b, i);
      ConcatIndex(fa, fb, i);
    }
  }

  /** The records one batch run appends: each department's list cut to
      the limit, in department order. */
  function Batch(lists: seq<seq<Course>>, limit: Option<int>): (r: seq<Course>)
    ensures |r| <= Total(lists)
  {
    if lists == [] then []
    else
      var n := |lists| - 1;
      Batch(lists[..n], limit) + Limit(lists[n], limit)
  }

  /** The number of records in all the lists together. */
  function Total(lists: seq<seq<Course>>): nat {
    if lists == [] then 0 else Total(lists[..|lists| - 1]) + |lists[|lists| - 1]|
  }

  /** A batch over two runs of lists is the two batches in turn. */
  lemma {:induction false} BatchAppend(a: seq<seq<Course>>, b: seq<seq<Course>>, limit: Option<int>)
    ensures Batch(a + b, limit) == Batch(a, limit) + Batch(b, limit)
  {
    if b == [] {
      assert a + b == a;
    } else {
      var c, last := b[..|b| - 1], b[|b| - 1];
      assert b == c + [last];
      assert a + b == (a + c) + [last];
      BatchAppend(a, c, limit);
      BatchSnoc(a + c, last, limit);
      BatchSnoc(c, last, limit);
      AppendAssoc(Batch(a, limit), Batch(c, limit), Limit(last, limit));
    }
  }

  /** A limit of zero is no limit at all. */
  lemma {:induction false} BatchZeroLimit(lists: seq<seq<Course>>)
    ensures Batch(lists, Some(0)) == Batch(lists, None)
  {
    if lists != [] {
      BatchZeroLimit(lists[..|lists| - 1]);
    }
  }

  /** All the lists, one after the other. */
  function Concat(lists: seq<seq<Course>>): (r: seq<Course>)
    ensures |r| == Total(lists)
  {
    if lists == [] then [] else Concat(lists[..|lists| - 1]) + lists[|lists| - 1]
  }

  /** Without a limit the batch is all the records, in order. */
  lemma {:induction false} BatchNoLimit(lists: seq<seq<Course>>)
    ensures Batch(lists, None) == Concat(lists)
  {
    if lists != [] {
      BatchNoLimit(lists[..|lists| - 1]);
    }
  }

  lemma MulSucc(n: int, m: int)
    ensures n * (m + 1) == n * m + n
  {
  }

  /** With a positive limit no department contributes more than the limit. */
  lemma {:induction false} BatchBound(lists: seq<seq<Course>>, n: int)
    requires n > 0
    ensures |Batch(lists, Some(n))| <= n * |lists|
  {
    if lists != [] {
      var m := |lists| - 1;
      BatchBound(lists[..m], n);
      LimitPrefix(lists[m], Some(n));
      MulSucc(n, m);
    }
  }

  /** Every record of a batch comes from one of its lists. */
  lemma {:induction false} BatchFrom(lists: seq<seq<Course>>, limit: Option<int>)
    ensures forall c :: c in Batch(lists, limit) ==> exists i :: 0 <= i < |lists| && c in lists[i]
  {
    if lists != [] {
      var n := |lists| - 1;
      BatchFrom(lists[..n], limit);
      forall c | c in Batch(lists, limit)
        ensures exists i :: 0 <= i < |lists| && c in lists[i]
      {
        if c in Batch(lists[..n], limit) {
          var i :| 0 <= i < n && c in lists[..n][i];
          assert c in lists[i];
        } else {
          assert c in lists[n];
        }
      }
    }
  }

  /** Every record of a batch run belongs to one of its departments. */
  lemma BatchDepartments(depts: seq<string>, limit: Option<int>, site: Site)
    requires AllDeptCodes(depts)
    ensures forall c :: c in Batch(Fetched(depts, site), limit) ==> c.department in depts
  {
    var lists := Fetched(depts, site);
    BatchFrom(lists, limit);
    forall c | c in Batch(lists, limit)
      ensures c.department in depts
    {
      var i :| 0 <= i < |lists| && c in lists[i];
      var url := DepartmentUrl(depts[i]);
      if url in site {
        ParseAllDepartment(depts[i], site[url]);
      }
    }
  }

  /** The batch over one more list. */
  lemma BatchSnoc(lists: seq<seq<Course>>, cs: seq<Course>, limit: Option<int>)
    ensures Batch(lists + [cs], limit) == Batch(lists, limit) + Limit(cs, limit)
  {
    assert (lists + [cs])[..|lists|] == lists;
  }

  /** A batch run after one more list, the list cut as the driver cuts
      it, appended to what was collected before. */
  lemma BatchPrefixStep(base: seq<Course>, lists: seq<seq<Course>>, i: nat, cut: seq<Course>, limit: Option<int>)
    requires i < |lists|
    requires cut == Limit(lists[i], limit)
    ensures base + Batch(lists[..i + 1], limit) == base + Batch(lists[..i], limit) + cut
  {
    BatchSnoc(lists[..i], lists[i], limit);
    assert lists[..i] + [lists[i]] == lists[..i + 1];
    AppendAssoc(base, Batch(lists[..i], limit), cut);
  }

  /** An empty list adds nothing to a batch. */
  lemma BatchSkipsEmpty(a: seq<seq<Course>>, b: seq<seq<Course>>, limit: Option<int>)
    ensures Batch(a + [[]] + b, limit) == Batch(a + b, limit)
  {
    var none: seq<seq<Course>> := [[]];
    BatchSnoc(a, [], limit);
    assert Batch(a + none, limit) == Batch(a, limit);
    BatchAppend(a + none, b, limit);
    BatchAppend(a, b, limit);
  }

  /** A department whose page cannot be fetched adds nothing to a batch run. */
  lemma FailedDepartmentAddsNothing(a: seq<string>, d: string, b: seq<string>, limit: Option<int>, site: Site)
    requires AllDeptCodes(a) && IsDeptCode(d) && AllDeptCodes(b)
    requires DepartmentUrl(d) !in site
    ensures AllDeptCodes(a + [d] + b) && AllDeptCodes(a + b)
    ensures Batch(Fetched(a + [d] + b, site), limit) == Batch(Fetched(a + b, site), limit)
  {
    var fa, fb := Fetched(a, site), Fetched(b, site);
    assert AllDeptCodes([d]);
    assert Fetched(a + [d] + b, site) == fa + [[]] + fb by {
      FetchedAppend(a, [d], site);
      FetchedAppend(a + [d], b, site);
      assert Fetched([d], site) == [[]];
    }
    assert Fetched(a + b, site) == fa + fb by {
      FetchedAppend(a, b, site);
    }
    BatchSkipsEmpty(fa, fb, limit);
  }

  /** The scraper; `coursesData` accumulates across runs. */
  class UbcCourseScraper {
    var coursesData: seq<Course>

    constructor()
      ensures coursesData == []
    {
      coursesData := [];
    }

    /** Fetch a department's page and keep the parsed records in header
        order; a failed fetch gives no records. */
    method ScrapeDepartment(dept: string, site: Site) returns (courses: seq<Course>)
      requires IsDeptCode(dept)
      ensures courses == DepartmentCourses(dept, site)
    {
      var url := DepartmentUrl(dept);
      if url !in site {
        return [];
      }
      var headers := site[url];
      courses := [];
      for i := 0 to |headers|
        invariant courses == ParseAll(dept, headers[..i])
      {
        var info := ParseCourse(dept, headers[i]);
        ParseAllStep(dept, headers, i);
        if info.Some? {
          courses := courses + [info.value];
        }
      }
      assert headers[..|headers|] == headers;
    }

    /** Scrape each department in turn, cut its list to the limit and
        append it to `coursesData`, which is returned. */
    method ScrapeAll(departments: Option<seq<string>>, limit: Option<int>, site: Site)
      returns (result: seq<Course>)
      requires AllDeptCodes(Departments(departments))
      modifies this
      ensures coursesData ==
              old(coursesData) + Batch(Fetched(Departments(departments), site), limit)
      ensures result == coursesData
    {
      var depts := Departments(departments);
      ghost var lists := Fetched(depts, site);
      for i := 0 to |depts|
        invariant coursesData == old(coursesData) + Batch(lists[..i], limit)
      {
        var deptCourses := ScrapeDepartment(depts[i], site);
        if limit.Some? && limit.value != 0 && |deptCourses| > limit.value {
          deptCourses := PrefixSlice(deptCourses, limit.value);
        }
        BatchPrefixStep(old(coursesData), lists, i, deptCourses, limit);
        coursesData := coursesData + deptCourses;
      }
      assert lists[..|depts|] == lists;
      result := coursesData;
    }
  }
}
