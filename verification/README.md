# UBC course scraper: the extraction core

This project models the text-extraction core of `UBCCourseScraper` in
`backend/course_scraper.py` and proves properties of that model. The core
has three parts:

- `parse_course_from_header` turns one course header of a department's
  calendar page into a course record, or nothing. A record has seven
  fields: code, title, department, url, description, credits and
  prerequisites.
- `scrape_department_courses` runs that parser over every header of one
  department's page and keeps the records it produces, in header order.
- `scrape_all_courses` runs the department pipeline for each department
  in turn. It cuts each department's list to `limit_per_dept` and extends
  the scraper's `courses_data` with it.

The model is split into five modules:

- `Wrappers` (wrappers.dfy) holds `Option` and the filter that keeps the
  present values.
- `Text` (text.dfy) models the Python `str` builtins the source calls:
  `strip` (with Python's `isspace` set of whitespace), `find`, `upper`,
  `lower`, `split('.')[0]` and `replace`.
- `Patterns` (patterns.dfy) models the three regular expressions. Each is
  a scan over the text, proved against an explicit match predicate with
  `re.search`'s leftmost-match and greedy-repetition semantics.
- `FieldExtractor` (field_extractor.dfy) models the parser as pure
  functions. The keyword loop that finds the split offset is a method
  proved equal to its specification function.
- `CourseScraper` (scraper.dfy) holds the department pipeline, the batch
  specification and the class `UbcCourseScraper`. The class has the
  `coursesData` field, which `ScrapeAll` extends in place.

A header is modelled by what the parser reads from it:

- its text;
- the text of its `<strong>` element, if any;
- the text of the paragraph found after it, if any.

A fetch is modelled by a `Site`, which maps each fetchable page URL to the
page's headers in document order. A URL that is not in the map is a failed
fetch, and that department contributes no records.

## Behaviour worth knowing

The model follows what the code does in each of these cases.

- **Course code.** The code keeps the space before the number. The
  pattern matches `CPSC_V 110`, and deleting `_V` leaves `CPSC 110`, not
  `CPSC110` (`ParseCode`).
- **Prerequisites are not cleaned.** The `[h-h-h]` hours block is removed
  only from the description. When the block follows a prerequisite
  keyword, it stays in `prerequisites` (`ParseSplit` shows that the
  prerequisites are only stripped).
- **Short-description fallback.** The fallback is `body.split('.')[0] +
  '.'`. Without a period this is the whole stripped body plus `.`. The
  "first 100 characters" branch cannot be reached, because `split` never
  returns an empty list (`FinishFallback`). With a keyword present, that
  fallback repeats the prerequisite text inside the description
  (`FallbackRepeatsPrerequisites`).
- **Limit.** The limit is applied only when it is truthy and exceeded.
  A limit of `0` means no limit (`BatchZeroLimit`). A negative limit is a
  Python slice from the end, so it keeps all but the last `-n` records
  (`LimitPrefix`).
- **Accumulation.** `courses_data` is never reset. A second run appends
  after the records of the first (`ScrapeAll`).

## Model

| member | source | states |
|---|---|---|
| Text.Strip | backend/course_scraper.py:78 | the result is empty or starts and ends with a non-whitespace character |
| Text.StripSpec | backend/course_scraper.py:90 | `strip()` removes only whitespace: the input is leading whitespace, the result, then trailing whitespace |
| Text.StripTrimmed | backend/course_scraper.py:108-109 | text with no whitespace at either end is left unchanged |
| Text.StripEndsWith | backend/course_scraper.py:113 | stripping keeps a trimmed tail at the end of the text |
| Text.Find | backend/course_scraper.py:102 | `find` returns -1 exactly when the keyword does not occur; otherwise it returns an occurrence with none before it |
| Text.BeforeFirst | backend/course_scraper.py:116 | `split('.')[0]` is a prefix without '.', and is followed by '.' or ends the text |
| Text.Upper | backend/course_scraper.py:66 | `upper()` keeps the length, leaves no lowercase ASCII letter, maps each one to its capital and keeps every other character |
| Text.Lower | backend/course_scraper.py:123 | `lower()` keeps the length, leaves no uppercase ASCII letter, maps each one to its small letter and keeps every other character |
| Text.DeleteAll | backend/course_scraper.py:72 | `replace(pat, '')` never lengthens the text and leaves text without `pat`'s first character unchanged; DeleteAllSkips and DeleteSeparator give its value on codes |
| Text.DeleteAllSkips | backend/course_scraper.py:72 | `replace` leaves text in which no occurrence can start unchanged |
| Patterns.DigitRun | backend/course_scraper.py:66 | greedy `\d+` consumes digits only and stops at a non-digit or the end |
| Patterns.DigitRunUnique | backend/course_scraper.py:74 | a digit run followed by a non-digit is the greedy run |
| Patterns.GreedyNumber | backend/course_scraper.py:66 | after the digits, `\d+[A-Z]?` takes a following capital letter and matches no further |
| Patterns.CodeEnd | backend/course_scraper.py:66-67 | the match at a given start is a code match and the longest one there |
| Patterns.SearchCode | backend/course_scraper.py:66-69 | None exactly when no code match exists; otherwise the leftmost start with the longest match there |
| Patterns.CreditsMatchUnique | backend/course_scraper.py:74 | the credits pattern matches in one way only at a given offset |
| Patterns.SearchCreditsFrom | backend/course_scraper.py:74 | finds the leftmost `(digits)` group at or after the offset, or reports that none exists |
| Patterns.Credits | backend/course_scraper.py:74-75 | credits are always a non-empty string of digits |
| Patterns.CreditsFirst | backend/course_scraper.py:74-75 | credits are the digits of the leftmost `(digits)` group |
| Patterns.CreditsDefault | backend/course_scraper.py:75 | without a `(digits)` group, credits are "3" |
| Patterns.HoursSuffixOneBracket | backend/course_scraper.py:113 | an hours suffix holds no '[' after its first character |
| Patterns.SearchHoursFrom | backend/course_scraper.py:113 | finds the leftmost offset from which the rest of the text is an hours suffix |
| Patterns.DropHoursSuffix | backend/course_scraper.py:113 | `re.sub` of the hours pattern leaves a prefix of the text |
| Patterns.DropHoursSuffixNone | backend/course_scraper.py:113 | text without an hours suffix is unchanged |
| Patterns.DropHoursSuffixOne | backend/course_scraper.py:113 | exactly one trailing suffix is removed and everything before it stays |
| FieldExtractor.EarliestAmong | backend/course_scraper.py:100-105 | -1 exactly when no keyword occurs; otherwise some keyword occurs at the result and none occurs earlier |
| FieldExtractor.EarliestIgnoresOrder | backend/course_scraper.py:92-105 | the split offset does not depend on the order the keywords are listed in |
| FieldExtractor.EarliestStep | backend/course_scraper.py:101-105 | one more keyword updates the offset as the loop body does |
| FieldExtractor.PrereqStart | backend/course_scraper.py:100-105 | the loop computes the earliest keyword offset |
| FieldExtractor.EarliestIsSplit | backend/course_scraper.py:100-105 | an occurrence with no keyword before it is the split offset |
| FieldExtractor.Cleanup | backend/course_scraper.py:113 | the cleaned description is no longer than the text and has no whitespace at either end; CleanupNoSuffix, CleanupOneSuffix and CleanupStrippedSuffix give its value |
| FieldExtractor.Finish | backend/course_scraper.py:115-117 | a cleaned description of 20 or more characters is kept as it is; a shorter one is replaced by the body up to its first '.' followed by '.'; either way the result is long or ends with '.' |
| FieldExtractor.FinishFallback | backend/course_scraper.py:115-117 | a short description becomes the body up to its first '.' followed by '.' |
| FieldExtractor.DepartmentUrl | backend/course_scraper.py:123 | the page URL is the subject path, then the department with each letter in lower case, then 'v' (the same URL is built at line 26) |
| FieldExtractor.Title | backend/course_scraper.py:77-78 | no `<strong>` gives the title placeholder; otherwise the title has no whitespace at either end (ParseTitle: it is the stripped text) |
| FieldExtractor.DescribeBody | backend/course_scraper.py:100-117 | the description is long or ends with '.'; with no keyword the prerequisites stay "None listed"; DescribeAt, DescribeSplit and ParseNoIndicator give both values |
| FieldExtractor.Describe | backend/course_scraper.py:80-90 | with no paragraph both text placeholders are kept; otherwise the stripped paragraph is split as DescribeBody states; the description is long or ends with '.' |
| FieldExtractor.ParseCourse | backend/course_scraper.py:119-127 | a record names the department and its page URL |
| FieldExtractor.ParseFindsCode | backend/course_scraper.py:66-69 | the parser returns None exactly when the header text holds no code of the department |
| FieldExtractor.ParseCodeRaw | backend/course_scraper.py:71-72 | the code is the text of the match with `_V` deleted |
| FieldExtractor.DeleteSeparator | backend/course_scraper.py:72 | deleting `_V` from `DEPT_V num` gives `DEPT num` |
| FieldExtractor.MatchedCode | backend/course_scraper.py:71-72 | the matched text with `_V` deleted is the department, a space and the number |
| FieldExtractor.ParseCode | backend/course_scraper.py:66-72 | the code is the leftmost-longest match with `_V` deleted, keeping the space |
| FieldExtractor.ParsePlaceholders | backend/course_scraper.py:74-89 | credits are digits; a missing `<strong>` gives the title placeholder; a missing paragraph gives both text placeholders |
| FieldExtractor.ParseTitle | backend/course_scraper.py:77-78 | the title is the stripped `<strong>` text |
| FieldExtractor.ParseCredits | backend/course_scraper.py:74-75 | credits are the digits of the leftmost `(digits)` group |
| FieldExtractor.ParseCreditsDefault | backend/course_scraper.py:75 | without a `(digits)` group, credits are "3" |
| FieldExtractor.ParseParts | backend/course_scraper.py:86-117 | description and prerequisites are those of the header's paragraph |
| FieldExtractor.DescriptionLongOrSentence | backend/course_scraper.py:86-117 | every description is at least 20 characters long or ends with '.' |
| FieldExtractor.IndicatorTrimmed | backend/course_scraper.py:92-98 | every keyword starts and ends with a non-space character |
| FieldExtractor.DescribeAt | backend/course_scraper.py:107-117 | at split offset p, prerequisites are `strip(body[p:])` and the description comes from `strip(body[:p])` |
| FieldExtractor.KeywordLeads | backend/course_scraper.py:109 | the stripped text from a keyword occurrence starts with that keyword |
| FieldExtractor.DescribeSplit | backend/course_scraper.py:100-117 | the body splits at the earliest keyword: the prerequisites are the stripped text from it and start with it; the description is the cleaned text before it when that has 20 or more characters, else the first-sentence fallback |
| FieldExtractor.ParseSplit | backend/course_scraper.py:89-117 | for a parsed record, the split is at the earliest keyword of the stripped body: the prerequisites start with that keyword, and the description is the cleaned text before it, or the first-sentence fallback when that is shorter than 20 characters |
| FieldExtractor.ParseNoIndicator | backend/course_scraper.py:107-117 | without a keyword, prerequisites stay "None listed" and the description is the cleaned whole body, or the first-sentence fallback when that is shorter than 20 characters |
| FieldExtractor.CleanupNoSuffix | backend/course_scraper.py:113 | the cleanup only strips text without an hours suffix |
| FieldExtractor.CleanupOneSuffix | backend/course_scraper.py:113 | the cleanup removes one trailing hours suffix, then strips |
| FieldExtractor.HoursSuffixTrimmed | backend/course_scraper.py:113 | a suffix ending at ']' has no whitespace at either end |
| FieldExtractor.StripKeepsHoursSuffix | backend/course_scraper.py:108-113 | the strip before the cleanup keeps a trailing hours block at the end |
| FieldExtractor.CleanupStrippedSuffix | backend/course_scraper.py:108-113 | a stripped description that ends in an hours block loses that block and is stripped again |
| FieldExtractor.FallbackWholeBody | backend/course_scraper.py:115-117 | with no '.' in the body, a short description becomes the whole body plus '.' |
| FieldExtractor.StrippedTailOccurs | backend/course_scraper.py:109 | the prerequisites text occurs in the body followed by '.' |
| FieldExtractor.FallbackRepeatsPrerequisites | backend/course_scraper.py:107-117 | with no '.' and a short description, the description contains the prerequisites |
| CourseScraper.ParseAll | backend/course_scraper.py:37-48 | the pipeline yields at most one record per header |
| CourseScraper.ParseAllStep | backend/course_scraper.py:39-43 | one more header appends its record, if it has one |
| CourseScraper.ParseAllIsSomes | backend/course_scraper.py:39-43 | the pipeline keeps exactly the records the parser returns, in order |
| CourseScraper.ParseAllKeeps | backend/course_scraper.py:37-51 | record k is the parse of the k-th header that yields a record, and no header that yields a record is skipped |
| CourseScraper.ParseAllDepartment | backend/course_scraper.py:119-123 | every record of a department's pipeline names that department and its page |
| CourseScraper.DepartmentCourses | backend/course_scraper.py:19-58 | a page that cannot be fetched gives no records; a fetched page gives the pipeline's records for its headers, each naming the department and its page |
| CourseScraper.PrefixSlice | backend/course_scraper.py:149 | `cs[:n]` is a prefix: the first n for n >= 0, all but the last -n for n < 0 |
| CourseScraper.Limit | backend/course_scraper.py:148-149 | the cut keeps a prefix of the department's list (LimitPrefix gives its length) |
| CourseScraper.LimitPrefix | backend/course_scraper.py:148-149 | the cut keeps a prefix; no limit or a zero limit keeps all records; otherwise the length is as Python slicing gives |
| CourseScraper.Departments | backend/course_scraper.py:138-139 | the given departments, or CPSC, MATH and ENGL |
| CourseScraper.Fetched | backend/course_scraper.py:143-146 | one record list per department, in department order, and every record in the i-th list names the i-th department |
| CourseScraper.FetchedAppend | backend/course_scraper.py:143-146 | fetching two runs of departments gives the two results in turn |
| CourseScraper.Batch | backend/course_scraper.py:143-152 | the records a run appends are never more than all the departments' records together; BatchSnoc, BatchAppend and BatchNoLimit give its contents |
| CourseScraper.BatchAppend | backend/course_scraper.py:143-152 | the batch over two runs is the first batch followed by the second |
| CourseScraper.BatchSnoc | backend/course_scraper.py:148-152 | one more department appends its cut list |
| CourseScraper.BatchPrefixStep | backend/course_scraper.py:146-152 | one more department's cut list extends what was collected before |
| CourseScraper.BatchZeroLimit | backend/course_scraper.py:148 | a limit of 0 behaves as no limit |
| CourseScraper.BatchNoLimit | backend/course_scraper.py:148-152 | without a limit the batch is every department's records, one list after the other, in order |
| CourseScraper.BatchBound | backend/course_scraper.py:148-149 | with a positive limit n, each department contributes at most n records |
| CourseScraper.BatchFrom | backend/course_scraper.py:146-152 | every record of a batch comes from one department's list |
| CourseScraper.BatchDepartments | backend/course_scraper.py:143-152 | every record of a run belongs to one of the departments scraped |
| CourseScraper.BatchSkipsEmpty | backend/course_scraper.py:152 | an empty department list adds nothing |
| CourseScraper.FailedDepartmentAddsNothing | backend/course_scraper.py:53-58 | a department whose page cannot be fetched leaves the run's result unchanged |
| CourseScraper.UbcCourseScraper.constructor | backend/course_scraper.py:17 | a new scraper starts with no records |
| CourseScraper.UbcCourseScraper.ScrapeDepartment | backend/course_scraper.py:19-58 | the loop returns the department pipeline's records, in header order |
| CourseScraper.UbcCourseScraper.ScrapeAll | backend/course_scraper.py:134-157 | `coursesData` becomes its old value followed by each department's cut list in department order, and is returned |

## Left out

- HTTP fetching (`requests.get` and `raise_for_status`) is not modelled. A fetch is a lookup in the `Site` map, and a missing URL stands for any failed request.
- BeautifulSoup parsing and tree navigation (`find_all`, `find`, `find_next_sibling`, `parent.find_next`, `get_text`) are not modelled. A header arrives already reduced to its text, its `<strong>` text and its paragraph text.
- Exceptions inside `parse_course_from_header` and the per-header `except` are not modelled. On the inputs the model admits, the parser never raises, so only its `None` result drops a header.
- `time.sleep(2)` pacing and all `print` logging are left out; neither affects the records.
- `save_to_file`, `load_from_file` and the `__main__` demonstration are not modelled: they are file and console I/O. `backend/app.py` is not part of this model; it holds only web routing.
- FieldExtractor.ParseCourse: the department must be ASCII letters (`IsDeptCode`). The source splices it into the pattern unescaped, so other characters would change the pattern itself.
- Patterns.SearchCode, Patterns.SearchCreditsFrom, Patterns.Credits and Patterns.IsHoursSuffix: `\d` matches ASCII digits only, in the code, credits and hours patterns alike. Python's `str` patterns also match other Unicode decimal digits.
- Text.Upper and Text.Lower: they change ASCII letters only. Python also maps other Unicode letters.
- CourseScraper.UbcCourseScraper.ScrapeAll: `coursesData` is a value sequence. Aliasing of the returned list with the scraper's own list is not modelled.
