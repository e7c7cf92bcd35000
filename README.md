# Student portal core: semester arithmetic and mark summaries

This project models the core of a college student portal: the arithmetic that
works out which semester of a three-year, six-semester course a student is in
from the year of admission and the date, and the per-semester summaries of a
student's internal-assessment marks. Both the marks API and the student details
page build these summaries. It also models the search form's check for a blank
student identifier. Each part comes with proofs of what it promises.

Modules:

- `AcademicCalendar` (`academic_calendar.dfy`) covers the current semester, the
  graduation year, the graduated flag and the academic-year report. The date is
  a parameter, a year and a month from 1 to 12.
- `Marks` (`marks.dfy`) defines the mark row and its best-of-two mark.
- `Sorting` (`sorting.dfy`) is an insertion sort by an integer key. The handlers use
  it where they call Python's `sorted`.
- `Aggregation` (`aggregation.dfy`) holds the specification `Aggregate`: one
  summary per semester present, in ascending order, each built from exactly
  that semester's marks. The loops of the two handlers are methods, and each
  is proved equal to `Aggregate`. A dictionary keyed by semester is modelled
  as a `map` plus the list of its keys.
- `Search` (`search.dfy`) covers the search form: `str.strip()` with Python's
  whitespace set, the error for a blank identifier, and the redirect.

Consequences of the code worth knowing:

- In January to June of the admission year, `years_since_admission` is 0 and
  is not decremented (`models.py:110`), so the semester is 2, not 1
  (`AcademicCalendar.NotMonotoneWithinAdmissionYear`).
- The semester reaches 6 in January of admission year + 3. From that same
  calendar year on, `models.py:129` counts the student as graduated.
- For a date in a year before the admission year, the semester is 0 or
  negative (`AcademicCalendar.BeforeAdmission`).

## Model

| member | source | states |
|---|---|---|
| AcademicCalendar.CurrentSemester | models.py:84-117 | the semester is at most 6 and at least 1 once the admission year is reached; in July to December it is min(2·years + 1, 6); in January to June of a later year it is min(2·years, 6); in January to June of the admission year it is 2; it is 6 exactly from the graduation year on |
| AcademicCalendar.GraduationYear | models.py:119-121 | the graduation year is three years after admission |
| AcademicCalendar.IsGraduated | models.py:123-129 | graduated exactly when three or more calendar years have passed since admission, which is exactly when the current semester is the capped 6 |
| AcademicCalendar.AvailableSemesters | models.py:151 | the list is 1, 2, …, current in order; it has max(current, 0) entries and holds exactly the semesters from 1 to current |
| AcademicCalendar.GetAcademicYearInfo | models.py:131-152 | the report carries the admission and graduation years, the current semester and the total 6; the graduated flag agrees with "current semester is 6"; the available semesters are strictly increasing, hold exactly 1 to current, and number between 1 and 6 once the admission year is reached |
| AcademicCalendar.MonotoneFromAdmission | models.py:84-117 | from July of the admission year on, a later date never gives an earlier semester |
| AcademicCalendar.NotMonotoneWithinAdmissionYear | models.py:106-111 | June of the admission year gives semester 2 and July of it gives semester 1 |
| AcademicCalendar.BeforeAdmission | models.py:92-117 | before the admission year the semester is at most 0, so the returned value is not the 1 to 6 the docstring announces |
| AcademicCalendar.OddHalfParity | models.py:106-107 | in July to December the semester is odd unless capped at 6 |
| AcademicCalendar.EvenHalfParity | models.py:108-111 | in January to June the semester is even |
| Marks.BestOfTwo | models.py:64-66 | the best-of-two mark is at least each internal and equal to one of them |
| Sorting.Insert | routes.py:191 | inserting into a key-ordered list keeps it ordered and adds exactly the one element |
| Sorting.SortBy | routes.py:191 | the result is ordered by key and is a permutation of the input |
| Sorting.SortByStrict | routes.py:228 | when no two elements share a key, the sorted list is strictly increasing by key |
| Aggregation.MarksOf | routes.py:157-172 | every mark of a semester's group has that semester; the group is empty exactly when the semester has no marks |
| Aggregation.MarksOfMultiplicity | routes.py:157-172 | a semester's group holds every row of that semester as often as the input does, and no other row |
| Aggregation.Summarize | routes.py:177-180 | the total is the sum of best-of-two marks; with subjects present, percentage × (50 × subjects) = total × 100; with none, the percentage is 0; the CGPA cut-off × 9.5 equals the percentage |
| Aggregation.AscendingSemesters | routes.py:228 | the semesters present, each once, in strictly increasing order |
| Aggregation.AscendingUnique | routes.py:191 | two strictly increasing lists with the same elements are equal, so the ordered summary list is determined |
| Aggregation.Aggregate | routes.py:174-191 | one summary per semester that has marks and no other, in strictly increasing semester order, each the summary of exactly that semester's marks; no marks give no summaries |
| Aggregation.AggregateUnique | routes.py:174-191 | any list of summaries in increasing semester order that covers exactly the semesters present, each built from its own semester's marks, is `Aggregate` |
| Aggregation.TotalBestPermutation | routes.py:177 | the total of best-of-two marks does not depend on the order of the subjects |
| Aggregation.SummaryOrderIndependent | routes.py:174-180 | one semester's total, percentage and CGPA cut-off do not depend on the order of the mark rows |
| Aggregation.AggregateOrderIndependent | routes.py:157-191 | the same rows in any order give the same semesters in the same order with the same totals, percentages and cut-offs, and the same subjects up to order |
| Aggregation.AggregatePartitionsMarks | routes.py:157-191 | every mark row lands in exactly one semester's summary: the summaries' subjects are, as a multiset, the input rows |
| Aggregation.GroupBySemester | routes.py:157-172 | the dictionary's keys are exactly the semesters present, each mapped to its marks in input order; the key list holds each key once |
| Aggregation.SortedSummaries | routes.py:174-191 | summaries of the dictionary's semesters, in dictionary order and then sorted by semester, are `Aggregate` |
| Aggregation.SummarizeGroups | routes.py:228-241 | each listed semester, in the listed order, gives the summary of its group |
| Aggregation.StudentMarksSummaries | routes.py:157-191 | the marks API's result is `Aggregate` of the marks |
| Aggregation.StudentDetailsSemesterData | routes.py:220-241 | the details page's semester data is `Aggregate` of the marks |
| Search.StripStart | routes.py:264 | the result is a suffix of the input with only whitespace removed, and it does not start with whitespace |
| Search.StripEnd | routes.py:264 | the result is a prefix of the input with only whitespace removed, and it does not end with whitespace |
| Search.Strip | routes.py:264 | the result is a contiguous part of the input with only whitespace cut around it; it neither starts nor ends with whitespace; it is empty exactly when the input is all whitespace |
| Search.StripIdempotent | routes.py:264-271 | stripping the stripped identifier changes nothing |
| Search.SearchStudent | routes.py:264-273 | a blank identifier gets the error "Please enter a student ID"; any other gets a 302 redirect to "/student/" followed by the stripped identifier |

## Left out

- HTTP, templates, the database queries and the lookup of a student by
  registration number, UMIS id or EMIS id: the handlers are modelled from the
  list of mark rows they fetch onwards. A missing student (404 or "Student not
  found") is not modelled.
- auth.py, main.py, schemas.py and setup_database.py are not part of this model.
  They cover login, application wiring, response schemas and seeding.
- `datetime.now()`: the date is always a parameter, so the default-argument
  path is not modelled.
- Floating point: marks, totals, percentages and cut-offs are exact reals,
  with no rounding error.
- Aggregation.StudentDetailsSemesterData: does not model `round(..., 2)` on the
  percentage and cut-off of the details page. The result carries the unrounded
  values.
- Aggregation.GroupBySemester: does not state that the key list is in order of
  first appearance, as a Python dictionary's is. Both handlers sort the keys,
  so the result does not depend on that order.
- Nothing in the code checks a mark's semester against `available_semesters`,
  so no write-time check is modelled.
- Search.SearchStudent: the error response re-renders the dashboard template.
  It is modelled only as its message.
