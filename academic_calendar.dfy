/**
 * Semester arithmetic of the student portal: which semester a student is in,
 * given the year of admission and the current calendar date, when the
 * three-year course ends, and which semesters are open so far.
 *
 * The calendar year is split into an odd half (July to December) and an even
 * half (January to June); an academic year runs from July of one year to June
 * of the next.  The date is an explicit parameter instead of the wall clock.
 */
module AcademicCalendar {

  /** Semesters in the course; the computed semester is capped here. */
  const TotalSemesters: int := 6

  /** Length of the course in calendar years. */
  const CourseYears: int := 3

  /** First month of the odd (July to December) half of the year. */
  const FirstOddMonth: int := 7

  type Month = m: int | 1 <= m <= 12 witness 1

  /** The part of a calendar date that the semester arithmetic reads. */
  datatype Date = Date(year: int, month: Month)

  function Min(a: int, b: int): int {
    if a < b then a else b
  }

  /** True when `a` is the same month as `b` or an earlier one. */
  predicate NotAfter(a: Date, b: Date) {
    a.year < b.year || (a.year == b.year && a.month <= b.month)
  }

  /**
   * The semester a student admitted in `admissionYear` is in on `today`.
   * Elapsed years count down by one in the even half once a year has
   * passed; the even half of the admission year itself therefore gives 2.
   */
  function CurrentSemester(admissionYear: int, today: Date): (semester: int)
    ensures semester <= TotalSemesters
    ensures today.year >= admissionYear ==> semester >= 1
    ensures today.month >= FirstOddMonth ==>
              semester == Min(2 * (today.year - admissionYear) + 1, TotalSemesters)
    ensures today.month < FirstOddMonth && today.year > admissionYear ==>
              semester == Min(2 * (today.year - admissionYear), TotalSemesters)
    ensures today.month < FirstOddMonth && today.year == admissionYear ==> semester == 2
    ensures semester == TotalSemesters <==> today.year >= GraduationYear(admissionYear)
  {
    var yearsSinceAdmission := today.year - admissionYear;
    var semesterInYear := if today.month >= FirstOddMonth then 1 else 2;
    var yearsCompleted :=
      if today.month < FirstOddMonth && yearsSinceAdmission > 0
      then yearsSinceAdmission - 1
      else yearsSinceAdmission;
    Min(yearsCompleted * 2 + semesterInYear, TotalSemesters)
  }

  /** Calendar year in which a student admitted in `admissionYear` graduates. */
  function GraduationYear(admissionYear: int): (year: int)
    ensures year - admissionYear == CourseYears
  {
    admissionYear + CourseYears
  }

  /**
   * Whether the student has graduated on `today`: from January of the
   * graduation year on, whatever the month.
   */
  function IsGraduated(admissionYear: int, today: Date): (graduated: bool)
    ensures graduated <==> today.year - admissionYear >= CourseYears
    ensures graduated <==> CurrentSemester(admissionYear, today) == TotalSemesters
  {
    today.year >= GraduationYear(admissionYear)
  }

  /** The semesters 1, 2, ..., `current` in ascending order (none when `current` < 1). */
  function AvailableSemesters(current: int): (semesters: seq<int>)
    ensures |semesters| == if current > 0 then current else 0
    ensures forall i :: 0 <= i < |semesters| ==> semesters[i] == i + 1
    ensures forall s :: s in semesters <==> 1 <= s <= current
    decreases current
  {
    if current <= 0 then [] else AvailableSemesters(current - 1) + [current]
  }

  /** Everything the portal reports about a student's progress through the course. */
  datatype AcademicYearInfo = AcademicYearInfo(
    admissionYear: int,
    graduationYear: int,
    currentSemester: int,
    isGraduated: bool,
    totalSemesters: int,
    availableSemesters: seq<int>)

  function GetAcademicYearInfo(admissionYear: int, today: Date): (info: AcademicYearInfo)
    ensures info.admissionYear == admissionYear
    ensures info.graduationYear == admissionYear + CourseYears
    ensures info.currentSemester == CurrentSemester(admissionYear, today)
    ensures info.totalSemesters == TotalSemesters
    ensures info.isGraduated <==> info.currentSemester == info.totalSemesters
    ensures forall s :: s in info.availableSemesters <==> 1 <= s <= info.currentSemester
    ensures forall i, j :: 0 <= i < j < |info.availableSemesters| ==>
              info.availableSemesters[i] < info.availableSemesters[j]
    ensures today.year >= admissionYear ==>
              1 <= |info.availableSemesters| == info.currentSemester <= TotalSemesters
  {
    var current := CurrentSemester(admissionYear, today);
    var available := AvailableSemesters(current);
    AcademicYearInfo(
      admissionYear,
      GraduationYear(admissionYear),
      current,
      IsGraduated(admissionYear, today),
      TotalSemesters,
      available)
  }

  /**
   * From July of the admission year on, the semester never goes down as the
   * date advances.
   */
  lemma {:induction false} MonotoneFromAdmission(admissionYear: int, earlier: Date, later: Date)
    requires NotAfter(Date(admissionYear, FirstOddMonth), earlier)
    requires NotAfter(earlier, later)
    ensures CurrentSemester(admissionYear, earlier) <= CurrentSemester(admissionYear, later)
  {
    if later.year > earlier.year && later.month < FirstOddMonth {
      assert later.year - 1 >= earlier.year;
    }
  }

  /**
   * Within the admission year the semester goes down: 2 in January to June,
   * then 1 in July to December.
   */
  lemma NotMonotoneWithinAdmissionYear(admissionYear: int)
    ensures CurrentSemester(admissionYear, Date(admissionYear, 6)) == 2
    ensures CurrentSemester(admissionYear, Date(admissionYear, 7)) == 1
  {
  }

  /**
   * In a year before the admission year the semester is 0 or less, outside
   * the 1 to 6 the semester is meant to range over: admission in 2024 and
   * August 2023 give -1.
   */
  lemma BeforeAdmission(admissionYear: int, today: Date)
    requires today.year < admissionYear
    ensures CurrentSemester(admissionYear, today) <= 0
    ensures CurrentSemester(admissionYear, Date(admissionYear - 1, FirstOddMonth)) == -1
  {
  }

  /** In the odd half the semester is odd unless it is the capped 6. */
  lemma OddHalfParity(admissionYear: int, today: Date)
    requires today.month >= FirstOddMonth
    ensures var s := CurrentSemester(admissionYear, today); s % 2 == 1 || s == TotalSemesters
  {
  }

  /** In the even half the semester is always even. */
  lemma EvenHalfParity(admissionYear: int, today: Date)
    requires today.month < FirstOddMonth
    ensures CurrentSemester(admissionYear, today) % 2 == 0
  {
  }
}
