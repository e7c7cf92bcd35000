/**
 * Per-semester summaries of a student's marks, as the marks API and the
 * student details page compute them: group the mark rows by semester, then
 * for each semester present total the best-of-two marks, set the maximum at
 * 50 per subject, and derive the percentage and the CGPA cut-off.
 *
 * `Aggregate` is the specification: one summary per semester that has marks,
 * in ascending semester order, each built from exactly that semester's
 * marks.  The two handlers are methods proved equal to it.
 */
module Aggregation {
  import opened Marks
  import opened Sorting

  /** Most marks a subject can contribute to a semester's maximum. */
  const MaxMarksPerSubject: int := 50

  /** Divisor that turns a percentage into the CGPA cut-off. */
  const CgpaDivisor: real := 9.5

  /** What the portal reports for one semester. */
  datatype SemesterSummary = SemesterSummary(
    semester: int,
    subjects: seq<Mark>,
    totalMarks: real,
    percentage: real,
    cgpaCutoff: real)

  function SummarySemester(summary: SemesterSummary): int {
    summary.semester
  }

  function Identity(k: int): int {
    k
  }

  /** The semesters that have at least one mark. */
  function Semesters(marks: seq<Mark>): set<int> {
    set m | m in marks :: m.semester
  }

  /** The marks of `semester`, in input order. */
  function MarksOf(marks: seq<Mark>, semester: int): (group: seq<Mark>)
    ensures forall i :: 0 <= i < |group| ==> group[i].semester == semester
    ensures group == [] <==> semester !in Semesters(marks)
  {
    if marks == [] then
      []
    else
      var init, last := marks[..|marks| - 1], marks[|marks| - 1];
      assert marks == init + [last];
      assert Semesters(marks) == Semesters(init) + {last.semester};
      MarksOf(init, semester) + if last.semester == semester then [last] else []
  }

  /** One more mark row extends its own semester's group and no other. */
  lemma MarksOfSnoc(marks: seq<Mark>, mark: Mark, semester: int)
    ensures MarksOf(marks + [mark], semester) ==
              MarksOf(marks, semester) + if mark.semester == semester then [mark] else []
    ensures Semesters(marks + [mark]) == Semesters(marks) + {mark.semester}
  {
    assert (marks + [mark])[..|marks|] == marks;
  }

  /**
   * A semester's group holds every mark row of that semester, as often as
   * the input does, and nothing else.
   */
  lemma {:induction false} MarksOfMultiplicity(marks: seq<Mark>, semester: int, m: Mark)
    ensures multiset(MarksOf(marks, semester))[m] ==
              if m.semester == semester then multiset(marks)[m] else 0
  {
    if marks != [] {
      var init, last := marks[..|marks| - 1], marks[|marks| - 1];
      assert marks == init + [last];
      MarksOfMultiplicity(init, semester, m);
    }
  }

  /** Sum of the best-of-two marks of `subjects`. */
  function TotalBest(subjects: seq<Mark>): real {
    if subjects == [] then 0.0 else BestOfTwo(subjects[0]) + TotalBest(subjects[1..])
  }

  function MaxMarks(subjects: seq<Mark>): int {
    |subjects| * MaxMarksPerSubject
  }

  /**
   * The summary of one semester's marks.  The percentage is the total over
   * the maximum, or 0 when there is no subject to divide by.
   */
  function Summarize(semester: int, subjects: seq<Mark>): (summary: SemesterSummary)
    ensures summary.semester == semester && summary.subjects == subjects
    ensures summary.totalMarks == TotalBest(subjects)
    ensures subjects != [] ==>
              summary.percentage * (MaxMarks(subjects) as real) == summary.totalMarks * 100.0
    ensures subjects == [] ==> summary.percentage == 0.0
    ensures summary.cgpaCutoff * CgpaDivisor == summary.percentage
  {
    var totalMarks := TotalBest(subjects);
    var maxMarks := MaxMarks(subjects);
    var percentage := if maxMarks > 0 then totalMarks / (maxMarks as real) * 100.0 else 0.0;
    SemesterSummary(semester, subjects, totalMarks, percentage, percentage / CgpaDivisor)
  }

  /** Each key is smaller than the next. */
  predicate Increasing(keys: seq<int>) {
    forall i, j :: 0 <= i < j < |keys| ==> keys[i] < keys[j]
  }

  /** The lowest semester that has a mark. */
  function LowestSemester(marks: seq<Mark>): (low: int)
    requires marks != []
    ensures low in Semesters(marks)
    ensures forall s :: s in Semesters(marks) ==> low <= s
  {
    assert Semesters(marks) == {marks[0].semester} + Semesters(marks[1..]) by {
      assert marks == [marks[0]] + marks[1..];
    }
    if |marks| == 1 then
      marks[0].semester
    else
      var low := LowestSemester(marks[1..]);
      if marks[0].semester < low then marks[0].semester else low
  }

  /** The marks of every semester but `semester`, in input order. */
  function WithoutSemester(marks: seq<Mark>, semester: int): (rest: seq<Mark>)
    ensures Semesters(rest) == Semesters(marks) - {semester}
    ensures |rest| <= |marks|
    ensures semester in Semesters(marks) ==> |rest| < |marks|
  {
    if marks == [] then
      []
    else
      assert Semesters(marks) == {marks[0].semester} + Semesters(marks[1..]) by {
        assert marks == [marks[0]] + marks[1..];
      }
      var rest := WithoutSemester(marks[1..], semester);
      if marks[0].semester == semester then
        rest
      else
        assert Semesters([marks[0]] + rest) == {marks[0].semester} + Semesters(rest) by {
          assert ([marks[0]] + rest)[1..] == rest;
        }
        [marks[0]] + rest
  }

  /** The semesters that have marks, each once, lowest first. */
  function AscendingSemesters(marks: seq<Mark>): (keys: seq<int>)
    ensures Increasing(keys)
    ensures forall k :: k in keys <==> k in Semesters(marks)
    decreases |marks|
  {
    if marks == [] then
      []
    else
      var low := LowestSemester(marks);
      var rest := AscendingSemesters(WithoutSemester(marks, low));
      var keys := [low] + rest;
      assert forall i, j :: 0 <= i < j < |keys| ==> keys[i] < keys[j] by {
        forall i, j | 0 <= i < j < |keys| ensures keys[i] < keys[j] {
          assert keys[j] == rest[j - 1];
          if i > 0 { assert keys[i] == rest[i - 1]; } else { assert keys[j] in rest; }
        }
      }
      keys
  }

  /** Two increasing lists with the same elements are the same list. */
  lemma {:induction false} AscendingUnique(a: seq<int>, b: seq<int>)
    requires Increasing(a) && Increasing(b)
    requires forall k :: k in a <==> k in b
    ensures a == b
  {
    assert a != [] ==> a[0] in a && a[0] in b;
    assert b != [] ==> b[0] in b && b[0] in a;
    if a != [] && b != [] {
      assert b[0] in a && a[0] in b;
      assert a[0] == b[0] by {
        var i :| 0 <= i < |a| && a[i] == b[0];
        var j :| 0 <= j < |b| && b[j] == a[0];
        assert a[0] <= a[i] && b[0] <= b[j];
      }
      forall k ensures k in a[1..] <==> k in b[1..] {
        if k in a[1..] {
          var i :| 1 <= i < |a| && a[i] == k;
          assert k in b && k != b[0];
          var j :| 0 <= j < |b| && b[j] == k;
          assert j != 0 && b[1..][j - 1] == k;
        }
        if k in b[1..] {
          var j :| 1 <= j < |b| && b[j] == k;
          assert k in a && k != a[0];
          var i :| 0 <= i < |a| && a[i] == k;
          assert i != 0 && a[1..][i - 1] == k;
        }
      }
      AscendingUnique(a[1..], b[1..]);
      assert a == [a[0]] + a[1..] && b == [b[0]] + b[1..];
    }
  }

  /** The semesters of `summaries`, in order. */
  function SemesterList(summaries: seq<SemesterSummary>): (keys: seq<int>)
    ensures |keys| == |summaries|
    ensures forall i :: 0 <= i < |keys| ==> keys[i] == summaries[i].semester
  {
    seq(|summaries|, i requires 0 <= i < |summaries| => summaries[i].semester)
  }

  /**
   * The specification of both handlers: one summary per semester that has
   * marks, in ascending semester order, each built from that semester's
   * marks.
   */
  function Aggregate(marks: seq<Mark>): (summaries: seq<SemesterSummary>)
    ensures Increasing(SemesterList(summaries))
    ensures forall s :: s in SemesterList(summaries) <==> s in Semesters(marks)
    ensures forall i :: 0 <= i < |summaries| ==>
              summaries[i] == Summarize(summaries[i].semester, MarksOf(marks, summaries[i].semester))
    ensures forall i :: 0 <= i < |summaries| ==> summaries[i].subjects != []
    ensures marks == [] ==> summaries == []
  {
    var keys := AscendingSemesters(marks);
    var summaries := seq(|keys|, i requires 0 <= i < |keys| => Summarize(keys[i], MarksOf(marks, keys[i])));
    assert SemesterList(summaries) == keys;
    summaries
  }

  /**
   * Anything shaped like `Aggregate(marks)` is `Aggregate(marks)`: ascending
   * by semester, covering exactly the semesters present, each summary built
   * from its semester's marks.
   */
  lemma AggregateUnique(marks: seq<Mark>, r: seq<SemesterSummary>)
    requires Increasing(SemesterList(r))
    requires forall s :: s in SemesterList(r) <==> s in Semesters(marks)
    requires forall i :: 0 <= i < |r| ==> r[i] == Summarize(r[i].semester, MarksOf(marks, r[i].semester))
    ensures r == Aggregate(marks)
  {
    var spec := Aggregate(marks);
    var a, b := SemesterList(r), SemesterList(spec);
    AscendingUnique(a, b);
    assert forall i :: 0 <= i < |r| ==> r[i] == spec[i] by {
      forall i | 0 <= i < |r| ensures r[i] == spec[i] {
        assert a[i] == b[i];
      }
    }
  }

  /** The sum does not depend on where a list is split. */
  lemma {:induction false} TotalBestAppend(a: seq<Mark>, b: seq<Mark>)
    ensures TotalBest(a + b) == TotalBest(a) + TotalBest(b)
  {
    if a != [] {
      assert (a + b)[1..] == a[1..] + b;
      TotalBestAppend(a[1..], b);
    } else {
      assert a + b == b;
    }
  }

  /** Taking one subject out of a list takes its mark out of the sum. */
  lemma TotalBestRemove(b: seq<Mark>, k: int)
    requires 0 <= k < |b|
    ensures TotalBest(b) == BestOfTwo(b[k]) + TotalBest(b[..k] + b[k + 1..])
  {
    var before, here, after := b[..k], [b[k]], b[k + 1..];
    assert b == (before + here) + after;
    TotalBestAppend(before + here, after);
    TotalBestAppend(before, here);
    TotalBestAppend(before, after);
    assert here[1..] == [];
    assert TotalBest(here) == BestOfTwo(b[k]);
  }

  lemma MultisetRemove(b: seq<Mark>, k: int)
    requires 0 <= k < |b|
    ensures multiset(b[..k] + b[k + 1..]) == multiset(b) - multiset{b[k]}
  {
    assert b == b[..k] + [b[k]] + b[k + 1..];
  }

  /** The sum of best-of-two marks does not depend on the order of the subjects. */
  lemma {:induction false} TotalBestPermutation(a: seq<Mark>, b: seq<Mark>)
    requires multiset(a) == multiset(b)
    ensures TotalBest(a) == TotalBest(b)
    decreases |a|
  {
    if a == [] {
      assert |b| == |multiset(b)| == 0;
    } else {
      assert a[0] in multiset(b);
      var k :| 0 <= k < |b| && b[k] == a[0];
      TotalBestRemove(b, k);
      MultisetRemove(b, k);
      assert a == [a[0]] + a[1..];
      assert multiset(a[1..]) == multiset(a) - multiset{a[0]};
      TotalBestPermutation(a[1..], b[..k] + b[k + 1..]);
    }
  }

  /** The same mark rows in another order give the same groups, up to order within a group. */
  lemma MarksOfPermutation(a: seq<Mark>, b: seq<Mark>, semester: int)
    requires multiset(a) == multiset(b)
    ensures multiset(MarksOf(a, semester)) == multiset(MarksOf(b, semester))
  {
    forall m ensures multiset(MarksOf(a, semester))[m] == multiset(MarksOf(b, semester))[m] {
      MarksOfMultiplicity(a, semester, m);
      MarksOfMultiplicity(b, semester, m);
    }
  }

  /** One semester's summary does not depend on the order of the mark rows. */
  lemma SummaryOrderIndependent(a: seq<Mark>, b: seq<Mark>, semester: int)
    requires multiset(a) == multiset(b)
    ensures var sa, sb := Summarize(semester, MarksOf(a, semester)), Summarize(semester, MarksOf(b, semester));
      && sa.totalMarks == sb.totalMarks
      && sa.percentage == sb.percentage
      && sa.cgpaCutoff == sb.cgpaCutoff
      && multiset(sa.subjects) == multiset(sb.subjects)
  {
    var ga, gb := MarksOf(a, semester), MarksOf(b, semester);
    MarksOfPermutation(a, b, semester);
    TotalBestPermutation(ga, gb);
    assert |ga| == |multiset(ga)| == |multiset(gb)| == |gb|;
  }

  /**
   * The summaries do not depend on the order of the mark rows: the same
   * semesters in the same order, with the same totals, percentages and
   * CGPA cut-offs, and the same subjects up to their order.
   */
  lemma AggregateOrderIndependent(a: seq<Mark>, b: seq<Mark>)
    requires multiset(a) == multiset(b)
    ensures |Aggregate(a)| == |Aggregate(b)|
    ensures forall i :: 0 <= i < |Aggregate(a)| ==>
              && Aggregate(a)[i].semester == Aggregate(b)[i].semester
              && Aggregate(a)[i].totalMarks == Aggregate(b)[i].totalMarks
              && Aggregate(a)[i].percentage == Aggregate(b)[i].percentage
              && Aggregate(a)[i].cgpaCutoff == Aggregate(b)[i].cgpaCutoff
              && multiset(Aggregate(a)[i].subjects) == multiset(Aggregate(b)[i].subjects)
  {
    assert forall m :: m in a <==> m in b by {
      forall m ensures m in a <==> m in b {
        assert m in a <==> m in multiset(a);
        assert m in b <==> m in multiset(b);
      }
    }
    assert Semesters(a) == Semesters(b);
    var ra, rb := Aggregate(a), Aggregate(b);
    AscendingUnique(SemesterList(ra), SemesterList(rb));
    forall i | 0 <= i < |ra|
      ensures ra[i].semester == rb[i].semester
      ensures ra[i].totalMarks == rb[i].totalMarks
      ensures ra[i].percentage == rb[i].percentage
      ensures ra[i].cgpaCutoff == rb[i].cgpaCutoff
      ensures multiset(ra[i].subjects) == multiset(rb[i].subjects)
    {
      assert SemesterList(ra)[i] == SemesterList(rb)[i];
      SummaryOrderIndependent(a, b, ra[i].semester);
    }
  }

  /** All the subjects of `summaries`, semester after semester. */
  function Flatten(summaries: seq<SemesterSummary>): seq<Mark> {
    if summaries == [] then [] else summaries[0].subjects + Flatten(summaries[1..])
  }

  lemma {:induction false} FlattenMultiplicity(marks: seq<Mark>, r: seq<SemesterSummary>, m: Mark)
    requires DistinctKeys(SemesterList(r), Identity)
    requires forall i :: 0 <= i < |r| ==> r[i].subjects == MarksOf(marks, r[i].semester)
    ensures multiset(Flatten(r))[m] == if m.semester in SemesterList(r) then multiset(marks)[m] else 0
  {
    if r != [] {
      var tail := r[1..];
      assert SemesterList(tail) == SemesterList(r)[1..];
      assert DistinctKeys(SemesterList(tail), Identity) by {
        forall i, j | 0 <= i < j < |tail|
          ensures Identity(SemesterList(tail)[i]) != Identity(SemesterList(tail)[j])
        {
          assert Identity(SemesterList(r)[i + 1]) != Identity(SemesterList(r)[j + 1]);
        }
      }
      FlattenMultiplicity(marks, tail, m);
      MarksOfMultiplicity(marks, r[0].semester, m);
      assert m.semester in SemesterList(r) <==> m.semester == r[0].semester || m.semester in SemesterList(tail);
      forall j | 0 <= j < |tail| ensures SemesterList(tail)[j] != r[0].semester {
        assert Identity(SemesterList(r)[0]) != Identity(SemesterList(r)[j + 1]);
      }
    }
  }

  /**
   * The groups partition the input: every mark row lands in exactly one
   * semester's summary, so the subject counts add up to the number of rows.
   */
  lemma AggregatePartitionsMarks(marks: seq<Mark>)
    ensures multiset(Flatten(Aggregate(marks))) == multiset(marks)
    ensures |Flatten(Aggregate(marks))| == |marks|
  {
    var r := Aggregate(marks);
    assert DistinctKeys(SemesterList(r), Identity) by {
      forall i, j | 0 <= i < j < |r| ensures Identity(SemesterList(r)[i]) != Identity(SemesterList(r)[j]) {
        assert SemesterList(r)[i] < SemesterList(r)[j];
      }
    }
    forall m ensures multiset(Flatten(r))[m] == multiset(marks)[m] {
      FlattenMultiplicity(marks, r, m);
      if m in marks {
        assert m.semester in Semesters(marks);
      }
    }
    assert multiset(Flatten(r)) == multiset(marks);
    assert |Flatten(r)| == |multiset(Flatten(r))| == |multiset(marks)| == |marks|;
  }

  /**
   * Groups the marks by semester into a dictionary: `groups` maps each
   * semester to its marks in input order, and `order` lists the dictionary's
   * keys, each once, in the order they were added.
   */
  method GroupBySemester(marks: seq<Mark>) returns (order: seq<int>, groups: map<int, seq<Mark>>)
    ensures groups.Keys == Semesters(marks)
    ensures forall s :: s in groups ==> groups[s] == MarksOf(marks, s)
    ensures DistinctKeys(order, Identity)
    ensures forall s :: s in order <==> s in groups
  {
    order, groups := [], map[];
    for i := 0 to |marks|
      invariant groups.Keys == Semesters(marks[..i])
      invariant forall s :: s in groups ==> groups[s] == MarksOf(marks[..i], s)
      invariant DistinctKeys(order, Identity)
      invariant forall s :: s in order <==> s in groups
    {
      var mark := marks[i];
      assert marks[..i + 1] == marks[..i] + [mark];
      forall s ensures MarksOf(marks[..i + 1], s) ==
                         MarksOf(marks[..i], s) + if mark.semester == s then [mark] else [] {
        MarksOfSnoc(marks[..i], mark, s);
      }
      if mark.semester !in groups {
        groups := groups[mark.semester := []];
        AppendDistinct(order, mark.semester);
        order := order + [mark.semester];
      }
      groups := groups[mark.semester := groups[mark.semester] + [mark]];
    }
    assert marks[..|marks|] == marks;
  }

  lemma AppendDistinct(keys: seq<int>, k: int)
    requires DistinctKeys(keys, Identity)
    requires k !in keys
    ensures DistinctKeys(keys + [k], Identity)
  {
    var r := keys + [k];
    forall i, j | 0 <= i < j < |r| ensures Identity(r[i]) != Identity(r[j]) {
      if j < |keys| { assert Identity(keys[i]) != Identity(keys[j]); } else { assert r[i] in keys; }
    }
  }

  /** A list of keys strictly sorted by `Identity` is increasing. */
  lemma IncreasingKeys(keys: seq<int>)
    requires StrictlySortedBy(keys, Identity)
    ensures Increasing(keys)
  {
    forall i, j | 0 <= i < j < |keys| ensures keys[i] < keys[j] {
      assert Identity(keys[i]) < Identity(keys[j]);
    }
  }

  /** Sorting distinct semester numbers gives them in increasing order, none lost or added. */
  lemma SortedSemesterKeys(order: seq<int>)
    requires DistinctKeys(order, Identity)
    ensures Increasing(SortBy(order, Identity))
    ensures forall k :: k in SortBy(order, Identity) <==> k in order
  {
    var keys := SortBy(order, Identity);
    SortByStrict(order, Identity);
    IncreasingKeys(keys);
    forall k ensures k in keys <==> k in order {
      assert k in keys <==> k in multiset(keys);
    }
  }

  /**
   * Summaries built from the semesters present, listed in ascending order,
   * are `Aggregate(marks)`.
   */
  lemma SummariesOfSortedKeys(
    marks: seq<Mark>, groups: map<int, seq<Mark>>, keys: seq<int>, data: seq<SemesterSummary>)
    requires forall s :: s in groups ==> groups[s] == MarksOf(marks, s)
    requires Increasing(keys)
    requires forall k :: k in keys <==> k in Semesters(marks)
    requires forall k :: k in keys ==> k in groups
    requires |data| == |keys|
    requires forall j :: 0 <= j < |keys| ==> data[j] == Summarize(keys[j], groups[keys[j]])
    ensures data == Aggregate(marks)
  {
    assert SemesterList(data) == keys;
    AggregateUnique(marks, data);
  }

  /** Summaries of distinct semesters, sorted by semester, are in increasing semester order. */
  lemma SortedSummariesIncreasing(keys: seq<int>, unsorted: seq<SemesterSummary>)
    requires DistinctKeys(keys, Identity)
    requires |unsorted| == |keys|
    requires forall j :: 0 <= j < |keys| ==> unsorted[j].semester == keys[j]
    ensures Increasing(SemesterList(SortBy(unsorted, SummarySemester)))
  {
    var result := SortBy(unsorted, SummarySemester);
    assert DistinctKeys(unsorted, SummarySemester) by {
      forall i, j | 0 <= i < j < |unsorted|
        ensures SummarySemester(unsorted[i]) != SummarySemester(unsorted[j])
      {
        assert Identity(keys[i]) != Identity(keys[j]);
      }
    }
    SortByStrict(unsorted, SummarySemester);
    var semesters := SemesterList(result);
    forall i, j | 0 <= i < j < |semesters| ensures semesters[i] < semesters[j] {
      assert SummarySemester(result[i]) < SummarySemester(result[j]);
    }
  }

  /** Every sorted summary is one of the unsorted ones, so it is built from its semester's marks. */
  lemma SortedSummariesElements(marks: seq<Mark>, keys: seq<int>, unsorted: seq<SemesterSummary>)
    requires forall k :: k in keys ==> k in Semesters(marks)
    requires |unsorted| == |keys|
    requires forall j :: 0 <= j < |keys| ==> unsorted[j] == Summarize(keys[j], MarksOf(marks, keys[j]))
    ensures forall i :: 0 <= i < |SortBy(unsorted, SummarySemester)| ==>
              var r := SortBy(unsorted, SummarySemester)[i];
              r.semester in Semesters(marks) && r == Summarize(r.semester, MarksOf(marks, r.semester))
  {
    var result := SortBy(unsorted, SummarySemester);
    forall i | 0 <= i < |result|
      ensures result[i].semester in Semesters(marks)
      ensures result[i] == Summarize(result[i].semester, MarksOf(marks, result[i].semester))
    {
      assert result[i] in multiset(unsorted);
      var j :| 0 <= j < |unsorted| && unsorted[j] == result[i];
      assert result[i].semester == keys[j];
    }
  }

  /** Every semester present has a summary among the sorted ones. */
  lemma SortedSummariesCover(marks: seq<Mark>, keys: seq<int>, unsorted: seq<SemesterSummary>)
    requires forall k :: k in Semesters(marks) ==> k in keys
    requires |unsorted| == |keys|
    requires forall j :: 0 <= j < |keys| ==> unsorted[j].semester == keys[j]
    ensures forall s :: s in Semesters(marks) ==> s in SemesterList(SortBy(unsorted, SummarySemester))
  {
    var result := SortBy(unsorted, SummarySemester);
    var semesters := SemesterList(result);
    forall s | s in Semesters(marks) ensures s in semesters {
      var j :| 0 <= j < |keys| && keys[j] == s;
      assert unsorted[j] in multiset(result);
      var i :| 0 <= i < |result| && result[i] == unsorted[j];
      assert semesters[i] == s;
    }
  }

  /**
   * Summaries built from the semesters present, each listed once in any
   * order, and then sorted by semester are `Aggregate(marks)`.
   */
  lemma SortedSummaries(
    marks: seq<Mark>, groups: map<int, seq<Mark>>, keys: seq<int>, unsorted: seq<SemesterSummary>)
    requires forall s :: s in groups ==> groups[s] == MarksOf(marks, s)
    requires DistinctKeys(keys, Identity)
    requires forall k :: k in keys <==> k in Semesters(marks)
    requires forall k :: k in keys ==> k in groups
    requires |unsorted| == |keys|
    requires forall j :: 0 <= j < |keys| ==> unsorted[j] == Summarize(keys[j], groups[keys[j]])
    ensures SortBy(unsorted, SummarySemester) == Aggregate(marks)
  {
    var result := SortBy(unsorted, SummarySemester);
    SortedSummariesIncreasing(keys, unsorted);
    SortedSummariesElements(marks, keys, unsorted);
    SortedSummariesCover(marks, keys, unsorted);
    AggregateUnique(marks, result);
  }

  /**
   * Summarises each listed semester from its group of marks, in the order
   * the semesters are listed.
   */
  method SummarizeGroups(keys: seq<int>, groups: map<int, seq<Mark>>) returns (data: seq<SemesterSummary>)
    requires forall k :: k in keys ==> k in groups
    ensures |data| == |keys|
    ensures forall j :: 0 <= j < |keys| ==> data[j] == Summarize(keys[j], groups[keys[j]])
  {
    data := [];
    for i := 0 to |keys|
      invariant |data| == i
      invariant forall j :: 0 <= j < i ==> data[j] == Summarize(keys[j], groups[keys[j]])
    {
      var semester := keys[i];
      var subjects := groups[semester];
      data := data + [Summarize(semester, subjects)];
    }
  }

  /**
   * The marks API: group, summarise each semester in dictionary order, then
   * sort the summaries by semester.
   */
  method StudentMarksSummaries(marks: seq<Mark>) returns (result: seq<SemesterSummary>)
    ensures result == Aggregate(marks)
  {
    var order, groups := GroupBySemester(marks);
    var unsorted := SummarizeGroups(order, groups);
    SortedSummaries(marks, groups, order, unsorted);
    result := SortBy(unsorted, SummarySemester);
  }

  /**
   * The student details page: group, then summarise the semesters in
   * ascending order of the dictionary's keys.
   */
  method StudentDetailsSemesterData(marks: seq<Mark>) returns (semesterData: seq<SemesterSummary>)
    ensures semesterData == Aggregate(marks)
  {
    var order, groups := GroupBySemester(marks);
    var keys := SortBy(order, Identity);
    SortedSemesterKeys(order);
    semesterData := SummarizeGroups(keys, groups);
    SummariesOfSortedKeys(marks, groups, keys, semesterData);
  }
}
