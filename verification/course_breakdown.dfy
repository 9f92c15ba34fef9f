/**
 The "Number of Alumni by Course" breakdown. The rows whose batch is among
 the selected years and whose course is among the selected courses are
 grouped by (course, batch) and counted; each group is joined with the number
 of selected rows of its course, and its count is expressed as a percentage
 of the whole table.
 */
module CourseBreakdown {
  import opened Seqs
  import opened Orders
  import opened Records
  import opened Grouping
  import opened Shares

  // ----- Selection -----

  predicate InCourseSelection(r: Record, years: set<int>, courses: set<string>) {
    Selected(r.batch, years) && Selected(r.course, courses)
  }

  function CourseMask(years: set<int>, courses: set<string>): Record -> bool {
    (r: Record) => InCourseSelection(r, years, courses)
  }

  /** The rows of the table matching both the year and the course selection,
      in table order. */
  function CourseSelection(data: seq<Record>, years: set<int>, courses: set<string>): (rows: seq<Record>)
    ensures |rows| <= |data|
    ensures forall i :: 0 <= i < |rows| ==> InCourseSelection(rows[i], years, courses)
  {
    Filter(data, CourseMask(years, courses))
  }

  /** Filter soundness and completeness: a row is selected, as often as it
      occurs in the table, iff its batch is a selected year and its course a
      selected course; an empty selection of either kind selects nothing. */
  lemma CourseSelectionExact(data: seq<Record>, years: set<int>, courses: set<string>)
    ensures forall r :: r in CourseSelection(data, years, courses) <==>
              r in data && r.batch.Present? && r.batch.value in years
                        && r.course.Present? && r.course.value in courses
    ensures forall r :: Count(CourseSelection(data, years, courses), r) ==
              if InCourseSelection(r, years, courses) then Count(data, r) else 0
    ensures years == {} || courses == {} ==> CourseSelection(data, years, courses) == []
  {
    forall r ensures Count(CourseSelection(data, years, courses), r) ==
                     if InCourseSelection(r, years, courses) then Count(data, r) else 0 {
      FilterCount(data, CourseMask(years, courses), r);
    }
    if years == {} || courses == {} {
      FilterNone(data, CourseMask(years, courses));
    }
  }

  // ----- Grouping keys -----

  datatype CourseBatch = CourseBatch(course: string, batch: int)

  /** Order of (course, batch) keys: by course text, then by year. */
  function CourseBatchLess(a: CourseBatch, b: CourseBatch): bool {
    TextLess(a.course, b.course) || (a.course == b.course && a.batch < b.batch)
  }

  lemma CourseBatchLessIsStrictTotalOrder()
    ensures StrictTotalOrder(CourseBatchLess)
  {
    TextLessIsStrictTotalOrder();
  }

  /** The (course, batch) key of every row; only applied to selected rows,
      whose course and batch cells are present. */
  function CourseBatchKeys(rows: seq<Record>): (ks: seq<CourseBatch>)
    requires forall i :: 0 <= i < |rows| ==> rows[i].course.Present? && rows[i].batch.Present?
    ensures |ks| == |rows|
    ensures forall i :: 0 <= i < |rows| ==>
              ks[i].course == rows[i].course.value && ks[i].batch == rows[i].batch.value
  {
    seq(|rows|, i requires 0 <= i < |rows| =>
      CourseBatch(rows[i].course.value, rows[i].batch.value))
  }

  function OfCourse(c: string): CourseBatch -> bool {
    (k: CourseBatch) => k.course == c
  }

  /** The rows of one course among keyed rows are as many as the occurrences
      of that course among their courses. */
  lemma {:induction false} CountCourse(names: seq<string>, ks: seq<CourseBatch>, c: string)
    requires |names| == |ks|
    requires forall i :: 0 <= i < |ks| ==> names[i] == ks[i].course
    ensures Count(names, c) == |Filter(ks, OfCourse(c))|
  {
    if ks != [] {
      CountCourse(names[1..], ks[1..], c);
    }
  }

  // ----- Join with the per-course totals -----

  datatype Merged = Merged(course: string, batch: int, count: nat, courseTotal: nat)

  /** The joined rows for one (course, batch) group: one per totals row of
      the same course, in totals order. */
  function MatchTotals(g: Group<CourseBatch>, totals: seq<Group<string>>): (m: seq<Merged>)
    ensures |m| <= |totals|
  {
    if totals == [] then []
    else
      (if totals[0].key == g.key.course
       then [Merged(g.key.course, g.key.batch, g.size, totals[0].size)]
       else [])
      + MatchTotals(g, totals[1..])
  }

  /** Inner join of the groups with the per-course totals on the course,
      keeping the order of the groups. */
  function MergeOnCourse(grouped: seq<Group<CourseBatch>>, totals: seq<Group<string>>): (m: seq<Merged>)
    ensures grouped == [] ==> m == []
  {
    if grouped == [] then []
    else MatchTotals(grouped[0], totals) + MergeOnCourse(grouped[1..], totals)
  }

  /** The size recorded for key `c`: the first totals row with that key. */
  function TotalOf(totals: seq<Group<string>>, c: string): nat {
    if totals == [] then 0
    else if totals[0].key == c then totals[0].size
    else TotalOf(totals[1..], c)
  }

  lemma {:induction false} TotalOfFind(totals: seq<Group<string>>, c: string)
    requires c in Keys(totals)
    ensures exists i :: 0 <= i < |totals| && totals[i].key == c && TotalOf(totals, c) == totals[i].size
  {
    if totals[0].key != c {
      var i :| 0 <= i < |totals| && Keys(totals)[i] == c;
      assert Keys(totals[1..])[i - 1] == c;
      TotalOfFind(totals[1..], c);
      var j :| 0 <= j < |totals[1..]| && totals[1..][j].key == c && TotalOf(totals[1..], c) == totals[1..][j].size;
      assert totals[j + 1] == totals[1..][j];
    }
  }

  lemma {:induction false} MatchTotalsAbsent(g: Group<CourseBatch>, totals: seq<Group<string>>)
    requires forall i :: 0 <= i < |totals| ==> totals[i].key != g.key.course
    ensures MatchTotals(g, totals) == []
  {
    if totals != [] {
      MatchTotalsAbsent(g, totals[1..]);
    }
  }

  /** Against totals with unique keys that include the group's course, a group
      joins with exactly one totals row. */
  lemma {:induction false} MatchTotalsSingle(g: Group<CourseBatch>, totals: seq<Group<string>>)
    requires UniqueKeys(totals)
    requires g.key.course in Keys(totals)
    ensures MatchTotals(g, totals) == [Merged(g.key.course, g.key.batch, g.size, TotalOf(totals, g.key.course))]
  {
    var tail := totals[1..];
    assert UniqueKeys(tail) by {
      forall i, j | 0 <= i < j < |tail| ensures tail[i].key != tail[j].key {
        assert tail[i] == totals[i + 1] && tail[j] == totals[j + 1];
      }
    }
    if totals[0].key == g.key.course {
      forall i | 0 <= i < |tail| ensures tail[i].key != g.key.course {
        assert tail[i] == totals[i + 1];
      }
      MatchTotalsAbsent(g, tail);
    } else {
      var i :| 0 <= i < |totals| && Keys(totals)[i] == g.key.course;
      assert Keys(tail)[i - 1] == g.key.course;
      MatchTotalsSingle(g, tail);
    }
  }

  /** The inner join drops no group and duplicates none: when the totals have
      unique keys covering every group's course, the join has one row per
      group, in group order, carrying that course's total. */
  lemma {:induction false} MergeKeepsEveryRow(grouped: seq<Group<CourseBatch>>, totals: seq<Group<string>>)
    requires UniqueKeys(totals)
    requires forall i :: 0 <= i < |grouped| ==> grouped[i].key.course in Keys(totals)
    ensures |MergeOnCourse(grouped, totals)| == |grouped|
    ensures forall i :: 0 <= i < |grouped| ==>
              MergeOnCourse(grouped, totals)[i] ==
              Merged(grouped[i].key.course, grouped[i].key.batch, grouped[i].size,
                     TotalOf(totals, grouped[i].key.course))
  {
    if grouped != [] {
      MatchTotalsSingle(grouped[0], totals);
      MergeKeepsEveryRow(grouped[1..], totals);
      var m := MergeOnCourse(grouped, totals);
      var rest := MergeOnCourse(grouped[1..], totals);
      forall i | 0 < i < |grouped| ensures m[i] == Merged(grouped[i].key.course, grouped[i].key.batch,
                                                           grouped[i].size, TotalOf(totals, grouped[i].key.course)) {
        assert m[i] == rest[i - 1] && grouped[1..][i - 1] == grouped[i];
      }
    }
  }

  // ----- Result rows -----

  datatype CourseYearRow = CourseYearRow(course: string, batch: int, count: nat, courseTotal: nat, percentage: real)

  /** Adds the percentage column: each count as a share of the whole table. */
  function WithPercentages(merged: seq<Merged>, tableSize: nat): (rows: seq<CourseYearRow>)
    requires merged == [] || tableSize > 0
    ensures |rows| == |merged|
    ensures forall i :: 0 <= i < |rows| ==>
              && rows[i].course == merged[i].course && rows[i].batch == merged[i].batch
              && rows[i].count == merged[i].count && rows[i].courseTotal == merged[i].courseTotal
              && rows[i].percentage == Percent(rows[i].count, tableSize)
  {
    seq(|merged|, i requires 0 <= i < |merged| =>
      CourseYearRow(merged[i].course, merged[i].batch, merged[i].count,
                    merged[i].courseTotal, Percent(merged[i].count, tableSize)))
  }

  function CourseTotals(filtered: seq<Record>): seq<Group<string>> {
    GroupSizes(PresentValues(CourseColumn(filtered)), TextLess)
  }

  /** The (course, batch) groups of the selected rows, with their sizes. */
  function CourseGroups(data: seq<Record>, years: set<int>, courses: set<string>): (gs: seq<Group<CourseBatch>>)
    ensures |gs| <= |CourseSelection(data, years, courses)|
  {
    GroupSizes(CourseBatchKeys(CourseSelection(data, years, courses)), CourseBatchLess)
  }

  /** The course chart's table for the given table and selections. */
  function Breakdown(data: seq<Record>, years: set<int>, courses: set<string>): (rows: seq<CourseYearRow>)
    ensures |rows| == |CourseGroups(data, years, courses)|
  {
    var filtered := CourseSelection(data, years, courses);
    var grouped := CourseGroups(data, years, courses);
    var merged := MergeOnCourse(grouped, CourseTotals(filtered));
    assert |merged| == |grouped| by {
      MergeMatchesGroups(data, years, courses);
    }
    WithPercentages(merged, |data|)
  }

  /** The join has one row per group, carrying the number of selected rows of
      the group's course. */
  lemma MergeMatchesGroups(data: seq<Record>, years: set<int>, courses: set<string>)
    ensures var filtered := CourseSelection(data, years, courses);
      var grouped := CourseGroups(data, years, courses);
      var merged := MergeOnCourse(grouped, CourseTotals(filtered));
      && |merged| == |grouped|
      && forall i :: 0 <= i < |grouped| ==>
           merged[i] == Merged(grouped[i].key.course, grouped[i].key.batch, grouped[i].size,
                               Count(CourseColumn(filtered), Present(grouped[i].key.course)))
  {
    var filtered := CourseSelection(data, years, courses);
    var keys := CourseBatchKeys(filtered);
    var grouped := GroupSizes(keys, CourseBatchLess);
    var names := PresentValues(CourseColumn(filtered));
    var totals := CourseTotals(filtered);
    TextLessIsStrictTotalOrder();
    GroupSizesSorted(names, TextLess);
    PresentValuesAllPresent(CourseColumn(filtered));
    forall i | 0 <= i < |grouped| ensures grouped[i].key.course in Keys(totals) {
      assert grouped[i].key in Keys(grouped);
      var j :| 0 <= j < |keys| && keys[j] == grouped[i].key;
      assert names[j] == grouped[i].key.course;
    }
    MergeKeepsEveryRow(grouped, totals);
    forall i | 0 <= i < |grouped|
      ensures TotalOf(totals, grouped[i].key.course) == Count(CourseColumn(filtered), Present(grouped[i].key.course))
    {
      var c := grouped[i].key.course;
      TotalOfFind(totals, c);
      PresentValuesCount(CourseColumn(filtered), c);
    }
  }

  /** The breakdown rows, one to one with the (course, batch) groups of the
      selected rows: each carries its group's key and size, the number of
      selected rows of its course, and its size as a share of the table. */
  lemma BreakdownMatchesGroups(data: seq<Record>, years: set<int>, courses: set<string>)
    ensures var rows := Breakdown(data, years, courses);
      var grouped := CourseGroups(data, years, courses);
      forall i :: 0 <= i < |rows| ==>
        rows[i] == CourseYearRow(grouped[i].key.course, grouped[i].key.batch, grouped[i].size,
                                 Count(CourseColumn(CourseSelection(data, years, courses)), Present(grouped[i].key.course)),
                                 Percent(grouped[i].size, |data|))
  {
    MergeMatchesGroups(data, years, courses);
  }

  /** The Count column of a chart table. */
  function CountOf(r: CourseYearRow): nat {
    r.count
  }

  /** The Percentage column of a chart table. */
  function PercentageOf(r: CourseYearRow): real {
    r.percentage
  }

  /** Sum of the counts of the rows of course `c`. */
  function CountForCourse(rows: seq<CourseYearRow>, c: string): nat {
    if rows == [] then 0
    else (if rows[0].course == c then rows[0].count else 0) + CountForCourse(rows[1..], c)
  }

  lemma {:induction false} CountForCourseGroups(rows: seq<CourseYearRow>, grouped: seq<Group<CourseBatch>>, c: string)
    requires |rows| == |grouped|
    requires forall i :: 0 <= i < |rows| ==>
               rows[i].course == grouped[i].key.course && rows[i].count == grouped[i].size
    ensures CountForCourse(rows, c) == TotalSize(WhereKey(grouped, OfCourse(c)))
  {
    if rows != [] {
      CountForCourseGroups(rows[1..], grouped[1..], c);
      if grouped[0].key.course == c {
        assert WhereKey(grouped, OfCourse(c)) == [grouped[0]] + WhereKey(grouped[1..], OfCourse(c));
        assert ([grouped[0]] + WhereKey(grouped[1..], OfCourse(c)))[1..] == WhereKey(grouped[1..], OfCourse(c));
      }
    }
  }

  /** Key uniqueness: the rows are in strictly ascending (course, batch)
      order, so no (course, batch) pair has two rows. */
  lemma BreakdownKeysUnique(data: seq<Record>, years: set<int>, courses: set<string>)
    ensures var rows := Breakdown(data, years, courses);
      forall i, j :: 0 <= i < j < |rows| ==>
        CourseBatchLess(CourseBatch(rows[i].course, rows[i].batch), CourseBatch(rows[j].course, rows[j].batch))
    ensures var rows := Breakdown(data, years, courses);
      forall i, j :: 0 <= i < j < |rows| ==> (rows[i].course, rows[i].batch) != (rows[j].course, rows[j].batch)
  {
    var rows := Breakdown(data, years, courses);
    var keys := CourseBatchKeys(CourseSelection(data, years, courses));
    var grouped := GroupSizes(keys, CourseBatchLess);
    BreakdownMatchesGroups(data, years, courses);
    CourseBatchLessIsStrictTotalOrder();
    GroupSizesSorted(keys, CourseBatchLess);
    forall i, j | 0 <= i < j < |rows|
      ensures CourseBatchLess(CourseBatch(rows[i].course, rows[i].batch), CourseBatch(rows[j].course, rows[j].batch))
      ensures (rows[i].course, rows[i].batch) != (rows[j].course, rows[j].batch)
    {
      assert Keys(grouped)[i] == grouped[i].key && Keys(grouped)[j] == grouped[j].key;
      assert CourseBatch(rows[i].course, rows[i].batch) == grouped[i].key;
      assert CourseBatch(rows[j].course, rows[j].batch) == grouped[j].key;
    }
  }

  /** Key completeness: every selected row of the table has the row of its
      (course, batch) pair. */
  lemma BreakdownKeysComplete(data: seq<Record>, years: set<int>, courses: set<string>)
    ensures var rows := Breakdown(data, years, courses);
      forall r :: r in data && InCourseSelection(r, years, courses) ==>
        exists i :: 0 <= i < |rows| && rows[i].course == r.course.value && rows[i].batch == r.batch.value
  {
    var rows := Breakdown(data, years, courses);
    var filtered := CourseSelection(data, years, courses);
    var keys := CourseBatchKeys(filtered);
    var grouped := CourseGroups(data, years, courses);
    BreakdownMatchesGroups(data, years, courses);
    CourseSelectionExact(data, years, courses);
    forall r | r in data && InCourseSelection(r, years, courses)
      ensures exists i :: 0 <= i < |rows| && rows[i].course == r.course.value && rows[i].batch == r.batch.value
    {
      assert r in filtered;
      var j :| 0 <= j < |filtered| && filtered[j] == r;
      assert keys[j] in Keys(grouped);
      var i :| 0 <= i < |grouped| && Keys(grouped)[i] == keys[j];
      assert rows[i].course == r.course.value && rows[i].batch == r.batch.value;
    }
  }

  /** Key soundness: every row's (course, batch) pair is that of some selected
      row of the table. */
  lemma BreakdownKeysSound(data: seq<Record>, years: set<int>, courses: set<string>)
    ensures var rows := Breakdown(data, years, courses);
      forall i :: 0 <= i < |rows| ==>
        exists r :: r in data && InCourseSelection(r, years, courses)
                    && r.course.value == rows[i].course && r.batch.value == rows[i].batch
  {
    var rows := Breakdown(data, years, courses);
    var filtered := CourseSelection(data, years, courses);
    var keys := CourseBatchKeys(filtered);
    var grouped := CourseGroups(data, years, courses);
    BreakdownMatchesGroups(data, years, courses);
    CourseSelectionExact(data, years, courses);
    forall i | 0 <= i < |rows|
      ensures exists r :: r in data && InCourseSelection(r, years, courses)
                          && r.course.value == rows[i].course && r.batch.value == rows[i].batch
    {
      var k := grouped[i].key;
      assert Keys(grouped)[i] == k;
      assert k in keys;
      var j :| 0 <= j < |keys| && keys[j] == k;
      var r := filtered[j];
      assert r in filtered;
      assert r.course.value == rows[i].course && r.batch.value == rows[i].batch;
    }
  }

  /** Count conservation: every row counts at least one selected row, its
      count is the number of selected rows with its key, and the counts add
      up to the number of selected rows. */
  lemma BreakdownCounts(data: seq<Record>, years: set<int>, courses: set<string>)
    ensures var rows := Breakdown(data, years, courses);
      var filtered := CourseSelection(data, years, courses);
      forall i :: 0 <= i < |rows| ==>
        1 <= rows[i].count == Count(CourseBatchKeys(filtered), CourseBatch(rows[i].course, rows[i].batch))
    ensures SumNats(Map(Breakdown(data, years, courses), CountOf)) == |CourseSelection(data, years, courses)|
  {
    var rows := Breakdown(data, years, courses);
    var filtered := CourseSelection(data, years, courses);
    var keys := CourseBatchKeys(filtered);
    var grouped := GroupSizes(keys, CourseBatchLess);
    BreakdownMatchesGroups(data, years, courses);
    CourseBatchLessIsStrictTotalOrder();
    GroupSizesConserve(keys, CourseBatchLess);
    SizesAddUp(Map(rows, CountOf), grouped);
  }

  /** Each row's course total is the number of selected rows of its course,
      which is also the sum of the counts of the rows of that course; hence a
      row's count never exceeds its course total. */
  lemma BreakdownCourseTotals(data: seq<Record>, years: set<int>, courses: set<string>)
    ensures var rows := Breakdown(data, years, courses);
      var filtered := CourseSelection(data, years, courses);
      forall i :: 0 <= i < |rows| ==>
        && rows[i].courseTotal == Count(CourseColumn(filtered), Present(rows[i].course))
        && rows[i].courseTotal == CountForCourse(rows, rows[i].course)
        && rows[i].count <= rows[i].courseTotal
  {
    var rows := Breakdown(data, years, courses);
    var filtered := CourseSelection(data, years, courses);
    var keys := CourseBatchKeys(filtered);
    var grouped := GroupSizes(keys, CourseBatchLess);
    var names := PresentValues(CourseColumn(filtered));
    assert |rows| == |grouped| && forall i :: 0 <= i < |rows| ==>
             && rows[i].course == grouped[i].key.course && rows[i].count == grouped[i].size
             && rows[i].courseTotal == Count(CourseColumn(filtered), Present(rows[i].course)) by {
      BreakdownMatchesGroups(data, years, courses);
    }
    CourseBatchLessIsStrictTotalOrder();
    PresentValuesAllPresent(CourseColumn(filtered));
    forall i | 0 <= i < |rows|
      ensures rows[i].courseTotal == CountForCourse(rows, rows[i].course)
      ensures rows[i].count <= rows[i].courseTotal
    {
      var c := rows[i].course;
      CountForCourseGroups(rows, grouped, c);
      GroupSizesWhere(keys, CourseBatchLess, OfCourse(c));
      CountCourse(names, keys, c);
      PresentValuesCount(CourseColumn(filtered), c);
      FilterCount(keys, OfCourse(c), grouped[i].key);
      assert Count(Filter(keys, OfCourse(c)), grouped[i].key) <= |Filter(keys, OfCourse(c))|;
    }
  }

  /** Each percentage is the row's count as a share of the whole table
      (count * 100 / table size) and lies in (0, 100]. */
  lemma BreakdownPercentages(data: seq<Record>, years: set<int>, courses: set<string>)
    ensures var rows := Breakdown(data, years, courses);
      forall i :: 0 <= i < |rows| ==>
        && rows[i].percentage == Percent(rows[i].count, |data|)
        && 0.0 < rows[i].percentage <= 100.0
  {
    var rows := Breakdown(data, years, courses);
    var grouped := CourseGroups(data, years, courses);
    BreakdownMatchesGroups(data, years, courses);
    forall i | 0 <= i < |rows|
      ensures rows[i].percentage == Percent(rows[i].count, |data|)
      ensures 0.0 < rows[i].percentage <= 100.0
    {
      var g := grouped[i];
      assert 1 <= g.size <= |data| by {
        assert g.size <= |CourseBatchKeys(CourseSelection(data, years, courses))|;
      }
      assert rows[i].count == g.size && rows[i].percentage == Percent(g.size, |data|);
    }
  }

  /** The percentages add up to the selected rows' share of the whole table,
      which is at most 100. */
  lemma BreakdownPercentagesSum(data: seq<Record>, years: set<int>, courses: set<string>)
    ensures |data| > 0 ==>
      SumReals(Map(Breakdown(data, years, courses), PercentageOf)) ==
      Percent(|CourseSelection(data, years, courses)|, |data|)
    ensures SumReals(Map(Breakdown(data, years, courses), PercentageOf)) <= 100.0
  {
    var rows := Breakdown(data, years, courses);
    BreakdownCounts(data, years, courses);
    if |data| == 0 {
      assert rows == [];
    } else {
      BreakdownPercentages(data, years, courses);
      PercentsAddUp(Map(rows, CountOf), Map(rows, PercentageOf), |data|);
    }
  }
}
