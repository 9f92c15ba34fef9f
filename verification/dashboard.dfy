/**
 One render pass of the dashboard as a pure function of the table and the
 three selections: the two breakdown panels, each drawn only when enough
 values are selected, and the two top-N frequency views, which ignore the
 selections.
 */
module Dashboard {
  import opened Seqs
  import opened Records
  import opened Grouping
  import opened ValueCounts
  import CourseBreakdown
  import UniversityBreakdown

  /** Fewest selected courses (or universities) for which a chart is drawn. */
  const MinSelectedForChart: nat := 3

  /** A chart with its table, or the caption shown in its place. */
  datatype Panel<T> = Chart(rows: seq<T>) | Caption

  datatype Selection = Selection(years: set<int>, courses: set<string>, universities: set<string>)

  datatype View = View(
    byCourse: Panel<CourseBreakdown.CourseYearRow>,
    byUniversity: Panel<UniversityBreakdown.UniversityRow>,
    topCourses: seq<Group<string>>,
    topUniversities: seq<Group<string>>)

  /** The render guard: the chart is drawn iff at least three values are
      selected, and then shows exactly its table; otherwise only the caption. */
  function Guard<T>(selected: set<string>, rows: seq<T>): (p: Panel<T>)
    ensures p.Chart? <==> |selected| >= MinSelectedForChart
    ensures p.Chart? ==> p.rows == rows
  {
    if |selected| < MinSelectedForChart then Caption else Chart(rows)
  }

  function Render(data: seq<Record>, sel: Selection): (v: View)
    ensures v.byCourse.Chart? <==> |sel.courses| >= MinSelectedForChart
    ensures v.byCourse.Chart? ==>
              v.byCourse.rows == CourseBreakdown.Breakdown(data, sel.years, sel.courses)
    ensures v.byUniversity.Chart? <==> |sel.universities| >= MinSelectedForChart
    ensures v.byUniversity.Chart? ==>
              v.byUniversity.rows == UniversityBreakdown.Breakdown(data, sel.years, sel.universities)
    ensures |v.topCourses| == Min(TopCoursesShown, |DistinctValues(CourseColumn(data))|)
    ensures |v.topUniversities| == Min(TopUniversitiesShown, |DistinctValues(UniversityColumn(data))|)
  {
    View(
      Guard(sel.courses, CourseBreakdown.Breakdown(data, sel.years, sel.courses)),
      Guard(sel.universities, UniversityBreakdown.Breakdown(data, sel.years, sel.universities)),
      TopCourses(data),
      TopUniversities(data))
  }

  /** Exactly two selected courses show the caption, three show the chart. */
  lemma GuardThreshold(data: seq<Record>, years: set<int>, two: set<string>, three: set<string>)
    requires |two| == 2 && |three| == 3
    ensures Render(data, Selection(years, two, {})).byCourse == Caption
    ensures Render(data, Selection(years, three, {})).byCourse.Chart?
  {
  }

  /** The top-N views depend on the table only, never on the selections. */
  lemma TopViewsIgnoreSelection(data: seq<Record>, a: Selection, b: Selection)
    ensures Render(data, a).topCourses == Render(data, b).topCourses
    ensures Render(data, a).topUniversities == Render(data, b).topUniversities
  {
  }
}
