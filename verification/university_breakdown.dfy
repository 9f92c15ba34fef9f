/**
 The "Number of Alumni by University" breakdown. The rows whose batch is
 among the selected years and whose university is among the selected
 universities are grouped by university and counted, and each count is
 expressed as a percentage of the whole table.
 */
module UniversityBreakdown {
  import opened Seqs
  import opened Orders
  import opened Records
  import opened Grouping
  import opened Shares

  predicate InUniversitySelection(r: Record, years: set<int>, universities: set<string>) {
    Selected(r.batch, years) && Selected(r.university, universities)
  }

  function UniversityMask(years: set<int>, universities: set<string>): Record -> bool {
    (r: Record) => InUniversitySelection(r, years, universities)
  }

  /** The rows of the table matching both the year and the university
      selection, in table order. */
  function UniversitySelection(data: seq<Record>, years: set<int>, universities: set<string>): (rows: seq<Record>)
    ensures |rows| <= |data|
    ensures forall i :: 0 <= i < |rows| ==> InUniversitySelection(rows[i], years, universities)
  {
    Filter(data, UniversityMask(years, universities))
  }

  /** Filter soundness and completeness: a row is selected, as often as it
      occurs in the table, iff its batch is a selected year and its university
      a selected university; an empty selection of either kind selects
      nothing. */
  lemma UniversitySelectionExact(data: seq<Record>, years: set<int>, universities: set<string>)
    ensures forall r :: r in UniversitySelection(data, years, universities) <==>
              r in data && r.batch.Present? && r.batch.value in years
                        && r.university.Present? && r.university.value in universities
    ensures forall r :: Count(UniversitySelection(data, years, universities), r) ==
              if InUniversitySelection(r, years, universities) then Count(data, r) else 0
    ensures years == {} || universities == {} ==> UniversitySelection(data, years, universities) == []
  {
    forall r ensures Count(UniversitySelection(data, years, universities), r) ==
                     if InUniversitySelection(r, years, universities) then Count(data, r) else 0 {
      FilterCount(data, UniversityMask(years, universities), r);
    }
    if years == {} || universities == {} {
      FilterNone(data, UniversityMask(years, universities));
    }
  }

  /** The university groups of the selected rows, with their sizes. */
  function UniversityGroups(data: seq<Record>, years: set<int>, universities: set<string>): (gs: seq<Group<string>>)
    ensures |gs| <= |UniversitySelection(data, years, universities)|
  {
    var filtered := UniversitySelection(data, years, universities);
    var gs := GroupSizes(PresentValues(UniversityColumn(filtered)), TextLess);
    assert |PresentValues(UniversityColumn(filtered))| <= |filtered|;
    gs
  }

  datatype UniversityRow = UniversityRow(university: string, count: nat, percentage: real)

  /** One chart row per group: its university, its size, and the size as a
      share of a table of `tableSize` rows. */
  function WithPercentages(grouped: seq<Group<string>>, tableSize: nat): (rows: seq<UniversityRow>)
    requires grouped == [] || tableSize > 0
    ensures |rows| == |grouped|
    ensures forall i :: 0 <= i < |rows| ==>
              && rows[i].university == grouped[i].key && rows[i].count == grouped[i].size
              && rows[i].percentage == Percent(rows[i].count, tableSize)
  {
    seq(|grouped|, i requires 0 <= i < |grouped| =>
      UniversityRow(grouped[i].key, grouped[i].size, Percent(grouped[i].size, tableSize)))
  }

  /** The university groups are in strictly ascending university order and
      each counts the selected rows of its university. */
  lemma UniversityGroupsMeaning(data: seq<Record>, years: set<int>, universities: set<string>)
    ensures var grouped := UniversityGroups(data, years, universities);
      forall i, j :: 0 <= i < j < |grouped| ==> TextLess(grouped[i].key, grouped[j].key)
    ensures var grouped := UniversityGroups(data, years, universities);
      var column := UniversityColumn(UniversitySelection(data, years, universities));
      forall i :: 0 <= i < |grouped| ==> 1 <= grouped[i].size == Count(column, Present(grouped[i].key))
  {
    var column := UniversityColumn(UniversitySelection(data, years, universities));
    var grouped := UniversityGroups(data, years, universities);
    TextLessIsStrictTotalOrder();
    GroupSizesSorted(PresentValues(column), TextLess);
    forall i, j | 0 <= i < j < |grouped| ensures TextLess(grouped[i].key, grouped[j].key) {
      assert Keys(grouped)[i] == grouped[i].key && Keys(grouped)[j] == grouped[j].key;
    }
    forall i | 0 <= i < |grouped| ensures grouped[i].size == Count(column, Present(grouped[i].key)) {
      PresentValuesCount(column, grouped[i].key);
    }
  }

  /** The university chart's table for the given table and selections: one
      row per university of the selected rows, in ascending order, counting
      that university's selected rows and giving the count as a share of the
      whole table. */
  function Breakdown(data: seq<Record>, years: set<int>, universities: set<string>): (rows: seq<UniversityRow>)
    ensures |rows| == |UniversityGroups(data, years, universities)|
    ensures forall i, j :: 0 <= i < j < |rows| ==> TextLess(rows[i].university, rows[j].university)
    ensures forall i :: 0 <= i < |rows| ==>
              1 <= rows[i].count == Count(UniversityColumn(UniversitySelection(data, years, universities)),
                                          Present(rows[i].university))
    ensures forall i :: 0 <= i < |rows| ==> rows[i].percentage == Percent(rows[i].count, |data|)
  {
    UniversityGroupsMeaning(data, years, universities);
    WithPercentages(UniversityGroups(data, years, universities), |data|)
  }

  /** The Count column of a chart table. */
  function CountOf(r: UniversityRow): nat {
    r.count
  }

  /** The Percentage column of a chart table. */
  function PercentageOf(r: UniversityRow): real {
    r.percentage
  }

  /** Key uniqueness: the rows are in strictly ascending university order,
      so no university has two rows. */
  lemma BreakdownKeysUnique(data: seq<Record>, years: set<int>, universities: set<string>)
    ensures var rows := Breakdown(data, years, universities);
      forall i, j :: 0 <= i < j < |rows| ==> TextLess(rows[i].university, rows[j].university)
    ensures var rows := Breakdown(data, years, universities);
      forall i, j :: 0 <= i < j < |rows| ==> rows[i].university != rows[j].university
  {
    TextLessIsStrictTotalOrder();
  }

  /** Key completeness: every selected row of the table has the row of its
      university. */
  lemma BreakdownKeysComplete(data: seq<Record>, years: set<int>, universities: set<string>)
    ensures var rows := Breakdown(data, years, universities);
      forall r :: r in data && InUniversitySelection(r, years, universities) ==>
        exists i :: 0 <= i < |rows| && rows[i].university == r.university.value
  {
    var rows := Breakdown(data, years, universities);
    var filtered := UniversitySelection(data, years, universities);
    var grouped := UniversityGroups(data, years, universities);
    UniversitySelectionExact(data, years, universities);
    forall r | r in data && InUniversitySelection(r, years, universities)
      ensures exists i :: 0 <= i < |rows| && rows[i].university == r.university.value
    {
      assert r in filtered;
      var j :| 0 <= j < |filtered| && filtered[j] == r;
      assert UniversityColumn(filtered)[j] == Present(r.university.value);
      assert r.university.value in Keys(grouped);
      var i :| 0 <= i < |grouped| && Keys(grouped)[i] == r.university.value;
      assert rows[i].university == r.university.value;
    }
  }

  /** Key soundness: every row's university is that of some selected row of
      the table. */
  lemma BreakdownKeysSound(data: seq<Record>, years: set<int>, universities: set<string>)
    ensures var rows := Breakdown(data, years, universities);
      forall i :: 0 <= i < |rows| ==>
        exists r :: r in data && InUniversitySelection(r, years, universities)
                    && r.university.value == rows[i].university
  {
    var rows := Breakdown(data, years, universities);
    var filtered := UniversitySelection(data, years, universities);
    var column := UniversityColumn(filtered);
    var grouped := UniversityGroups(data, years, universities);
    UniversitySelectionExact(data, years, universities);
    forall i | 0 <= i < |rows|
      ensures exists r :: r in data && InUniversitySelection(r, years, universities)
                          && r.university.value == rows[i].university
    {
      var u := grouped[i].key;
      assert Keys(grouped)[i] == u;
      assert Present(u) in column;
      var j :| 0 <= j < |column| && column[j] == Present(u);
      var r := filtered[j];
      assert r in filtered;
      assert r.university.value == rows[i].university;
    }
  }

  /** Count conservation: every row counts at least one selected row, its
      count is the number of selected rows of its university, and the counts
      add up to the number of selected rows. */
  lemma BreakdownCounts(data: seq<Record>, years: set<int>, universities: set<string>)
    ensures var rows := Breakdown(data, years, universities);
      var filtered := UniversitySelection(data, years, universities);
      forall i :: 0 <= i < |rows| ==>
        1 <= rows[i].count == Count(UniversityColumn(filtered), Present(rows[i].university))
    ensures SumNats(Map(Breakdown(data, years, universities), CountOf)) == |UniversitySelection(data, years, universities)|
  {
    var rows := Breakdown(data, years, universities);
    var filtered := UniversitySelection(data, years, universities);
    var column := UniversityColumn(filtered);
    var names := PresentValues(column);
    var grouped := UniversityGroups(data, years, universities);
    TextLessIsStrictTotalOrder();
    GroupSizesConserve(names, TextLess);
    PresentValuesAllPresent(column);
    SizesAddUp(Map(rows, CountOf), grouped);
  }

  /** Each percentage is the row's count as a share of the whole table
      (count * 100 / table size) and lies in (0, 100]. */
  lemma BreakdownPercentages(data: seq<Record>, years: set<int>, universities: set<string>)
    ensures var rows := Breakdown(data, years, universities);
      forall i :: 0 <= i < |rows| ==>
        && rows[i].percentage == Percent(rows[i].count, |data|)
        && 0.0 < rows[i].percentage <= 100.0
  {
    var rows := Breakdown(data, years, universities);
    var grouped := UniversityGroups(data, years, universities);
    forall i | 0 <= i < |rows|
      ensures rows[i].percentage == Percent(rows[i].count, |data|)
      ensures 0.0 < rows[i].percentage <= 100.0
    {
      var g := grouped[i];
      var filtered := UniversitySelection(data, years, universities);
      assert 1 <= g.size <= |data| by {
        assert g.size <= |PresentValues(UniversityColumn(filtered))| <= |filtered|;
      }
    }
  }

  /** The percentages add up to the selected rows' share of the whole table,
      which is at most 100. */
  lemma BreakdownPercentagesSum(data: seq<Record>, years: set<int>, universities: set<string>)
    ensures |data| > 0 ==>
      SumReals(Map(Breakdown(data, years, universities), PercentageOf)) ==
      Percent(|UniversitySelection(data, years, universities)|, |data|)
    ensures SumReals(Map(Breakdown(data, years, universities), PercentageOf)) <= 100.0
  {
    var rows := Breakdown(data, years, universities);
    BreakdownCounts(data, years, universities);
    if |data| == 0 {
      assert rows == [];
    } else {
      BreakdownPercentages(data, years, universities);
      PercentsAddUp(Map(rows, CountOf), Map(rows, PercentageOf), |data|);
    }
  }
}
