/**
 Frequency tables over one column of the whole, unfiltered table: the
 distinct present values with their number of occurrences, most frequent
 first, and the top-N views taken from their head. The order among values
 of equal frequency is not specified by the dashboard; this model keeps
 them in ascending text order.
 */
module ValueCounts {
  import opened Seqs
  import opened Orders
  import opened Records
  import opened Grouping

  /** Sizes never increase along the sequence. */
  ghost predicate NonIncreasing<K>(gs: seq<Group<K>>) {
    forall i, j :: 0 <= i < j < |gs| ==> gs[j].size <= gs[i].size
  }

  /** Places `g` before the first group that is not larger than it. */
  function InsertBySize<K>(g: Group<K>, gs: seq<Group<K>>): (r: seq<Group<K>>)
    ensures |r| == |gs| + 1
    ensures multiset(r) == multiset(gs) + multiset{g}
  {
    if gs == [] || gs[0].size <= g.size then [g] + gs
    else
      assert gs == [gs[0]] + gs[1..];
      [gs[0]] + InsertBySize(g, gs[1..])
  }

  /** Stable insertion sort by descending size: a permutation of its input. */
  function SortBySize<K>(gs: seq<Group<K>>): (r: seq<Group<K>>)
    ensures |r| == |gs|
    ensures multiset(r) == multiset(gs)
  {
    if gs == [] then []
    else
      assert gs == [gs[0]] + gs[1..];
      InsertBySize(gs[0], SortBySize(gs[1..]))
  }

  /** Inserting keeps every size under a common bound. */
  lemma {:induction false} InsertBySizeBound<K>(g: Group<K>, gs: seq<Group<K>>, bound: nat)
    requires g.size <= bound
    requires forall i :: 0 <= i < |gs| ==> gs[i].size <= bound
    ensures forall i :: 0 <= i < |InsertBySize(g, gs)| ==> InsertBySize(g, gs)[i].size <= bound
  {
    if gs != [] && gs[0].size > g.size {
      InsertBySizeBound(g, gs[1..], bound);
    }
  }

  lemma {:induction false} InsertBySizeOrdered<K>(g: Group<K>, gs: seq<Group<K>>)
    requires NonIncreasing(gs)
    ensures NonIncreasing(InsertBySize(g, gs))
  {
    if gs != [] && gs[0].size > g.size {
      var tail := gs[1..];
      assert NonIncreasing(tail) by {
        forall i, j | 0 <= i < j < |tail| ensures tail[j].size <= tail[i].size {
          assert tail[i] == gs[i + 1] && tail[j] == gs[j + 1];
        }
      }
      InsertBySizeOrdered(g, tail);
      var rest := InsertBySize(g, tail);
      assert forall i :: 0 <= i < |tail| ==> tail[i].size <= gs[0].size by {
        forall i | 0 <= i < |tail| ensures tail[i].size <= gs[0].size {
          assert tail[i] == gs[i + 1];
        }
      }
      InsertBySizeBound(g, tail, gs[0].size);
      var r := [gs[0]] + rest;
      forall i, j | 0 <= i < j < |r| ensures r[j].size <= r[i].size {
        assert r[j] == rest[j - 1];
        if i > 0 {
          assert r[i] == rest[i - 1];
        }
      }
    }
  }

  lemma {:induction false} SortBySizeOrdered<K>(gs: seq<Group<K>>)
    ensures NonIncreasing(SortBySize(gs))
  {
    if gs != [] {
      SortBySizeOrdered(gs[1..]);
      InsertBySizeOrdered(gs[0], SortBySize(gs[1..]));
    }
  }

  lemma {:induction false} InsertBySizeTotal<K>(g: Group<K>, gs: seq<Group<K>>)
    ensures TotalSize(InsertBySize(g, gs)) == TotalSize(gs) + g.size
  {
    if gs != [] && gs[0].size > g.size {
      InsertBySizeTotal(g, gs[1..]);
      assert ([gs[0]] + InsertBySize(g, gs[1..]))[1..] == InsertBySize(g, gs[1..]);
    } else {
      assert ([g] + gs)[1..] == gs;
    }
  }

  lemma {:induction false} SortBySizeTotal<K>(gs: seq<Group<K>>)
    ensures TotalSize(SortBySize(gs)) == TotalSize(gs)
  {
    if gs != [] {
      SortBySizeTotal(gs[1..]);
      InsertBySizeTotal(gs[0], SortBySize(gs[1..]));
    }
  }

  lemma {:induction false} InsertBySizeUnique<K>(g: Group<K>, gs: seq<Group<K>>)
    requires UniqueKeys(gs)
    requires forall i :: 0 <= i < |gs| ==> gs[i].key != g.key
    ensures UniqueKeys(InsertBySize(g, gs))
  {
    if gs != [] && gs[0].size > g.size {
      var tail := gs[1..];
      InsertBySizeUnique(g, tail);
      var rest := InsertBySize(g, tail);
      forall x | x in rest ensures x.key != gs[0].key {
        assert x in multiset(rest);
        if x != g {
          var j :| 0 <= j < |tail| && tail[j] == x;
          assert gs[j + 1] == x;
        }
      }
      var r := [gs[0]] + rest;
      forall i, j | 0 <= i < j < |r| ensures r[i].key != r[j].key {
        if i == 0 {
          assert r[j] == rest[j - 1] && r[j] in rest;
        } else {
          assert r[i] == rest[i - 1] && r[j] == rest[j - 1];
        }
      }
    }
  }

  lemma {:induction false} SortBySizeUnique<K>(gs: seq<Group<K>>)
    requires UniqueKeys(gs)
    ensures UniqueKeys(SortBySize(gs))
  {
    if gs != [] {
      var tail := gs[1..];
      assert UniqueKeys(tail) by {
        forall i, j | 0 <= i < j < |tail| ensures tail[i].key != tail[j].key {
          assert tail[i] == gs[i + 1] && tail[j] == gs[j + 1];
        }
      }
      SortBySizeUnique(tail);
      var rest := SortBySize(tail);
      forall i | 0 <= i < |rest| ensures rest[i].key != gs[0].key {
        assert rest[i] in multiset(tail);
        var j :| 0 <= j < |tail| && tail[j] == rest[i];
        assert gs[j + 1] == rest[i];
      }
      InsertBySizeUnique(gs[0], rest);
    }
  }

  /** Two orderings of the same groups list the same keys. */
  lemma KeysOfPermutation<K>(a: seq<Group<K>>, b: seq<Group<K>>)
    requires multiset(a) == multiset(b)
    ensures forall k :: k in Keys(a) <==> k in Keys(b)
  {
    forall k | k in Keys(a) ensures k in Keys(b) {
      var i :| 0 <= i < |a| && Keys(a)[i] == k;
      assert a[i] in multiset(b);
      var j :| 0 <= j < |b| && b[j] == a[i];
      assert Keys(b)[j] == k;
    }
    forall k | k in Keys(b) ensures k in Keys(a) {
      var j :| 0 <= j < |b| && Keys(b)[j] == k;
      assert b[j] in multiset(a);
      var i :| 0 <= i < |a| && a[i] == b[j];
      assert Keys(a)[i] == k;
    }
  }

  /** The distinct present values of a column. */
  ghost function DistinctValues(col: seq<Cell<string>>): set<string> {
    set v | v in PresentValues(col)
  }

  /** Frequency of each distinct present value of a column, most frequent
      first: one group per present value, sized by its occurrences. */
  function ValueCounts(col: seq<Cell<string>>): (vc: seq<Group<string>>)
    ensures forall v :: v in Keys(vc) <==> Present(v) in col
    ensures forall i :: 0 <= i < |vc| ==> 1 <= vc[i].size == Count(col, Present(vc[i].key))
  {
    var gs := GroupSizes(PresentValues(col), TextLess);
    var vc := SortBySize(gs);
    KeysOfPermutation(vc, gs);
    forall i | 0 <= i < |vc| ensures 1 <= vc[i].size == Count(col, Present(vc[i].key)) {
      assert vc[i] in multiset(gs);
      PresentValuesCount(col, vc[i].key);
    }
    vc
  }

  /** The frequency table is in non-increasing order of count. */
  lemma ValueCountsOrdered(col: seq<Cell<string>>)
    ensures NonIncreasing(ValueCounts(col))
  {
    SortBySizeOrdered(GroupSizes(PresentValues(col), TextLess));
  }

  /** No value is listed twice. */
  lemma ValueCountsUnique(col: seq<Cell<string>>)
    ensures UniqueKeys(ValueCounts(col))
  {
    var values := PresentValues(col);
    TextLessIsStrictTotalOrder();
    GroupSizesSorted(values, TextLess);
    SortBySizeUnique(GroupSizes(values, TextLess));
  }

  /** The counts add up to the number of non-empty cells of the column. */
  lemma ValueCountsConserve(col: seq<Cell<string>>)
    ensures TotalSize(ValueCounts(col)) == |col| - Count(col, Missing)
  {
    var values := PresentValues(col);
    TextLessIsStrictTotalOrder();
    GroupSizesConserve(values, TextLess);
    SortBySizeTotal(GroupSizes(values, TextLess));
    PresentValuesLength(col);
  }

  /** One row per distinct present value. */
  lemma ValueCountsLength(col: seq<Cell<string>>)
    ensures |ValueCounts(col)| == |DistinctValues(col)|
  {
    var vc := ValueCounts(col);
    ValueCountsUnique(col);
    var ks := Keys(vc);
    assert NoDup(ks) by {
      forall i, j | 0 <= i < j < |ks| ensures ks[i] != ks[j] {
        assert ks[i] == vc[i].key && ks[j] == vc[j].key;
      }
    }
    NoDupCardinality(ks);
    assert (set k | k in ks) == DistinctValues(col);
  }

  const TopCoursesShown: nat := 5
  const TopUniversitiesShown: nat := 3

  /** The `n` most frequent present values of a column: a prefix of its
      frequency table, as long as the table allows, and no value left out of
      it is more frequent than one kept. */
  function TopValues(col: seq<Cell<string>>, n: nat): (top: seq<Group<string>>)
    ensures |top| == Min(n, |ValueCounts(col)|) == Min(n, |DistinctValues(col)|)
    ensures forall i :: 0 <= i < |top| ==> top[i] == ValueCounts(col)[i]
    ensures NonIncreasing(top)
    ensures forall i, j :: 0 <= i < |top| <= j < |ValueCounts(col)| ==>
              ValueCounts(col)[j].size <= top[i].size
  {
    var vc := ValueCounts(col);
    ValueCountsLength(col);
    ValueCountsOrdered(col);
    var top := Head(vc, n);
    assert NonIncreasing(top) by {
      forall i, j | 0 <= i < j < |top| ensures top[j].size <= top[i].size {
        assert top[i] == vc[i] && top[j] == vc[j];
      }
    }
    top
  }

  /** The top-5 course view: depends on the whole table only. */
  function TopCourses(data: seq<Record>): (top: seq<Group<string>>)
    ensures |top| == Min(TopCoursesShown, |DistinctValues(CourseColumn(data))|)
    ensures forall i :: 0 <= i < |top| ==>
              top[i].size == Count(CourseColumn(data), Present(top[i].key))
  {
    TopValues(CourseColumn(data), TopCoursesShown)
  }

  /** The top-3 university view: depends on the whole table only. */
  function TopUniversities(data: seq<Record>): (top: seq<Group<string>>)
    ensures |top| == Min(TopUniversitiesShown, |DistinctValues(UniversityColumn(data))|)
    ensures forall i :: 0 <= i < |top| ==>
              top[i].size == Count(UniversityColumn(data), Present(top[i].key))
  {
    TopValues(UniversityColumn(data), TopUniversitiesShown)
  }
}
