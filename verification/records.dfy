/**
 The alumni table: an immutable sequence of records, each with a batch
 (graduation year), a course and a university. A cell of the loaded table
 may be empty; an empty cell is never equal to a selected value, and counting
 and grouping skip it.
 */
module Records {
  import opened Seqs

  datatype Cell<T> = Missing | Present(value: T)

  datatype Record = Record(batch: Cell<int>, course: Cell<string>, university: Cell<string>)

  /** Whether a cell's value is among the chosen ones, as a membership mask
      over a column computes it: an empty cell is never chosen. */
  predicate Selected<T>(c: Cell<T>, chosen: set<T>) {
    c.Present? && c.value in chosen
  }

  /** The present values of a column, in table order: the column with its
      empty cells dropped. */
  function PresentValues<T(==,!new)>(cells: seq<Cell<T>>): (vs: seq<T>)
    ensures |vs| <= |cells|
    ensures forall v :: v in vs <==> Present(v) in cells
  {
    if cells == [] then []
    else match cells[0]
      case Present(v) => [v] + PresentValues(cells[1..])
      case Missing => PresentValues(cells[1..])
  }

  /** Dropping empty cells keeps the number of occurrences of every value. */
  lemma {:induction false} PresentValuesCount<T(!new)>(cells: seq<Cell<T>>, v: T)
    ensures Count(PresentValues(cells), v) == Count(cells, Present(v))
  {
    if cells != [] {
      PresentValuesCount(cells[1..], v);
      var rest := PresentValues(cells[1..]);
      match cells[0]
      case Present(w) =>
        assert PresentValues(cells) == [w] + rest;
        assert ([w] + rest)[1..] == rest;
      case Missing =>
        assert PresentValues(cells) == rest;
    }
  }

  /** The number of present values is the number of non-empty cells. */
  lemma {:induction false} PresentValuesLength<T(!new)>(cells: seq<Cell<T>>)
    ensures |PresentValues(cells)| == |cells| - Count(cells, Missing)
  {
    if cells != [] {
      PresentValuesLength(cells[1..]);
    }
  }

  /** A column without empty cells loses nothing when empty cells are dropped. */
  lemma {:induction false} PresentValuesAllPresent<T(!new)>(cells: seq<Cell<T>>)
    requires forall i :: 0 <= i < |cells| ==> cells[i].Present?
    ensures |PresentValues(cells)| == |cells|
    ensures forall i :: 0 <= i < |cells| ==> PresentValues(cells)[i] == cells[i].value
  {
    if cells != [] {
      PresentValuesAllPresent(cells[1..]);
      var rest := PresentValues(cells[1..]);
      assert PresentValues(cells) == [cells[0].value] + rest;
      forall i | 0 < i < |cells| ensures PresentValues(cells)[i] == cells[i].value {
        assert PresentValues(cells)[i] == rest[i - 1] && cells[1..][i - 1] == cells[i];
      }
    }
  }

  function CourseColumn(data: seq<Record>): (col: seq<Cell<string>>)
    ensures |col| == |data|
    ensures forall i :: 0 <= i < |data| ==> col[i] == data[i].course
  {
    seq(|data|, i requires 0 <= i < |data| => data[i].course)
  }

  function UniversityColumn(data: seq<Record>): (col: seq<Cell<string>>)
    ensures |col| == |data|
    ensures forall i :: 0 <= i < |data| ==> col[i] == data[i].university
  {
    seq(|data|, i requires 0 <= i < |data| => data[i].university)
  }
}
