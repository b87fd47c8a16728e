/** The column filter of the anomaly-detection toolkit's data-processing
    primitives: a transformer that drops every column of a data frame whose
    cell in the last row is NaN, and keeps the other columns, unchanged and
    in their original order. */
module ColumnFilter {

  // ---------------------------------------------------------------------
  // Data model
  // ---------------------------------------------------------------------

  /** A cell of a numeric column. NaN is its own constructor, so no IEEE
      floating point is needed to tell it from an ordinary value. */
  datatype Cell = Num(value: real) | NaN

  /** A column of a data frame: its name and its cells, top row first. */
  datatype Column = Column(name: string, cells: seq<Cell>)

  /** A data frame: the length of its row index and its columns, left to
      right. Selecting columns keeps the row index, so a frame with no
      columns still has a row count. */
  datatype Frame = Frame(rows: nat, columns: seq<Column>)
  {
    /** Every column has one cell per row. */
    predicate Valid()
    {
      forall j :: 0 <= j < |columns| ==> |columns[j].cells| == rows
    }
  }

  /** The exception the filter can raise: reading the last cell of a column
      that has no rows. */
  datatype Error = IndexError

  datatype Result<T> = Success(value: T) | Failure(error: Error)

  /** Choices of the `return_result` hyperparameter. */
  datatype ReturnResult = Append | Replace | New

  datatype Option<T> = None | Some(value: T)

  /** The hyperparameters the primitive is constructed with. `produce` never
      reads any of them. */
  datatype Hyperparams = Hyperparams(
    dataframeResource: Option<string>,
    useColumns: set<int>,
    excludeColumns: set<int>,
    returnResult: ReturnResult,
    useSemanticTypes: bool,
    addIndexColumns: bool,
    errorOnNoInput: bool,
    returnSemanticType: string)

  // ---------------------------------------------------------------------
  // Specification
  // ---------------------------------------------------------------------

  /** The test applied to each column: it has a last cell and that cell is
      not NaN. */
  predicate HasValueInLastRow(c: Column)
  {
    |c.cells| > 0 && !c.cells[|c.cells| - 1].NaN?
  }

  predicate StrictlyIncreasing(s: seq<nat>)
  {
    forall a, b :: 0 <= a < b < |s| ==> s[a] < s[b]
  }

  /** The indices of the columns that are kept, in the order the scan meets
      them: the scan of the first |columns| - 1 columns, followed by the last
      index when that column passes the test. */
  function KeptIndices(columns: seq<Column>): (idx: seq<nat>)
    ensures |idx| <= |columns|
    ensures forall k :: 0 <= k < |idx| ==> idx[k] < |columns|
    decreases |columns|
  {
    if columns == [] then []
    else
      var n := |columns| - 1;
      KeptIndices(columns[..n]) + (if HasValueInLastRow(columns[n]) then [n] else [])
  }

  /** Positional selection of columns (`iloc[:, idx]`): every row stays, and
      output column k is input column idx[k]. */
  function Project(f: Frame, idx: seq<nat>): (r: Frame)
    requires forall k :: 0 <= k < |idx| ==> idx[k] < |f.columns|
    ensures r.rows == f.rows && |r.columns| == |idx|
    ensures forall k :: 0 <= k < |idx| ==> r.columns[k] == f.columns[idx[k]]
    ensures f.Valid() ==> r.Valid()
  {
    Frame(f.rows, seq(|idx|, k requires 0 <= k < |idx| => f.columns[idx[k]]))
  }

  /** What `produce` computes: an IndexError when some column has no last
      cell, otherwise the frame restricted to the kept columns. */
  function Filter(f: Frame): Result<Frame>
    requires f.Valid()
  {
    if |f.columns| > 0 && f.rows == 0 then Failure(IndexError)
    else Success(Project(f, KeptIndices(f.columns)))
  }

  /** Independent description of a filter result: `out` has the rows of `f`
      and its columns are the columns of `f` at the positions `idx`. */
  ghost predicate SelectsColumns(out: Frame, f: Frame, idx: seq<nat>)
  {
    && out.rows == f.rows
    && |out.columns| == |idx|
    && (forall k :: 0 <= k < |idx| ==> idx[k] < |f.columns| && out.columns[k] == f.columns[idx[k]])
  }

  /** `idx` lists, in increasing order, exactly the positions of the columns
      of `f` that pass the test. */
  ghost predicate KeepsExactly(f: Frame, idx: seq<nat>)
  {
    && StrictlyIncreasing(idx)
    && (forall j: nat :: j in idx <==> j < |f.columns| && HasValueInLastRow(f.columns[j]))
  }

  // ---------------------------------------------------------------------
  // Properties of the kept index sequence
  // ---------------------------------------------------------------------

  /** The kept indices are strictly increasing: the kept columns stay in
      their original relative order. */
  lemma {:induction false} KeptIndicesIncreasing(columns: seq<Column>)
    ensures StrictlyIncreasing(KeptIndices(columns))
  {
    if columns != [] {
      KeptIndicesIncreasing(columns[..|columns| - 1]);
    }
  }

  /** An index is kept exactly when it names a column that passes the test
      (soundness and completeness of the scan). */
  lemma {:induction false} KeptIndicesMembers(columns: seq<Column>, j: nat)
    ensures j in KeptIndices(columns) <==> j < |columns| && HasValueInLastRow(columns[j])
  {
    if columns != [] {
      var n := |columns| - 1;
      var init := columns[..n];
      KeptIndicesMembers(init, j);
      var prefix := KeptIndices(init);
      assert KeptIndices(columns) == prefix + (if HasValueInLastRow(columns[n]) then [n] else []);
      if j in prefix {
        var k :| 0 <= k < |prefix| && prefix[k] == j;
      }
    }
  }

  /** When every column passes the test, every index is kept, in order. */
  lemma {:induction false} KeptIndicesAll(columns: seq<Column>)
    requires forall j :: 0 <= j < |columns| ==> HasValueInLastRow(columns[j])
    ensures |KeptIndices(columns)| == |columns|
    ensures forall k :: 0 <= k < |columns| ==> KeptIndices(columns)[k] == k
  {
    if columns != [] {
      KeptIndicesAll(columns[..|columns| - 1]);
    }
  }

  /** Dropping the last element of a strictly increasing sequence leaves
      exactly the elements below that last one. */
  lemma InitOfIncreasing(s: seq<nat>, x: nat)
    requires StrictlyIncreasing(s) && s != []
    ensures x in s[..|s| - 1] <==> x in s && x < s[|s| - 1]
  {
  }

  /** A strictly increasing sequence is determined by its set of elements. */
  lemma {:induction false} IncreasingDeterminedByElements(s: seq<nat>, t: seq<nat>)
    requires StrictlyIncreasing(s) && StrictlyIncreasing(t)
    requires forall x :: x in s <==> x in t
    ensures s == t
    decreases |s|
  {
    if s != [] {
      assert s[|s| - 1] in t;
    }
    if t != [] {
      assert t[|t| - 1] in s;
    }
    if s != [] {
      var m, n := s[|s| - 1], t[|t| - 1];
      var i :| 0 <= i < |t| && t[i] == m;
      var j :| 0 <= j < |s| && s[j] == n;
      assert m <= n && n <= m;
      var s', t' := s[..|s| - 1], t[..|t| - 1];
      forall x
        ensures x in s' <==> x in t'
      {
        InitOfIncreasing(s, x);
        InitOfIncreasing(t, x);
      }
      IncreasingDeterminedByElements(s', t');
      assert s == s' + [m];
      assert t == t' + [n];
    }
  }

  // ---------------------------------------------------------------------
  // Properties of the filter
  // ---------------------------------------------------------------------

  /** The filter fails exactly when the frame has columns but no rows. */
  lemma FilterFailsOnlyWithoutRows(f: Frame)
    requires f.Valid()
    ensures Filter(f).Failure? <==> |f.columns| > 0 && f.rows == 0
    ensures Filter(f).Failure? ==> exists j :: 0 <= j < |f.columns| && f.columns[j].cells == []
  {
    if |f.columns| > 0 && f.rows == 0 {
      assert f.columns[0].cells == [];
    }
  }

  /** A successful filter meets the independent description: it keeps every
      row and selects the columns at the kept positions, which are exactly
      the positions of the columns with a value in their last row, in
      increasing order; the output is a well-formed frame with no more
      columns than the input. */
  lemma FilterMeetsDescription(f: Frame)
    requires f.Valid() && Filter(f).Success?
    ensures SelectsColumns(Filter(f).value, f, KeptIndices(f.columns))
    ensures KeepsExactly(f, KeptIndices(f.columns))
    ensures Filter(f).value.Valid() && |Filter(f).value.columns| <= |f.columns|
  {
    KeptIndicesIncreasing(f.columns);
    forall j: nat
      ensures j in KeptIndices(f.columns) <==> j < |f.columns| && HasValueInLastRow(f.columns[j])
    {
      KeptIndicesMembers(f.columns, j);
    }
  }

  /** Conversely, any frame that meets the description is the filter's
      result, so the description determines the result. */
  lemma DescriptionDeterminesFilter(f: Frame, out: Frame, idx: seq<nat>)
    requires f.Valid() && (|f.columns| > 0 ==> f.rows > 0)
    requires SelectsColumns(out, f, idx) && KeepsExactly(f, idx)
    ensures Filter(f) == Success(out)
  {
    var kept := KeptIndices(f.columns);
    FilterMeetsDescription(f);
    IncreasingDeterminedByElements(idx, kept);
    var r := Project(f, kept);
    assert r.columns == out.columns;
  }

  /** Soundness: every column of the output has a value in its last row. */
  lemma FilterSound(f: Frame)
    requires f.Valid() && Filter(f).Success?
    ensures forall k :: 0 <= k < |Filter(f).value.columns| ==> HasValueInLastRow(Filter(f).value.columns[k])
  {
    var kept := KeptIndices(f.columns);
    forall k | 0 <= k < |Filter(f).value.columns|
      ensures HasValueInLastRow(Filter(f).value.columns[k])
    {
      assert kept[k] in kept;
      KeptIndicesMembers(f.columns, kept[k]);
    }
  }

  /** Completeness: every input column with a value in its last row is in
      the output, unchanged. */
  lemma FilterComplete(f: Frame, j: nat)
    requires f.Valid() && Filter(f).Success?
    requires j < |f.columns| && HasValueInLastRow(f.columns[j])
    ensures f.columns[j] in Filter(f).value.columns
  {
    var kept := KeptIndices(f.columns);
    KeptIndicesMembers(f.columns, j);
    var k :| 0 <= k < |kept| && kept[k] == j;
    assert Filter(f).value.columns[k] == f.columns[j];
  }

  /** Filtering the output of the filter again changes nothing. */
  lemma FilterIdempotent(f: Frame)
    requires f.Valid() && Filter(f).Success?
    ensures Filter(f).value.Valid()
    ensures Filter(Filter(f).value) == Filter(f)
  {
    var out := Filter(f).value;
    FilterSound(f);
    KeptIndicesAll(out.columns);
    if |out.columns| > 0 {
      assert |out.columns[0].cells| > 0;
    }
    assert Project(out, KeptIndices(out.columns)).columns == out.columns;
  }

  // ---------------------------------------------------------------------
  // The primitive
  // ---------------------------------------------------------------------

  class ColumnFilterPrimitive {
    const hyperparams: Hyperparams

    constructor (hyperparams: Hyperparams)
      ensures this.hyperparams == hyperparams
    {
      this.hyperparams := hyperparams;
    }

    /** Scans the columns left to right, collecting the index of each column
        whose last cell is not NaN, then selects those columns. The result
        depends on the input frame alone, not on the hyperparameters. */
    method Produce(inputs: Frame) returns (r: Result<Frame>)
      requires inputs.Valid()
      ensures r == Filter(inputs)
      ensures r.Failure? <==> |inputs.columns| > 0 && inputs.rows == 0
    {
      var indexToKeep: seq<nat> := [];
      for i := 0 to |inputs.columns|
        invariant indexToKeep == KeptIndices(inputs.columns[..i])
        invariant i > 0 ==> inputs.rows > 0
      {
        var cellsToCheck := inputs.columns[i].cells;
        if |cellsToCheck| == 0 {
          return Failure(IndexError);
        }
        assert inputs.columns[..i + 1][..i] == inputs.columns[..i];
        if !cellsToCheck[|cellsToCheck| - 1].NaN? {
          indexToKeep := indexToKeep + [i];
        }
      }
      assert inputs.columns[..|inputs.columns|] == inputs.columns;
      r := Success(Project(inputs, indexToKeep));
    }
  }
}
