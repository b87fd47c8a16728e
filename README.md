# Column filter primitive

A model of the column filter transformer of the TODS time-series
anomaly-detection toolkit (`ColumnFilterPrimitive` in
`tods/data_processing/ColumnFilter.py`). Its `produce` step scans the columns
of a data frame left to right. It collects the index of every column whose
cell in the last row is not NaN, and then selects those columns by position.
Everything else in the toolkit delegates to external libraries.

The model lives in one module, `ColumnFilter` (`column_filter.dfy`):

- `Cell` is `Num(real)` or `NaN`. `Column` is a name and a sequence of cells.
  `Frame` is a row count and a sequence of columns. `Frame.Valid()` says every
  column has one cell per row.
- `KeptIndices` is the scan as a pure function. `Project` is positional column
  selection (`iloc[:, idx]`). `Filter` is what `produce` returns: an
  `IndexError` when the frame has columns but no rows, otherwise the frame
  restricted to the kept columns.
- `SelectsColumns` and `KeepsExactly` together give an independent
  description of a correct result. Two lemmas show that `Filter` meets it and
  that it determines `Filter`'s result.
- `ColumnFilterPrimitive` is the primitive as a class. It holds its
  hyperparameters. Its `Produce` method runs the source's loop, growing
  `indexToKeep` one index at a time, and is proved equal to `Filter`.
  `Filter` takes no hyperparameters, so this contract also says that
  `Produce` never reads them.

With zero rows and at least one column, the source reads element 0 of an
empty slice and raises `IndexError`. The model returns `Failure(IndexError)`
in that case. It does not forbid the input with a precondition.

## Model

| member | source | states |
|---|---|---|
| ColumnFilter.KeptIndices | tods/data_processing/ColumnFilter.py:127-132 | the scan keeps at most one index per column, and every kept index names an existing column |
| ColumnFilter.KeptIndicesIncreasing | tods/data_processing/ColumnFilter.py:127-132 | the kept indices are strictly increasing, so kept columns keep their original relative order |
| ColumnFilter.KeptIndicesMembers | tods/data_processing/ColumnFilter.py:128-132 | an index is kept if and only if it names a column whose last cell exists and is not NaN |
| ColumnFilter.KeptIndicesAll | tods/data_processing/ColumnFilter.py:127-132 | when every column has a value in its last row, the scan keeps every index 0, 1, ..., n-1 in order |
| ColumnFilter.Project | tods/data_processing/ColumnFilter.py:134 | positional selection keeps every row, output column k is input column idx[k] unchanged, and a well-formed frame stays well formed |
| ColumnFilter.FilterFailsOnlyWithoutRows | tods/data_processing/ColumnFilter.py:129-131 | the filter fails exactly when the frame has at least one column and zero rows, and then some column has no last cell to read |
| ColumnFilter.FilterMeetsDescription | tods/data_processing/ColumnFilter.py:124-134 | a successful result keeps all rows, has no more columns than the input, and consists of the input columns at exactly the positions whose last cell is not NaN, in increasing order |
| ColumnFilter.DescriptionDeterminesFilter | tods/data_processing/ColumnFilter.py:124-134 | any frame that selects, in increasing order, exactly the input columns with a non-NaN last cell is the filter's result, so the description is complete |
| ColumnFilter.FilterSound | tods/data_processing/ColumnFilter.py:129-134 | every output column has a non-NaN value in its last row |
| ColumnFilter.FilterComplete | tods/data_processing/ColumnFilter.py:127-134 | every input column with a non-NaN last cell appears in the output whole, with earlier NaN cells retained |
| ColumnFilter.FilterIdempotent | tods/data_processing/ColumnFilter.py:127-134 | filtering the output again succeeds and returns the same frame |
| ColumnFilter.ColumnFilterPrimitive.constructor | tods/data_processing/ColumnFilter.py:109-110 | the primitive stores the hyperparameters it is given |
| ColumnFilter.ColumnFilterPrimitive.Produce | tods/data_processing/ColumnFilter.py:115-138 | the loop over columns followed by the selection returns exactly `Filter(inputs)`, a function of the input frame alone and not of the hyperparameters; it fails if and only if there are columns but no rows |

## Left out

- `_update_metadata` (ColumnFilter.py:143-144) regenerates the host framework's column metadata for the output. That is a call into the framework, and the model has no metadata.
- The `Hyperparams` schema (ColumnFilter.py:40-87) is kept only as a record of field values. Its defaults, descriptions and semantic types are declarations for the host framework and affect nothing in `produce`.
- IEEE floating point: a cell is either an ordinary number or NaN. Non-numeric cells, on which `np.isnan` would raise `TypeError`, are not modelled.
- The index array starts as an empty float array, so the kept indices are floats when passed to `iloc`. The model treats them as natural numbers and does not model pandas' handling of float indexers.
- The `timeout` and `iterations` arguments of `produce` are unused by the source and are not parameters of `Produce`. The `CallResult` wrapper is modelled by the returned value itself.
- The row index labels and the column dtypes of a data frame are not modelled; a frame keeps only its row count, column names and cells.
- The example script `examples/sk_examples/DeepLog_test.py` reads a file, runs an external DeepLog detector, computes scikit-learn metrics and prints them. None of that is logic of this repository.
