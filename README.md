# streamlit-custom-filters, modelled in Dafny

This project models the filtering core of `streamlit-custom-filters`, a small
widget library for a data-app framework. The library has four kinds of filter:

- a category multiselect (`CategoricalFilter`);
- a min/max slider (`RangeFilter`);
- a lower-threshold input (`GreaterFilter`);
- an upper-threshold input (`LessFilter`).

Each filter is bound to one column of a table and remembers the last answer its
widget gave. A `DataFrameFilter` owns a table and an ordered list of filters. It
lays the widgets out in rows of `columns` slots (`display_filters`) and applies
every filter in turn to a copy of the table (`filter_df`).

The project has three modules:

- `Tables` (`tables.dfy`) covers the part of a data frame that the filters use.
  - A table is a sequence of rows, and a row maps column names to integer values.
  - `Keep` is the boolean mask `df[mask]`.
  - `Selects` is an independent description of a mask's result: a subsequence
    of the table that holds every passing row as often as the table does, and no
    other row. `KeepSelects` and `SelectsUnique` show the two agree.
- `Filters` (`filters.py` lines 13–139) holds one class per filter kind.
  - A filter's attribute is an `Attr`: never assigned, assigned `None`, or
    assigned a value. Reading a never-assigned attribute raises
    `AttributeError`, which the model returns as an `Outcome`.
  - `filter` is a function that reads the object.
  - `reset` and `display` are methods that update it.
  - `AnyFilter` is the element type of the filter list. It wraps a reference to
    a filter of any of the four kinds. `Demand` says what the filter's current
    state asks of the rows.
- `DataFrameFilters` (`filters.py` lines 142–180) holds the `DataFrameFilter` class.
  - `FilterDf` is a loop that threads the table through the filters.
  - `DisplayFilters` is a loop that computes each widget's slot and lets the
    widget store its answer.

Widgets are not rendered. The answer a widget gives is a parameter of the
`Display` methods (an `Input`), so the model covers what happens to the filters
for any answer.

This revision of the library does not check at construction that each
filter's column exists in the table. The model follows the code: the
`DataFrameFilter` constructor stores its arguments unchecked. A missing column
would make pandas raise `KeyError` while filtering or while a widget reads
the column's range. The model states that condition as a precondition of
`filter`, `FilterDf` and `DisplayFilters` (see "Left out").

A filter whose widget was never displayed has never assigned its attribute.
Its `filter` raises `AttributeError`; it does not pass the table through. For
a never-displayed filter only `reset` makes it a pass-through, and `LessFilter`
is the exception (see
"Findings").

## Model

| member | source | states |
|---|---|---|
| Tables.KeepSelects | streamlit-custom-filters/filters.py:58 | the boolean mask keeps exactly the rows passing the condition, each as often as the table holds it, in the table's order |
| Tables.SelectsUnique | streamlit-custom-filters/filters.py:58 | any table that is an order-preserving selection of exactly the passing rows is the mask's result, so `Selects` pins the result down |
| Tables.KeepCompose | streamlit-custom-filters/filters.py:167-168 | masking by one set of conditions and then by another equals masking once by their conjunction |
| Tables.Distinct | streamlit-custom-filters/filters.py:62 | `unique()` holds exactly the values of its input, none twice |
| Tables.ColumnMin | streamlit-custom-filters/filters.py:83 | a column's `min()` is attained by some row and is at most every row's value |
| Tables.ColumnMax | streamlit-custom-filters/filters.py:83 | a column's `max()` is attained by some row and is at least every row's value |
| Filters.CategoricalFilter.constructor | streamlit-custom-filters/filters.py:14-19 | the column is stored and `_values` is declared but not assigned |
| Filters.CategoricalFilter.Reset | streamlit-custom-filters/filters.py:21-22 | `_values` becomes None and the filter then returns every table unchanged |
| Filters.CategoricalFilter.Filter | streamlit-custom-filters/filters.py:56-59 | an unassigned `_values` raises AttributeError; None or an empty selection returns the table; otherwise the result is exactly the rows whose value is among the selected categories, in order |
| Filters.CategoricalFilter.Display | streamlit-custom-filters/filters.py:64-67 | `_values` becomes the multiselect's answer |
| Filters.CategoriesOf | streamlit-custom-filters/filters.py:61-62 | the multiselect's options are exactly the values the column takes, each once |
| Filters.AllCategoriesKeepAll | streamlit-custom-filters/filters.py:61-67 | selecting every option the multiselect offers keeps every row |
| Filters.SpanOf | streamlit-custom-filters/filters.py:82-87 | the span is undefined exactly for an empty table; otherwise min <= max, every row lies between them and both ends are attained |
| Filters.RangeFilter.constructor | streamlit-custom-filters/filters.py:74-75 | the column is stored and `_values` is not assigned |
| Filters.RangeFilter.Reset | streamlit-custom-filters/filters.py:21-22 | `_values` becomes None and the filter then returns every table unchanged |
| Filters.RangeFilter.Filter | streamlit-custom-filters/filters.py:77-80 | an unassigned `_values` raises AttributeError; None returns the table; otherwise the result is exactly the rows with lo <= value <= hi, in order |
| Filters.RangeFilter.Display | streamlit-custom-filters/filters.py:89-95 | `_values` becomes the slider's pair |
| Filters.RangeInvertedKeepsNothing | streamlit-custom-filters/filters.py:77-80 | a range whose low end exceeds its high end keeps no row |
| Filters.SliderDefaultKeepsAll | streamlit-custom-filters/filters.py:89-95 | the slider's default value, the column's own (min, max), keeps every row |
| Filters.GreaterFilter.constructor | streamlit-custom-filters/filters.py:102-104 | the column is stored and `_values` is not assigned |
| Filters.GreaterFilter.Reset | streamlit-custom-filters/filters.py:21-22 | `_values` becomes None and the filter then returns every table unchanged |
| Filters.GreaterFilter.Filter | streamlit-custom-filters/filters.py:106-109 | an unassigned `_values` raises AttributeError; None returns the table; otherwise the result is exactly the rows with value >= threshold, in order |
| Filters.GreaterFilter.Display | streamlit-custom-filters/filters.py:111-117 | `_values` becomes the number input's answer |
| Filters.GreaterDefaultKeepsAll | streamlit-custom-filters/filters.py:111-117 | the input's default value, the column's minimum, keeps every row |
| Filters.LessFilter.constructor | streamlit-custom-filters/filters.py:124-126 | the column is stored; neither `_values` nor `_value` is assigned |
| Filters.LessFilter.Reset | streamlit-custom-filters/filters.py:21-22 | the shared reset sets `_values` to None and leaves `_value` alone, so a filter that held a threshold still keeps exactly the rows at or below it |
| Filters.LessResetKeepsThreshold | streamlit-custom-filters/filters.py:21-22 | on a concrete table, filtering after reset gives the same narrowed table as before it |
| Filters.LessFilter.ResetCorrected | streamlit-custom-filters/filters.py:21-22 | clearing both attributes makes the filter return every table unchanged |
| Filters.LessFilter.Filter | streamlit-custom-filters/filters.py:128-131 | an unassigned `_value` raises AttributeError; None returns the table; otherwise the result is exactly the rows with value <= threshold, in order |
| Filters.LessFilter.Display | streamlit-custom-filters/filters.py:133-139 | `_value` becomes the number input's answer and `_values` is left as it was |
| Filters.LessDefaultKeepsAll | streamlit-custom-filters/filters.py:133-139 | the input's default value, the column's maximum, keeps every row |
| Filters.AnyFilter.Filter | streamlit-custom-filters/filters.py:168 | every kind of filter answers as its demand says: it raises for a never-assigned attribute, passes the table through, or selects exactly the rows passing one condition |
| Filters.AnyFilter.Display | streamlit-custom-filters/filters.py:180 | after its widget answers, a filter demands what that answer selects |
| Filters.FilterIdempotent | streamlit-custom-filters/filters.py:56-131 | filtering a filter's own result again with the same filter changes nothing |
| DataFrameFilters.FirstFailure | streamlit-custom-filters/filters.py:167-168 | no attribute is reported exactly when no filter would raise; otherwise it names the attribute of the first filter that would |
| DataFrameFilters.DataFrameFilter.constructor | streamlit-custom-filters/filters.py:147-162 | the table, filters, column count and gap are stored as given, unchecked; the column count defaults to 2 and the gap to "medium" |
| DataFrameFilters.DataFrameFilter.FilterDf | streamlit-custom-filters/filters.py:164-169 | if some filter would raise, the first such filter's AttributeError is returned; otherwise the result is exactly the rows passing every filter's condition, in the table's order |
| DataFrameFilters.FilterOrderIrrelevant | streamlit-custom-filters/filters.py:164-169 | reordering the filters changes neither whether some filter raises nor the filtered table |
| DataFrameFilters.DataFrameFilter.DisplayFilters | streamlit-custom-filters/filters.py:171-180 | zero columns raises ZeroDivisionError and negative columns are refused, both before any widget is shown; otherwise the layout is `RowsFor`/`PlacesFor`, and afterwards no filter raises and each filter demands what its last widget answered |
| DataFrameFilters.ShowAt | streamlit-custom-filters/filters.py:179-180 | showing the widget at one position changes that filter's demand alone, to the widget's answer |
| DataFrameFilters.RowsClosedForm | streamlit-custom-filters/filters.py:173-177 | `n` widgets open ceil(n / columns) slot-rows |
| DataFrameFilters.PlacesClosedForm | streamlit-custom-filters/filters.py:173-179 | the widget at position k goes to slot k % columns of slot-row k / columns |
| DataFrameFilters.LastAtIsLast | streamlit-custom-filters/filters.py:173-180 | `LastAt` finds the last position referring to a filter object, and finds none only when no position does |
| DataFrameFilters.DistinctFiltersAreLast | streamlit-custom-filters/filters.py:173-180 | in a list of distinct filter objects every filter is its own last occurrence, so each demands its own widget's answer after display |
| DataFrameFilters.DisplayedFiltersImposeAnswers | streamlit-custom-filters/filters.py:164-180 | once every widget of a block of distinct filters has answered, the conditions `filter_df` applies are exactly those the widgets' answers select |
| DataFrameFilters.DisplayedFiltersDoNotRaise | streamlit-custom-filters/filters.py:164-180 | once every widget has been displayed, no filter raises, so `filter_df` returns a table |

## Left out

- The widgets themselves are not modelled: `st.multiselect`, `st.slider`, `st.number_input`, `st.columns` with its `gap`, and the `with` block that renders into a slot. A widget's answer is a parameter, and a slot is a `Place`.
- Filters.RangeFilter.Display: accepts any pair. The bounds the slider imposes on its answer (the column's span) are not modelled. The same holds for the number inputs of `Filters.GreaterFilter.Display` and `Filters.LessFilter.Display`.
- `display_df` (`filters.py` lines 182–186) only renders `filter_df`'s result, so it is not modelled.
- The abstract base class `Filter` with its abstract methods is not modelled. The language has no traits here, so the four kinds are joined by the `AnyFilter` datatype, and the shared `reset` is written out in each class.
- Values are integers. Categorical columns hold strings in the library; the category filter only tests its values for equality, so integers stand for them without loss. Floats, NaN and the `np.float32` conversion in `_get_range` (`filters.py` lines 84–86) are not modelled. The min/max of an empty column, which pandas gives as NaN, is `Span.Undefined`.
- Filters.CategoricalFilter.Filter: requires the column to exist. pandas would raise `KeyError` for a missing column, and that error path is not modelled; the same precondition is on the other three `Filter`s and on `DataFrameFilters.DataFrameFilter.FilterDf`.
- DataFrameFilters.DataFrameFilter.DisplayFilters: requires every filter's column to exist in the table. Each `display` reads the column's range from the table (`filters.py` lines 62, 83 and 180), so pandas would raise `KeyError` at the first filter whose column is missing, after showing the filters before it; that error path is not modelled. Rows are maps without a separate schema, so an empty table cannot say which columns it has.
- Tables.Distinct: states the distinct values as a set without duplicates, not that they come in order of first appearance, although it builds them in that order.
- Filters.CategoriesOf: states the options as a set without duplicates. It does not state that they come in order of first appearance, though `Distinct` builds them in that order.
- The pandas index, dtype and the identity of the copy made by `filter_df` are not modelled: tables are values, so the copy is the table itself.
- DataFrameFilters.DataFrameFilter.DisplayFilters: a negative `columns` is refused by the host framework's `st.columns` at position 0. This is modelled as `ColumnsRejected`, and the framework's message is not modelled.
- The list of filters is a constant of the `DataFrameFilter`. A caller mutating the Python list after construction is not modelled.

## Findings

| source | as written | input that shows it | evidently intended | confidence | as-written member | corrected member |
|---|---|---|---|---|---|---|
| streamlit-custom-filters/filters.py:21-22 | the shared `reset` sets `_values` to None, but `LessFilter.filter` (lines 128–131) reads `_value`, so the threshold survives the reset | a `LessFilter` on `price`, displayed with answer 2, over rows `{price: 1}` and `{price: 5}`, then reset: `filter` still returns only `{price: 1}` | reset makes every filter a pass-through, as it does for the other three kinds | not executed | Filters.LessFilter.Reset, Filters.LessResetKeepsThreshold | Filters.LessFilter.ResetCorrected |
