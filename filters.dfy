/**
 * The block of filter widgets: four kinds of filter, each bound to one
 * column and holding the selection its widget last returned.
 *
 * Widgets are not rendered here: what a widget returns is a parameter of the
 * `Display` methods.
 */
module Filters {
  import opened Tables

  datatype Option<T> = None | Some(value: T)

  /**
   * A Python attribute of a filter object: never assigned (reading it raises
   * AttributeError), assigned `None`, or assigned a value.
   */
  datatype Attr<T> = Missing | Null | Has(value: T)

  /** What a filter's `filter` method returns: a table, or the AttributeError it raises. */
  datatype Outcome = Ok(table: Table) | AttributeError(attr: string)

  /** `r` is a table holding exactly the rows of `df` that pass `conds`, in their original order. */
  ghost predicate Narrows(r: Outcome, df: Table, conds: set<Cond>) {
    r.Ok? && Selects(r.table, df, conds)
  }

  /** What a filter's current state asks of the rows. */
  datatype Demand =
    | Fails(attr: string)  // `filter` reads an attribute that was never assigned
    | PassThrough          // `filter` returns its input
    | Keeps(cond: Cond)    // `filter` keeps the rows passing `cond`

  /** `r` is what `filter` returns for `df` when the filter's demand is `d`. */
  ghost predicate Answers(r: Outcome, df: Table, d: Demand) {
    match d
    case Fails(a) => r == AttributeError(a)
    case PassThrough => r == Ok(df)
    case Keeps(c) => Narrows(r, df, {c})
  }

  /** A multiselect of categories. */
  class CategoricalFilter {
    const column: string
    var values: Attr<seq<int>>

    constructor (column: string)
      ensures this.column == column && values == Missing
    {
      this.column := column;
      values := Missing;
    }

    method Reset()
      modifies this
      ensures values == Null
      ensures forall df :: HasColumn(df, column) ==> Filter(df) == Ok(df)
    {
      values := Null;
    }

    /** Keeps the rows whose value is one of the selected categories; no selection keeps all rows. */
    function Filter(df: Table): (r: Outcome)
      reads this
      requires HasColumn(df, column)
      ensures values.Missing? ==> r == AttributeError("_values")
      ensures values.Null? || values == Has([]) ==> r == Ok(df)
      ensures values.Has? && values.value != [] ==> Narrows(r, df, {IsIn(column, values.value)})
    {
      match values
      case Missing => AttributeError("_values")
      case Null => Ok(df)
      case Has(categories) =>
        if categories != [] then
          KeepSelects(df, {IsIn(column, categories)});
          Ok(Keep(df, {IsIn(column, categories)}))
        else Ok(df)
    }

    /** Stores the categories the multiselect returned. */
    method Display(selected: seq<int>)
      modifies this
      ensures values == Has(selected)
    {
      values := Has(selected);
    }
  }

  /** The multiselect's options: the distinct values of the column, each once. */
  function CategoriesOf(df: Table, column: string): (options: seq<int>)
    requires HasColumn(df, column)
    ensures forall v :: v in options <==> exists row :: row in df && row[column] == v
    ensures forall i, j :: 0 <= i < j < |options| ==> options[i] != options[j]
  {
    var vs := ColumnOf(df, column);
    assert forall row :: row in df ==> row[column] in vs by {
      forall row | row in df ensures row[column] in vs {
        var i :| 0 <= i < |df| && df[i] == row;
        assert vs[i] == row[column];
      }
    }
    Distinct(vs)
  }

  /** The inclusive `[lo, hi]` span of a column: undefined (NaN) for an empty table. */
  datatype Span = Undefined | Span(lo: int, hi: int)

  /** The minimum and maximum of a column, shared by the three numeric filters. */
  function SpanOf(df: Table, column: string): (s: Span)
    requires HasColumn(df, column)
    ensures s.Undefined? <==> df == []
    ensures s.Span? ==> s.lo <= s.hi
    ensures s.Span? ==> forall row :: row in df ==> s.lo <= row[column] <= s.hi
    ensures s.Span? ==> (exists row :: row in df && row[column] == s.lo) &&
                        (exists row :: row in df && row[column] == s.hi)
  {
    if df == [] then Undefined
    else
      assert df[0] in df;
      Span(ColumnMin(df, column), ColumnMax(df, column))
  }

  /** A min/max slider. */
  class RangeFilter {
    const column: string
    var values: Attr<(int, int)>

    constructor (column: string)
      ensures this.column == column && values == Missing
    {
      this.column := column;
      values := Missing;
    }

    method Reset()
      modifies this
      ensures values == Null
      ensures forall df :: HasColumn(df, column) ==> Filter(df) == Ok(df)
    {
      values := Null;
    }

    /** Keeps the rows whose value lies in the selected range, both ends included. */
    function Filter(df: Table): (r: Outcome)
      reads this
      requires HasColumn(df, column)
      ensures values.Missing? ==> r == AttributeError("_values")
      ensures values.Null? ==> r == Ok(df)
      ensures values.Has? ==> Narrows(r, df, {Between(column, values.value.0, values.value.1)})
    {
      match values
      case Missing => AttributeError("_values")
      case Null => Ok(df)
      case Has((lo, hi)) =>
        KeepSelects(df, {Between(column, lo, hi)});
        Ok(Keep(df, {Between(column, lo, hi)}))
    }

    /** Stores the pair the slider returned. */
    method Display(lo: int, hi: int)
      modifies this
      ensures values == Has((lo, hi))
    {
      values := Has((lo, hi));
    }
  }

  /** A number input giving a lower threshold. */
  class GreaterFilter {
    const column: string
    var values: Attr<int>

    constructor (column: string)
      ensures this.column == column && values == Missing
    {
      this.column := column;
      values := Missing;
    }

    method Reset()
      modifies this
      ensures values == Null
      ensures forall df :: HasColumn(df, column) ==> Filter(df) == Ok(df)
    {
      values := Null;
    }

    /** Keeps the rows whose value is at least the threshold. */
    function Filter(df: Table): (r: Outcome)
      reads this
      requires HasColumn(df, column)
      ensures values.Missing? ==> r == AttributeError("_values")
      ensures values.Null? ==> r == Ok(df)
      ensures values.Has? ==> Narrows(r, df, {AtLeast(column, values.value)})
    {
      match values
      case Missing => AttributeError("_values")
      case Null => Ok(df)
      case Has(threshold) =>
        KeepSelects(df, {AtLeast(column, threshold)});
        Ok(Keep(df, {AtLeast(column, threshold)}))
    }

    /** Stores the number the input returned. */
    method Display(threshold: int)
      modifies this
      ensures values == Has(threshold)
    {
      values := Has(threshold);
    }
  }

  /**
   * A number input giving an upper threshold. Its threshold lives in `_value`,
   * while the `reset` it shares with the other filters clears `_values`.
   */
  class LessFilter {
    const column: string
    var values: Attr<int>
    var value: Attr<int>

    constructor (column: string)
      ensures this.column == column && values == Missing && value == Missing
    {
      this.column := column;
      values := Missing;
      value := Missing;
    }

    /** The shared `reset`, as written: the threshold in `_value` survives it. */
    method Reset()
      modifies this
      ensures values == Null && value == old(value)
      ensures old(value).Has? ==>
                forall df :: HasColumn(df, column) ==> Narrows(Filter(df), df, {AtMost(column, old(value).value)})
    {
      values := Null;
    }

    /** A reset that clears the attribute `filter` reads, making the filter a pass-through. */
    method ResetCorrected()
      modifies this
      ensures values == Null && value == Null
      ensures forall df :: HasColumn(df, column) ==> Filter(df) == Ok(df)
    {
      values := Null;
      value := Null;
    }

    /** Keeps the rows whose value is at most the threshold. */
    function Filter(df: Table): (r: Outcome)
      reads this
      requires HasColumn(df, column)
      ensures value.Missing? ==> r == AttributeError("_value")
      ensures value.Null? ==> r == Ok(df)
      ensures value.Has? ==> Narrows(r, df, {AtMost(column, value.value)})
    {
      match value
      case Missing => AttributeError("_value")
      case Null => Ok(df)
      case Has(threshold) =>
        KeepSelects(df, {AtMost(column, threshold)});
        Ok(Keep(df, {AtMost(column, threshold)}))
    }

    /** Stores the number the input returned. */
    method Display(threshold: int)
      modifies this
      ensures values == old(values) && value == Has(threshold)
    {
      value := Has(threshold);
    }
  }

  /** Concrete evidence that `LessFilter.Reset` leaves the filter active. */
  method LessResetKeepsThreshold() returns (before: Outcome, after: Outcome)
    ensures before == after == Ok([map["price" := 1]])
  {
    var cheap: Row := map["price" := 1];
    var dear: Row := map["price" := 5];
    var df := [cheap, dear];
    var f := new LessFilter("price");
    f.Display(2);
    before := f.Filter(df);
    f.Reset();
    after := f.Filter(df);
    assert Keep([dear], {AtMost("price", 2)}) == [];
    assert Keep(df, {AtMost("price", 2)}) == [cheap];
    SelectsUnique(after.table, df, {AtMost("price", 2)});
    SelectsUnique(before.table, df, {AtMost("price", 2)});
  }

  /** What a widget can return: a list of categories, a slider's pair or a number. */
  datatype Input = Categories(selected: seq<int>) | Bounds(lo: int, hi: int) | Number(x: int)

  /**
   * A reference to a filter of any of the four kinds: the element type of the
   * list of filters a `DataFrameFilter` holds.
   */
  datatype AnyFilter =
    | Categorical(categorical: CategoricalFilter)
    | Range(range: RangeFilter)
    | Greater(greater: GreaterFilter)
    | Less(less: LessFilter)
  {
    function Obj(): object {
      match this
      case Categorical(f) => f
      case Range(f) => f
      case Greater(f) => f
      case Less(f) => f
    }

    function Column(): string {
      match this
      case Categorical(f) => f.column
      case Range(f) => f.column
      case Greater(f) => f.column
      case Less(f) => f.column
    }

    /** The condition the filter's selection stands for, read from the attribute its `filter` reads. */
    function Demand(): Demand
      reads Obj()
    {
      match this
      case Categorical(f) =>
        (match f.values
         case Missing => Fails("_values")
         case Null => PassThrough
         case Has(cats) => if cats == [] then PassThrough else Keeps(IsIn(f.column, cats)))
      case Range(f) =>
        (match f.values
         case Missing => Fails("_values")
         case Null => PassThrough
         case Has((lo, hi)) => Keeps(Between(f.column, lo, hi)))
      case Greater(f) =>
        (match f.values
         case Missing => Fails("_values")
         case Null => PassThrough
         case Has(t) => Keeps(AtLeast(f.column, t)))
      case Less(f) =>
        (match f.value
         case Missing => Fails("_value")
         case Null => PassThrough
         case Has(t) => Keeps(AtMost(f.column, t)))
    }

    /** Dispatches `filter` to the filter's own kind. */
    function Filter(df: Table): (r: Outcome)
      reads Obj()
      requires HasColumn(df, Column())
      ensures Answers(r, df, Demand())
    {
      match this
      case Categorical(f) => f.Filter(df)
      case Range(f) => f.Filter(df)
      case Greater(f) => f.Filter(df)
      case Less(f) => f.Filter(df)
    }

    /** The kind of answer this filter's widget gives. */
    predicate Fits(input: Input) {
      match this
      case Categorical(_) => input.Categories?
      case Range(_) => input.Bounds?
      case Greater(_) => input.Number?
      case Less(_) => input.Number?
    }

    /** The demand a filter of this kind has once its widget answered `input`. */
    function Chosen(input: Input): Demand
      requires Fits(input)
    {
      match this
      case Categorical(f) => if input.selected == [] then PassThrough else Keeps(IsIn(f.column, input.selected))
      case Range(f) => Keeps(Between(f.column, input.lo, input.hi))
      case Greater(f) => Keeps(AtLeast(f.column, input.x))
      case Less(f) => Keeps(AtMost(f.column, input.x))
    }

    /** Dispatches `display` to the filter's own kind, with its widget's answer. */
    method Display(input: Input)
      requires Fits(input)
      modifies Obj()
      ensures Demand() == Chosen(input)
    {
      match this
      case Categorical(f) => f.Display(input.selected);
      case Range(f) => f.Display(input.lo, input.hi);
      case Greater(f) => f.Display(input.x);
      case Less(f) => f.Display(input.x);
    }
  }

  /** Filtering a table a second time with the same filter changes nothing. */
  lemma FilterIdempotent(f: AnyFilter, df: Table)
    requires HasColumn(df, f.Column())
    ensures f.Filter(df).Ok? ==> HasColumn(f.Filter(df).table, f.Column()) &&
                                 f.Filter(f.Filter(df).table) == f.Filter(df)
  {
    var r := f.Filter(df);
    match f.Demand()
    case Fails(_) =>
    case PassThrough =>
    case Keeps(c) =>
      SelectsFrom(r.table, df, {c});
      SelectsUnique(r.table, df, {c});
      var r2 := f.Filter(r.table);
      SelectsUnique(r2.table, r.table, {c});
      KeepCompose(df, {c}, {c});
      assert {c} + {c} == {c};
  }

  /** A range whose low end is above its high end keeps no row. */
  lemma RangeInvertedKeepsNothing(f: RangeFilter, df: Table)
    requires HasColumn(df, f.column)
    requires f.values.Has? && f.values.value.0 > f.values.value.1
    ensures f.Filter(df) == Ok([])
  {
    var (lo, hi) := f.values.value;
    KeepNoRow(df, {Between(f.column, lo, hi)});
    SelectsUnique(f.Filter(df).table, df, {Between(f.column, lo, hi)});
  }

  /** The slider's default, the column's own span, keeps every row. */
  lemma SliderDefaultKeepsAll(f: RangeFilter, df: Table)
    requires HasColumn(df, f.column) && df != []
    requires f.values == Has((SpanOf(df, f.column).lo, SpanOf(df, f.column).hi))
    ensures f.Filter(df) == Ok(df)
  {
    var (lo, hi) := f.values.value;
    KeepEveryRow(df, {Between(f.column, lo, hi)});
    SelectsUnique(f.Filter(df).table, df, {Between(f.column, lo, hi)});
  }

  /** The lower-threshold input's default, the column's minimum, keeps every row. */
  lemma GreaterDefaultKeepsAll(f: GreaterFilter, df: Table)
    requires HasColumn(df, f.column) && df != []
    requires f.values == Has(SpanOf(df, f.column).lo)
    ensures f.Filter(df) == Ok(df)
  {
    KeepEveryRow(df, {AtLeast(f.column, f.values.value)});
    SelectsUnique(f.Filter(df).table, df, {AtLeast(f.column, f.values.value)});
  }

  /** The upper-threshold input's default, the column's maximum, keeps every row. */
  lemma LessDefaultKeepsAll(f: LessFilter, df: Table)
    requires HasColumn(df, f.column) && df != []
    requires f.value == Has(SpanOf(df, f.column).hi)
    ensures f.Filter(df) == Ok(df)
  {
    KeepEveryRow(df, {AtMost(f.column, f.value.value)});
    SelectsUnique(f.Filter(df).table, df, {AtMost(f.column, f.value.value)});
  }

  /** Selecting every option of the multiselect keeps every row. */
  lemma AllCategoriesKeepAll(f: CategoricalFilter, df: Table)
    requires HasColumn(df, f.column)
    requires f.values == Has(CategoriesOf(df, f.column))
    ensures f.Filter(df) == Ok(df)
  {
    var cats := f.values.value;
    if cats != [] {
      forall row | row in df ensures HoldsAll({IsIn(f.column, cats)}, row) {
        assert row[f.column] in cats;
      }
      KeepEveryRow(df, {IsIn(f.column, cats)});
      SelectsUnique(f.Filter(df).table, df, {IsIn(f.column, cats)});
    }
  }
}
