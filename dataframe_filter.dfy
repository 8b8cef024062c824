/**
 * The component that owns a table and a list of filters: it lays the filter
 * widgets out in rows of `columns` slots and applies the filters to a copy
 * of the table one after the other.
 */
module DataFrameFilters {
  import opened Tables
  import opened Filters

  /** The filter objects a list of filters refers to. */
  function Objs(fs: seq<AnyFilter>): set<object> {
    set f | f in fs :: f.Obj()
  }

  /** The demand of each filter of the list, in list order. */
  function DemandsOf(fs: seq<AnyFilter>): (ds: seq<Demand>)
    reads Objs(fs)
    ensures |ds| == |fs|
    ensures forall i :: 0 <= i < |fs| ==> ds[i] == fs[i].Demand()
  {
    if fs == [] then [] else
    assert fs[0] in fs;
    [fs[0].Demand()] + DemandsOf(fs[1..])
  }

  /** No filter of the list would raise. */
  predicate NoFailure(ds: seq<Demand>) {
    forall d :: d in ds ==> !d.Fails?
  }

  /** The attribute named by the first filter that would raise, if any. */
  function FirstFailure(ds: seq<Demand>): (a: Option<string>)
    ensures a.None? <==> NoFailure(ds)
    ensures a.Some? ==> exists k :: 0 <= k < |ds| && ds[k] == Fails(a.value) &&
                                    forall j :: 0 <= j < k ==> !ds[j].Fails?
  {
    if ds == [] then None
    else if ds[0].Fails? then Some(ds[0].attr)
    else
      var a := FirstFailure(ds[1..]);
      assert ds == [ds[0]] + ds[1..];
      if a.Some? then
        var k :| 0 <= k < |ds[1..]| && ds[1..][k] == Fails(a.value) &&
                 forall j :: 0 <= j < k ==> !ds[1..][j].Fails?;
        assert ds[k + 1] == Fails(a.value);
        a
      else a
  }

  /** Every condition some filter of the list imposes. */
  function AllConds(ds: seq<Demand>): set<Cond> {
    set d | d in ds && d.Keeps? :: d.cond
  }

  /** A filter that raises after filters that did not is the first to raise. */
  lemma FirstFailureAt(ds: seq<Demand>, i: nat)
    requires i < |ds| && NoFailure(ds[..i]) && ds[i].Fails?
    ensures FirstFailure(ds) == Some(ds[i].attr)
  {
    var a := FirstFailure(ds);
    assert !NoFailure(ds);
    var k :| 0 <= k < |ds| && ds[k] == Fails(a.value) && forall j :: 0 <= j < k ==> !ds[j].Fails?;
  }

  /** One more filter that does not raise narrows the running table by its own condition. */
  lemma CascadeStep(df: Table, ds: seq<Demand>, i: nat, next: Outcome)
    requires i < |ds| && NoFailure(ds[..i])
    requires Answers(next, Keep(df, AllConds(ds[..i])), ds[i])
    requires next.Ok?
    ensures NoFailure(ds[..i + 1])
    ensures next.table == Keep(df, AllConds(ds[..i + 1]))
  {
    assert ds[..i + 1] == ds[..i] + [ds[i]];
    match ds[i] {
      case PassThrough =>
        assert AllConds(ds[..i + 1]) == AllConds(ds[..i]);
      case Keeps(c) =>
        SelectsUnique(next.table, Keep(df, AllConds(ds[..i])), {c});
        KeepCompose(df, AllConds(ds[..i]), {c});
        assert AllConds(ds[..i + 1]) == AllConds(ds[..i]) + {c};
    }
  }

  /** The last position below `n` whose filter refers to `o`, or -1 when none does. */
  function LastAt(fs: seq<AnyFilter>, o: object, n: nat): (k: int)
    requires n <= |fs|
    ensures -1 <= k < n
  {
    if n == 0 then -1
    else if fs[n - 1].Obj() == o then n - 1
    else LastAt(fs, o, n - 1)
  }

  /** `LastAt` finds a position referring to `o` after which none does, and finds none only when there is none. */
  lemma {:induction false} LastAtIsLast(fs: seq<AnyFilter>, o: object, n: nat)
    requires n <= |fs|
    ensures LastAt(fs, o, n) == -1 <==> forall j :: 0 <= j < n ==> fs[j].Obj() != o
    ensures LastAt(fs, o, n) >= 0 ==>
              fs[LastAt(fs, o, n)].Obj() == o &&
              forall j :: LastAt(fs, o, n) < j < n ==> fs[j].Obj() != o
  {
    if n > 0 && fs[n - 1].Obj() != o {
      LastAtIsLast(fs, o, n - 1);
    }
  }

  /** When no two filters of the list share an object, each filter is the last one referring to its own object. */
  lemma DistinctFiltersAreLast(fs: seq<AnyFilter>, k: nat)
    requires k < |fs|
    requires forall i, j :: 0 <= i < j < |fs| ==> fs[i].Obj() != fs[j].Obj()
    ensures LastAt(fs, fs[k].Obj(), |fs|) == k
  {
    LastAtIsLast(fs, fs[k].Obj(), |fs|);
  }

  /** Every widget answer a list of filters can be given, one per filter, of the filter's own kind. */
  predicate FitAll(fs: seq<AnyFilter>, inputs: seq<Input>) {
    |inputs| == |fs| && forall k :: 0 <= k < |fs| ==> fs[k].Fits(inputs[k])
  }

  /**
   * After the first `n` widgets answered: none of those filters would raise,
   * and each of them that no later one of the `n` refers to demands what its
   * own widget answered.
   */
  ghost predicate Shown(fs: seq<AnyFilter>, inputs: seq<Input>, n: nat)
    reads Objs(fs)
    requires n <= |fs| && FitAll(fs, inputs)
  {
    forall k :: 0 <= k < n ==>
      fs[k] in fs &&
      !fs[k].Demand().Fails? &&
      (LastAt(fs, fs[k].Obj(), n) == k ==> fs[k].Demand() == fs[k].Chosen(inputs[k]))
  }

  /** Once every widget of the block has answered, no filter raises, so `filter_df` returns a table. */
  lemma DisplayedFiltersDoNotRaise(fs: seq<AnyFilter>, inputs: seq<Input>)
    requires FitAll(fs, inputs) && Shown(fs, inputs, |fs|)
    ensures FirstFailure(DemandsOf(fs)) == None
  {
    var ds := DemandsOf(fs);
    forall d | d in ds
      ensures !d.Fails?
    {
      var k :| 0 <= k < |ds| && ds[k] == d;
    }
  }

  /** The conditions the widgets' answers select, one per answer that selects anything. */
  function AnsweredConds(fs: seq<AnyFilter>, inputs: seq<Input>): set<Cond>
    requires FitAll(fs, inputs)
  {
    set k | 0 <= k < |fs| && fs[k].Chosen(inputs[k]).Keeps? :: fs[k].Chosen(inputs[k]).cond
  }

  /**
   * Once every widget of a block of distinct filters has answered, the
   * filters impose exactly the conditions the answers select.
   */
  lemma DisplayedFiltersImposeAnswers(fs: seq<AnyFilter>, inputs: seq<Input>)
    requires FitAll(fs, inputs) && Shown(fs, inputs, |fs|)
    requires forall i, j :: 0 <= i < j < |fs| ==> fs[i].Obj() != fs[j].Obj()
    ensures AllConds(DemandsOf(fs)) == AnsweredConds(fs, inputs)
  {
    var ds := DemandsOf(fs);
    forall k | 0 <= k < |fs|
      ensures ds[k] == fs[k].Chosen(inputs[k])
    {
      DistinctFiltersAreLast(fs, k);
    }
    forall c | c in AllConds(ds)
      ensures c in AnsweredConds(fs, inputs)
    {
      var k :| 0 <= k < |ds| && ds[k].Keeps? && ds[k].cond == c;
    }
    forall c | c in AnsweredConds(fs, inputs)
      ensures c in AllConds(ds)
    {
      var k :| 0 <= k < |fs| && fs[k].Chosen(inputs[k]).Keeps? && fs[k].Chosen(inputs[k]).cond == c;
      assert ds[k] in ds;
    }
  }

  /** A filter object is wrapped as one kind only. */
  lemma SameObjectSameFilter(a: AnyFilter, b: AnyFilter)
    requires a.Obj() == b.Obj()
    ensures a == b
  {
  }

  /** Lets the filter at position `i` store its widget's answer. */
  method ShowAt(fs: seq<AnyFilter>, inputs: seq<Input>, i: nat)
    requires i < |fs| && FitAll(fs, inputs) && Shown(fs, inputs, i)
    modifies fs[i].Obj()
    ensures Shown(fs, inputs, i + 1)
  {
    fs[i].Display(inputs[i]);
    forall k | 0 <= k < i + 1
      ensures fs[k] in fs && !fs[k].Demand().Fails?
      ensures LastAt(fs, fs[k].Obj(), i + 1) == k ==> fs[k].Demand() == fs[k].Chosen(inputs[k])
    {
      if fs[k].Obj() == fs[i].Obj() {
        SameObjectSameFilter(fs[k], fs[i]);
      } else {
        assert fs[k].Demand() == old(fs[k].Demand());
      }
    }
  }

  /** Which slot a widget occupies: the row of slots and the slot within it. */
  datatype Place = Place(row: nat, slot: nat)

  /** How `display_filters` ends: the slot-rows it opened and where each widget went, or the error it raised. */
  datatype Layout =
    | Grid(rows: nat, places: seq<Place>)
    | ZeroDivisionError    // `position % columns` with `columns == 0`
    | ColumnsRejected      // the host refuses a non-positive number of columns

  class DataFrameFilter {
    const df: Table
    const filters: seq<AnyFilter>
    const columns: int
    const gap: string

    constructor (df: Table, filters: seq<AnyFilter>, columns: int := 2, gap: string := "medium")
      ensures this.df == df && this.filters == filters
      ensures this.columns == columns && this.gap == gap
    {
      this.df := df;
      this.filters := filters;
      this.columns := columns;
      this.gap := gap;
    }

    /**
     * Applies the filters in list order to a copy of the table. The result
     * holds exactly the rows that pass every filter, in their original
     * order; if some filter's attribute was never assigned, the first such
     * filter raises.
     */
    method FilterDf() returns (r: Outcome)
      requires forall f :: f in filters ==> HasColumn(df, f.Column())
      ensures var ds := DemandsOf(filters);
              match FirstFailure(ds)
              case Some(a) => r == AttributeError(a)
              case None => Narrows(r, df, AllConds(ds))
    {
      ghost var ds := DemandsOf(filters);
      var filtered := df;
      KeepEveryRow(df, {});
      assert AllConds(ds[..0]) == {};
      var i := 0;
      while i < |filters|
        invariant 0 <= i <= |filters|
        invariant ds == DemandsOf(filters)
        invariant NoFailure(ds[..i])
        invariant filtered == Keep(df, AllConds(ds[..i]))
      {
        assert filters[i] in filters;
        KeepHasColumn(df, AllConds(ds[..i]), filters[i].Column());
        var next := filters[i].Filter(filtered);
        if next.AttributeError? {
          FirstFailureAt(ds, i);
          r := next;
          return;
        }
        CascadeStep(df, ds, i, next);
        filtered := next.table;
        i := i + 1;
      }
      assert ds[..i] == ds;
      KeepSelects(df, AllConds(ds));
      r := Ok(filtered);
    }

    /**
     * Places the widget of the filter at position `i` in slot `i % columns`
     * of slot-row `i / columns`, opening a new slot-row whenever that slot
     * is 0 (`RowsClosedForm`, `PlacesClosedForm`), and lets each filter
     * store its widget's answer.
     */
    method DisplayFilters(inputs: seq<Input>) returns (layout: Layout)
      requires FitAll(filters, inputs)
      requires forall f :: f in filters ==> HasColumn(df, f.Column())
      modifies Objs(filters)
      ensures filters != [] && columns == 0 ==> layout == ZeroDivisionError
      ensures filters != [] && columns < 0 ==> layout == ColumnsRejected
      ensures !layout.Grid? ==> unchanged(Objs(filters))
      ensures filters == [] ==> layout == Grid(0, [])
      ensures columns > 0 ==> layout == Grid(RowsFor(|filters|, columns), PlacesFor(|filters|, columns))
      ensures layout.Grid? ==> Shown(filters, inputs, |filters|)
    {
      var places: seq<Place> := [];
      var rows := 0;
      var i := 0;
      while i < |filters|
        invariant 0 <= i <= |filters|
        invariant i > 0 ==> columns > 0
        invariant i == 0 ==> unchanged(Objs(filters))
        invariant i == 0 ==> rows == 0 && places == []
        invariant columns > 0 ==> rows == RowsFor(i, columns) && places == PlacesFor(i, columns)
        invariant Shown(filters, inputs, i)
      {
        if columns == 0 {
          return ZeroDivisionError;
        }
        var counter := i % columns;
        if counter == 0 {
          if columns < 0 {
            return ColumnsRejected;
          }
          rows := rows + 1;
        }
        NextPlace(i, columns);
        places := places + [Place(rows - 1, counter)];
        assert filters[i] in filters;
        ShowAt(filters, inputs, i);
        i := i + 1;
      }
      layout := Grid(rows, places);
    }
  }

  /** The quotient and remainder of Euclidean division are the only ones with the remainder in range. */
  lemma DivModUnique(i: int, c: int, q: int, r: int)
    requires c > 0 && 0 <= r < c && i == q * c + r
    ensures i / c == q && i % c == r
  {
    var q0, r0 := i / c, i % c;
    assert i == q0 * c + r0;
    assert (q - q0) * c == r0 - r;
    if q > q0 {
      MulAtLeast(q - q0, c);
    } else if q < q0 {
      MulAtLeast(q0 - q, c);
    }
  }

  lemma MulAtLeast(a: int, c: int)
    requires a >= 1 && c > 0
    ensures a * c >= c
  {
    assert a * c == (a - 1) * c + c;
  }

  /** The number of slot-rows opened for `n` widgets: one more at every position whose slot is 0. */
  function RowsFor(n: nat, columns: int): (rows: nat)
    requires columns > 0
    ensures rows <= n
    ensures n > 0 ==> rows > 0
  {
    if n == 0 then 0 else RowsFor(n - 1, columns) + (if (n - 1) % columns == 0 then 1 else 0)
  }

  /** Where the first `n` widgets go: position `k` in slot `k % columns` of the newest slot-row. */
  function PlacesFor(n: nat, columns: int): (places: seq<Place>)
    requires columns > 0
  {
    if n == 0 then [] else PlacesFor(n - 1, columns) + [Place(RowsFor(n, columns) - 1, (n - 1) % columns)]
  }

  /** The widget at position `n` goes to the newest slot-row, in slot `n % columns`. */
  lemma NextPlace(n: nat, columns: int)
    requires columns > 0
    ensures RowsFor(n + 1, columns) == RowsFor(n, columns) + (if n % columns == 0 then 1 else 0)
    ensures PlacesFor(n + 1, columns) == PlacesFor(n, columns) + [Place(RowsFor(n + 1, columns) - 1, n % columns)]
  {
  }

  /** Adding the divisor once adds one to the quotient and keeps the remainder. */
  lemma ShiftByDivisor(i: nat, c: int)
    requires c > 0
    ensures (i + c) / c == i / c + 1 && (i + c) % c == i % c
  {
    var q, m := i / c, i % c;
    assert i + c == (q + 1) * c + m;
    DivModUnique(i + c, c, q + 1, m);
  }

  /** The quotient grows by one exactly where the remainder wraps round to 0. */
  lemma NextQuotient(i: nat, c: int)
    requires c > 0
    ensures (i + 1) % c == 0 ==> (i + 1) / c == i / c + 1
    ensures (i + 1) % c != 0 ==> (i + 1) / c == i / c
  {
    var q, m := i / c, i % c;
    if m == c - 1 {
      assert i + 1 == (q + 1) * c + 0;
      DivModUnique(i + 1, c, q + 1, 0);
    } else {
      assert i + 1 == q * c + (m + 1);
      DivModUnique(i + 1, c, q, m + 1);
    }
  }

  /** `n` widgets fill ceil(n / columns) slot-rows. */
  lemma {:induction false} RowsClosedForm(n: nat, columns: int)
    requires columns > 0
    ensures RowsFor(n, columns) == (n + columns - 1) / columns
  {
    if n == 0 {
      DivModUnique(columns - 1, columns, 0, columns - 1);
    } else {
      RowsClosedForm(n - 1, columns);
      NextQuotient(n + columns - 2, columns);
      ShiftByDivisor(n - 1, columns);
    }
  }

  /** The widget at position `n - 1` sits in slot-row `(n - 1) / columns`, the last of the `n` widgets' slot-rows. */
  lemma LastRow(n: nat, columns: int)
    requires columns > 0 && n > 0
    ensures RowsFor(n, columns) - 1 == (n - 1) / columns
  {
    RowsClosedForm(n, columns);
    ShiftByDivisor(n - 1, columns);
  }

  /** The widget at position `k` sits in slot `k % columns` of slot-row `k / columns`. */
  lemma {:induction false} PlacesClosedForm(n: nat, columns: int)
    requires columns > 0
    ensures |PlacesFor(n, columns)| == n
    ensures forall k :: 0 <= k < n ==> PlacesFor(n, columns)[k] == Place(k / columns, k % columns)
  {
    if n > 0 {
      PlacesClosedForm(n - 1, columns);
      LastRow(n, columns);
    }
  }

  /** The filters' combined conditions, and whether some filter raises, do not depend on their order. */
  lemma {:induction false} FilterOrderIrrelevant(df: Table, ds1: seq<Demand>, ds2: seq<Demand>, r1: Table, r2: Table)
    requires multiset(ds1) == multiset(ds2)
    requires Selects(r1, df, AllConds(ds1)) && Selects(r2, df, AllConds(ds2))
    ensures NoFailure(ds1) <==> NoFailure(ds2)
    ensures r1 == r2
  {
    assert forall d :: d in ds1 <==> d in ds2 by {
      forall d ensures d in ds1 <==> d in ds2 {
        assert d in ds1 <==> d in multiset(ds1);
        assert d in ds2 <==> d in multiset(ds2);
      }
    }
    assert AllConds(ds1) == AllConds(ds2);
    SelectsUnique(r1, df, AllConds(ds1));
    SelectsUnique(r2, df, AllConds(ds2));
  }
}
