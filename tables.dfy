/**
 * The part of a data frame that the filters rely on: a table is a sequence
 * of rows, a row maps column names to values, and a boolean mask keeps the
 * rows that satisfy some conditions, in their original order.
 *
 * Values are integers: the filters only ever test them for membership in a
 * list and compare them with `<=` and `>=`, so any total order would do.
 */
module Tables {

  type Row = map<string, int>
  type Table = seq<Row>

  /** Every row of `t` has a value in `column` (pandas would raise KeyError otherwise). */
  predicate HasColumn(t: Table, column: string) {
    forall row :: row in t ==> column in row
  }

  /** One test on one column of a row: the four tests the filters build their masks from. */
  datatype Cond =
    | IsIn(column: string, categories: seq<int>)
    | Between(column: string, lo: int, hi: int)
    | AtLeast(column: string, threshold: int)
    | AtMost(column: string, threshold: int)
  {
    predicate Holds(row: Row) {
      column in row &&
      match this
      case IsIn(_, categories) => row[column] in categories
      case Between(_, lo, hi) => lo <= row[column] <= hi
      case AtLeast(_, threshold) => row[column] >= threshold
      case AtMost(_, threshold) => row[column] <= threshold
    }
  }

  /** The row passes every condition of `conds`; an empty set of conditions passes every row. */
  predicate HoldsAll(conds: set<Cond>, row: Row) {
    forall c :: c in conds ==> c.Holds(row)
  }

  /** `s` is obtained from `t` by deleting elements: nothing added, duplicated or reordered. */
  predicate IsSubseq<T(==)>(s: seq<T>, t: seq<T>)
    decreases |t|
  {
    s == [] || (t != [] && ((s[0] == t[0] && IsSubseq(s[1..], t[1..])) || IsSubseq(s, t[1..])))
  }

  /**
   * `r` is the selection of the rows of `t` that pass `conds`: a subsequence
   * of `t` that holds every passing row as often as `t` does and no other row.
   */
  ghost predicate Selects(r: Table, t: Table, conds: set<Cond>) {
    IsSubseq(r, t) &&
    forall row :: multiset(r)[row] == if HoldsAll(conds, row) then multiset(t)[row] else 0
  }

  /** The boolean mask `t[mask]`, where the mask is the conjunction of `conds`. */
  function Keep(t: Table, conds: set<Cond>): Table {
    if t == [] then []
    else if HoldsAll(conds, t[0]) then [t[0]] + Keep(t[1..], conds)
    else Keep(t[1..], conds)
  }

  lemma {:induction false} SubseqMultiset<T>(s: seq<T>, t: seq<T>)
    requires IsSubseq(s, t)
    ensures multiset(s) <= multiset(t)
    decreases |t|
  {
    if s != [] {
      assert t == [t[0]] + t[1..];
      if s[0] == t[0] && IsSubseq(s[1..], t[1..]) {
        SubseqMultiset(s[1..], t[1..]);
        assert s == [s[0]] + s[1..];
      } else {
        SubseqMultiset(s, t[1..]);
      }
    }
  }

  /** The mask keeps exactly the passing rows, in their original order. */
  lemma {:induction false} KeepSelects(t: Table, conds: set<Cond>)
    ensures Selects(Keep(t, conds), t, conds)
  {
    if t != [] {
      var rest := Keep(t[1..], conds);
      KeepSelects(t[1..], conds);
      assert t == [t[0]] + t[1..];
      if HoldsAll(conds, t[0]) {
        assert Keep(t, conds) == [t[0]] + rest;
        assert ([t[0]] + rest)[1..] == rest;
      }
    }
  }

  /** A selection is unique: whatever satisfies `Selects` is the mask's result. */
  lemma {:induction false} SelectsUnique(r: Table, t: Table, conds: set<Cond>)
    requires Selects(r, t, conds)
    ensures r == Keep(t, conds)
    decreases |t|
  {
    if t != [] {
      var y := t[0];
      assert t == [y] + t[1..];
      if HoldsAll(conds, y) {
        assert multiset(r)[y] > 0;
        if !(r[0] == y && IsSubseq(r[1..], t[1..])) {
          SubseqMultiset(r, t[1..]);
          assert false;
        }
        assert r == [y] + r[1..];
        forall row
          ensures multiset(r[1..])[row] == if HoldsAll(conds, row) then multiset(t[1..])[row] else 0
        {
        }
        SelectsUnique(r[1..], t[1..], conds);
      } else {
        if r != [] {
          assert r[0] in multiset(r);
          assert r[0] != y;
        }
        assert IsSubseq(r, t[1..]);
        SelectsUnique(r, t[1..], conds);
      }
    }
  }

  /** Every row of a selection comes from the table it was selected from. */
  lemma SelectsFrom(r: Table, t: Table, conds: set<Cond>)
    requires Selects(r, t, conds)
    ensures forall row :: row in r ==> row in t && HoldsAll(conds, row)
  {
    forall row | row in r
      ensures row in t && HoldsAll(conds, row)
    {
      assert row in multiset(r);
    }
  }

  /** Masking keeps every column every row had. */
  lemma KeepHasColumn(t: Table, conds: set<Cond>, column: string)
    requires HasColumn(t, column)
    ensures HasColumn(Keep(t, conds), column)
  {
    KeepSelects(t, conds);
    SelectsFrom(Keep(t, conds), t, conds);
  }

  /** Masking by `a` and then by `b` is masking once by the conjunction of both. */
  lemma {:induction false} KeepCompose(t: Table, a: set<Cond>, b: set<Cond>)
    ensures Keep(Keep(t, a), b) == Keep(t, a + b)
  {
    if t != [] {
      KeepCompose(t[1..], a, b);
      assert HoldsAll(a + b, t[0]) <==> HoldsAll(a, t[0]) && HoldsAll(b, t[0]);
    }
  }

  /** A mask that every row passes gives back the whole table. */
  lemma {:induction false} KeepEveryRow(t: Table, conds: set<Cond>)
    requires forall row :: row in t ==> HoldsAll(conds, row)
    ensures Keep(t, conds) == t
  {
    if t != [] {
      assert t[0] in t;
      KeepEveryRow(t[1..], conds);
      assert t == [t[0]] + t[1..];
    }
  }

  /** A mask that no row passes gives the empty table. */
  lemma {:induction false} KeepNoRow(t: Table, conds: set<Cond>)
    requires forall row :: row in t ==> !HoldsAll(conds, row)
    ensures Keep(t, conds) == []
  {
    if t != [] {
      assert t[0] in t;
      KeepNoRow(t[1..], conds);
    }
  }

  /** The values of `column`, row by row. */
  function ColumnOf(t: Table, column: string): (vs: seq<int>)
    requires HasColumn(t, column)
    ensures |vs| == |t|
    ensures forall i :: 0 <= i < |t| ==> vs[i] == t[i][column]
  {
    if t == [] then [] else
    assert t[0] in t;
    [t[0][column]] + ColumnOf(t[1..], column)
  }

  /** The distinct values of `vs`, each once, in the order they first occur. */
  function Distinct(vs: seq<int>): (r: seq<int>)
    ensures forall v :: v in r <==> v in vs
    ensures forall i, j :: 0 <= i < j < |r| ==> r[i] != r[j]
  {
    if vs == [] then [] else
    var rest := Distinct(vs[..|vs| - 1]);
    var last := vs[|vs| - 1];
    assert vs == vs[..|vs| - 1] + [last];
    if last in rest then rest else rest + [last]
  }

  /** The smallest value of `column`. */
  function ColumnMin(t: Table, column: string): (m: int)
    requires t != [] && HasColumn(t, column)
    ensures exists row :: row in t && row[column] == m
    ensures forall row :: row in t ==> m <= row[column]
  {
    assert t == [t[0]] + t[1..];
    assert t[0] in t;
    if |t| == 1 then t[0][column] else
    var m' := ColumnMin(t[1..], column);
    if t[0][column] <= m' then t[0][column] else m'
  }

  /** The largest value of `column`. */
  function ColumnMax(t: Table, column: string): (m: int)
    requires t != [] && HasColumn(t, column)
    ensures exists row :: row in t && row[column] == m
    ensures forall row :: row in t ==> row[column] <= m
  {
    assert t == [t[0]] + t[1..];
    assert t[0] in t;
    if |t| == 1 then t[0][column] else
    var m' := ColumnMax(t[1..], column);
    if t[0][column] >= m' then t[0][column] else m'
  }
}
