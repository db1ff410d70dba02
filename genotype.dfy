// The genotype matrix the converters work on: the data frame read from the
// input table, one row per sampled individual (its index is the sample id)
// and one column per allele slot (`<locus>_1`, `<locus>_2`). A cell is a
// haplotype string or missing.
//
// pandas removes columns (`pop`, `drop(axis=1)`) and rows (`drop(axis=0)`)
// by LABEL: every column, or row, whose label is named goes, and the
// survivors keep their order. `RemoveColumns` and `RemoveRows` model exactly
// that, for a set of labels.

module Genotype {
  import opened Text

  datatype Option<+T> = None | Some(value: T)

  /** The reasons the converters stop with an error. */
  datatype Error =
    | OddColumnCount
    | MissingColumn(name: string)
    | BadColumnName(name: string)
    | MissingCode(locus: string, haplotype: string)
    | MissingRole(sample: string)
    | MissingFrequencies(locus: string)
    | UnknownFormat(tag: string)

  datatype Result<+T> = Ok(value: T) | Fail(error: Error)

  /** A genotype cell: a haplotype string, or missing (pandas NaN). */
  type Cell = Option<string>

  datatype Row = Row(sample: string, cells: seq<Cell>)

  datatype Matrix = Matrix(columns: seq<string>, rows: seq<Row>)
  {
    /** A data frame is rectangular: every row has one cell per column. */
    predicate WellFormed()
    {
      forall i :: 0 <= i < |rows| ==> |rows[i].cells| == |columns|
    }
  }

  /** No label occurs twice. */
  predicate Distinct(s: seq<string>)
  {
    forall i, j :: 0 <= i < j < |s| ==> s[i] != s[j]
  }

  /** The set of the elements of a sequence. */
  function SetOf(s: seq<string>): set<string>
  {
    set x | x in s
  }

  /** Python's `name.endswith(("_1", "_2"))`. */
  predicate EndsWithAllele(name: string)
  {
    |name| >= 2 && (name[|name| - 2..] == "_1" || name[|name| - 2..] == "_2")
  }

  /** Python's `s[:-2]`: the string without its last two characters. */
  function Strip2(s: string): string
  {
    if |s| >= 2 then s[..|s| - 2] else ""
  }

  /** The locus names of a column list: the names at indices 1, 3, 5, ...
      with their last two characters removed (`[c[:-2] for c in cols][1::2]`). */
  function LocusNames(cols: seq<string>): (r: seq<string>)
    ensures |r| == |cols| / 2
    ensures forall k :: 0 <= k < |r| ==> r[k] == Strip2(cols[2 * k + 1])
  {
    if |cols| < 2 then [] else [Strip2(cols[1])] + LocusNames(cols[2..])
  }

  /** Number of missing cells. */
  function MissingCount(cells: seq<Cell>): (r: nat)
    ensures r <= |cells|
    ensures r == 0 <==> forall j :: 0 <= j < |cells| ==> cells[j].Some?
  {
    if |cells| == 0 then 0
    else MissingCount(cells[..|cells| - 1]) + (if cells[|cells| - 1].None? then 1 else 0)
  }

  /** The cells of column `j`, in row order. */
  function ColumnCells(rows: seq<Row>, j: nat): (r: seq<Cell>)
    requires forall i :: 0 <= i < |rows| ==> j < |rows[i].cells|
    ensures |r| == |rows|
    ensures forall i :: 0 <= i < |rows| ==> r[i] == rows[i].cells[j]
  {
    if |rows| == 0 then [] else ColumnCells(rows[..|rows| - 1], j) + [rows[|rows| - 1].cells[j]]
  }

  /** The row labels, in row order. */
  function Samples(rows: seq<Row>): (r: seq<string>)
    ensures |r| == |rows|
    ensures forall i :: 0 <= i < |rows| ==> r[i] == rows[i].sample
  {
    if |rows| == 0 then [] else Samples(rows[..|rows| - 1]) + [rows[|rows| - 1].sample]
  }

  /** The positions whose label is not in `drop`, in increasing order. */
  function KeptIndices(names: seq<string>, drop: set<string>): (r: seq<nat>)
    ensures forall k :: 0 <= k < |r| ==> r[k] < |names|
    ensures forall k, l :: 0 <= k < l < |r| ==> r[k] < r[l]
    ensures forall j :: 0 <= j < |names| ==> (j in r <==> names[j] !in drop)
  {
    if |names| == 0 then []
    else
      var r := KeptIndices(names[..|names| - 1], drop);
      if names[|names| - 1] in drop then r else r + [|names| - 1]
  }

  /** The elements of `xs` whose label (the element of `names` at the same
      position) is not in `drop`: exactly those at `KeptIndices`, in order. */
  function Keep<T>(xs: seq<T>, names: seq<string>, drop: set<string>): (r: seq<T>)
    requires |xs| == |names|
    ensures |r| == |KeptIndices(names, drop)|
    ensures forall k :: 0 <= k < |r| ==> r[k] == xs[KeptIndices(names, drop)[k]]
  {
    if |xs| == 0 then []
    else
      var r := Keep(xs[..|xs| - 1], names[..|names| - 1], drop);
      if names[|names| - 1] in drop then r else r + [xs[|xs| - 1]]
  }

  /** Every row with only the cells of the kept columns. */
  function KeepCells(rows: seq<Row>, cols: seq<string>, drop: set<string>): (r: seq<Row>)
    requires forall i :: 0 <= i < |rows| ==> |rows[i].cells| == |cols|
    ensures |r| == |rows|
    ensures forall i :: 0 <= i < |rows| ==> r[i] == Row(rows[i].sample, Keep(rows[i].cells, cols, drop))
  {
    if |rows| == 0 then []
    else
      var last := rows[|rows| - 1];
      KeepCells(rows[..|rows| - 1], cols, drop) + [Row(last.sample, Keep(last.cells, cols, drop))]
  }

  /** Remove every column whose label is in `drop` (pandas `pop`/`drop` by
      label); `RemoveColumnsSpec` says which columns and cells remain. */
  function RemoveColumns(m: Matrix, drop: set<string>): (r: Matrix)
    requires m.WellFormed()
    ensures r.WellFormed()
    ensures |r.rows| == |m.rows|
  {
    Matrix(Keep(m.columns, m.columns, drop), KeepCells(m.rows, m.columns, drop))
  }

  /** The surviving columns are those at `KeptIndices(columns, drop)`, in
      their order, so a label survives exactly when it is not dropped; rows
      keep their labels, their order and, column by column, their cells. */
  lemma RemoveColumnsSpec(m: Matrix, drop: set<string>)
    requires m.WellFormed()
    ensures var r := RemoveColumns(m, drop);
      && |r.columns| == |KeptIndices(m.columns, drop)|
      && (forall c :: c in r.columns <==> c in m.columns && c !in drop)
      && (forall k :: 0 <= k < |r.columns| ==> r.columns[k] == m.columns[KeptIndices(m.columns, drop)[k]])
      && (forall i, k :: 0 <= i < |m.rows| && 0 <= k < |r.columns| ==>
            r.rows[i].cells[k] == m.rows[i].cells[KeptIndices(m.columns, drop)[k]])
      && Samples(r.rows) == Samples(m.rows)
  {
    KeepMembers(m.columns, drop);
  }

  /** A label survives exactly when it is not dropped. */
  lemma RemoveColumnsMembers(m: Matrix, drop: set<string>)
    requires m.WellFormed()
    ensures forall c :: c in RemoveColumns(m, drop).columns <==> c in m.columns && c !in drop
  {
    KeepMembers(m.columns, drop);
  }

  /** The labels kept are exactly the labels not dropped. */
  lemma {:induction false} KeepMembers(names: seq<string>, drop: set<string>)
    ensures forall c :: c in Keep(names, names, drop) <==> c in names && c !in drop
  {
    if |names| > 0 {
      var n := |names| - 1;
      KeepMembers(names[..n], drop);
      assert names == names[..n] + [names[n]];
    }
  }

  /** Keeping from a sequence extended by one element. */
  lemma KeepSnoc<T>(xs: seq<T>, names: seq<string>, x: T, c: string, drop: set<string>)
    requires |xs| == |names|
    ensures Keep(xs + [x], names + [c], drop) ==
      if c in drop then Keep(xs, names, drop) else Keep(xs, names, drop) + [x]
  {
    assert (xs + [x])[..|xs|] == xs;
    assert (names + [c])[..|names|] == names;
  }

  /** Remove every row whose label is in `drop` (pandas `drop(axis=0)` by
      label); `RemoveRowsSpec` says which rows remain. */
  function RemoveRows(m: Matrix, drop: set<string>): (r: Matrix)
    ensures r.columns == m.columns
    ensures m.WellFormed() ==> r.WellFormed()
  {
    Matrix(m.columns, Keep(m.rows, Samples(m.rows), drop))
  }

  /** The surviving rows are those at `KeptIndices` of the row labels, in
      their order. */
  lemma RemoveRowsSpec(m: Matrix, drop: set<string>)
    ensures var r := RemoveRows(m, drop);
      && |r.rows| == |KeptIndices(Samples(m.rows), drop)|
      && (forall k :: 0 <= k < |r.rows| ==> r.rows[k] == m.rows[KeptIndices(Samples(m.rows), drop)[k]])
  {
  }

  /** Keeping by `S` and then by `U` keeps by `S + U`. */
  lemma {:induction false} KeepTwice<T>(xs: seq<T>, names: seq<string>, S: set<string>, U: set<string>)
    requires |xs| == |names|
    ensures Keep(Keep(xs, names, S), Keep(names, names, S), U) == Keep(xs, names, S + U)
  {
    if |xs| > 0 {
      var n := |xs| - 1;
      var xs', names' := xs[..n], names[..n];
      var x, c := xs[n], names[n];
      assert xs == xs' + [x] && names == names' + [c];
      KeepTwice(xs', names', S, U);
      KeepSnoc(xs', names', x, c, S);
      KeepSnoc(names', names', c, c, S);
      KeepSnoc(xs', names', x, c, S + U);
      if c !in S {
        KeepSnoc(Keep(xs', names', S), Keep(names', names', S), x, c, U);
      }
    }
  }

  /** Keeping by a set that names no label keeps everything. */
  lemma {:induction false} KeepAll<T>(xs: seq<T>, names: seq<string>, drop: set<string>)
    requires |xs| == |names|
    requires forall j :: 0 <= j < |names| ==> names[j] !in drop
    ensures Keep(xs, names, drop) == xs
  {
    if |xs| > 0 {
      var n := |xs| - 1;
      var xs', names' := xs[..n], names[..n];
      assert xs == xs' + [xs[n]] && names == names' + [names[n]];
      KeepAll(xs', names', drop);
      KeepSnoc(xs', names', xs[n], names[n], drop);
    }
  }

  /** Removing the columns of `S` and then those of `U` removes those of `S + U`. */
  lemma RemoveColumnsTwice(m: Matrix, S: set<string>, U: set<string>)
    requires m.WellFormed()
    ensures RemoveColumns(RemoveColumns(m, S), U) == RemoveColumns(m, S + U)
  {
    var m1 := RemoveColumns(m, S);
    var r1, r2 := RemoveColumns(m1, U), RemoveColumns(m, S + U);
    KeepTwice(m.columns, m.columns, S, U);
    assert |r1.rows| == |r2.rows|;
    forall i | 0 <= i < |m.rows|
      ensures r1.rows[i] == r2.rows[i]
    {
      KeepTwice(m.rows[i].cells, m.columns, S, U);
    }
  }

  /** Removing labels that do not occur changes nothing. */
  lemma RemoveColumnsAbsent(m: Matrix, drop: set<string>)
    requires m.WellFormed()
    requires forall c :: c in drop ==> c !in m.columns
    ensures RemoveColumns(m, drop) == m
  {
    var r := RemoveColumns(m, drop);
    KeepAll(m.columns, m.columns, drop);
    forall i | 0 <= i < |m.rows|
      ensures r.rows[i] == m.rows[i]
    {
      KeepAll(m.rows[i].cells, m.columns, drop);
    }
  }

  /** Removing rows whose labels do not occur changes nothing. */
  lemma RemoveRowsAbsent(m: Matrix, drop: set<string>)
    requires forall i :: 0 <= i < |m.rows| ==> m.rows[i].sample !in drop
    ensures RemoveRows(m, drop) == m
  {
    KeepAll(m.rows, Samples(m.rows), drop);
  }
}
