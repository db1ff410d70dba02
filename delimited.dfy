// The delimited-text layout shared by the CKMRsim (tab) and csv (comma)
// writers: a header `indiv<sep><column><sep>...`, then one line per sample
// holding its name and its cells, "NA" standing for a missing cell.

module Delimited {
  import opened Text
  import opened Genotype

  /** The text of one cell: the haplotype, or "NA" when it is missing. */
  function CellText(c: Cell): string
  {
    match c
    case None => "NA"
    case Some(h) => h
  }

  /** The texts of a row's cells, in column order. */
  function CellTexts(cells: seq<Cell>): (r: seq<string>)
    ensures |r| == |cells|
  {
    seq(|cells|, j requires 0 <= j < |cells| => CellText(cells[j]))
  }

  /** The header line: "indiv" followed by the column labels. */
  function HeaderLine(sep: char, columns: seq<string>): string
  {
    Join([sep], ["indiv"] + columns)
  }

  /** A sample line, built as the writers build it: the cell texts joined,
      then the name and that text joined (`sep.join([name, sep.join(fields)])`). */
  function SampleLine(sep: char, row: Row): string
  {
    Join([sep], [row.sample, Join([sep], CellTexts(row.cells))])
  }

  /** The line of every row, in row order. */
  function RowLines(sep: char, m: Matrix): (r: seq<string>)
    ensures |r| == |m.rows|
  {
    seq(|m.rows|, i requires 0 <= i < |m.rows| => SampleLine(sep, m.rows[i]))
  }

  /** No label holds the separator. */
  predicate SeparatorFree(sep: char, xs: seq<string>)
  {
    forall i :: 0 <= i < |xs| ==> sep !in xs[i]
  }

  /** Splitting the header on the separator gives "indiv" and the labels back,
      when no label holds the separator. */
  lemma HeaderFields(sep: char, columns: seq<string>)
    requires sep != 'i' && sep != 'n' && sep != 'd' && sep != 'v'
    requires SeparatorFree(sep, columns)
    ensures Split(HeaderLine(sep, columns), sep) == ["indiv"] + columns
    ensures |Split(HeaderLine(sep, columns), sep)| == |columns| + 1
  {
    var xs := ["indiv"] + columns;
    forall i | 0 <= i < |xs|
      ensures sep !in xs[i]
    {
      if i > 0 {
        assert xs[i] == columns[i - 1];
      }
    }
    SplitJoin(xs, sep);
  }

  /** Neither the sample name nor any haplotype of the row holds the separator. */
  predicate CleanRow(sep: char, row: Row)
  {
    && sep !in row.sample
    && forall j :: 0 <= j < |row.cells| && row.cells[j].Some? ==> sep !in row.cells[j].value
  }

  /** A row with cells: its line splits into the name followed by one text
      per cell: "NA" for a missing cell, the haplotype otherwise. */
  lemma SampleLineFields(sep: char, row: Row)
    requires |row.cells| >= 1
    requires CleanRow(sep, row) && sep != 'N' && sep != 'A'
    ensures var fs := Split(SampleLine(sep, row), sep);
      && |fs| == |row.cells| + 1
      && fs[0] == row.sample
      && forall j :: 0 <= j < |row.cells| ==>
           (row.cells[j].None? ==> fs[j + 1] == "NA")
           && (row.cells[j].Some? ==> fs[j + 1] == row.cells[j].value)
  {
    var texts := CellTexts(row.cells);
    JoinCons([sep], row.sample, [Join([sep], texts)]);
    JoinCons([sep], row.sample, texts);
    var xs := [row.sample] + texts;
    forall i | 0 <= i < |xs|
      ensures sep !in xs[i]
    {
      if i > 0 {
        assert xs[i] == CellText(row.cells[i - 1]);
      }
    }
    SplitJoin(xs, sep);
  }

  /** A row without cells still gets the separator after its name. */
  lemma EmptyRowLine(sep: char, row: Row)
    requires |row.cells| == 0
    ensures SampleLine(sep, row) == row.sample + [sep]
  {
    assert CellTexts(row.cells) == [];
    assert Join([sep], [row.sample, ""]) == row.sample + [sep] + Join([sep], [""]);
  }
}
