// The filtered-csv writer (Python class `CSVfiltered`): the genotype table
// as comma-separated text, a header line "indiv,<column>,..." and then one
// line per sample in row order, "NA" standing for a missing cell.

module CsvFiltered {
  import opened Text
  import opened Genotype
  import opened Delimited

  const Comma: char := ','

  /** The whole csv output: the header, then every row's line. */
  function CsvOutput(m: Matrix): (r: seq<string>)
    ensures |r| == |m.rows| + 1
  {
    [HeaderLine(Comma, m.columns)] + RowLines(Comma, m)
  }

  /** Read back with a comma split, the header gives "indiv" and the column
      labels, and the line of every sample gives its name and then one field
      per column ("NA" where the cell is missing): the output is a
      rectangular table, as long as no label or haplotype holds a comma. */
  lemma CsvReadBack(m: Matrix, i: nat)
    requires m.WellFormed() && |m.columns| >= 1 && i < |m.rows|
    requires SeparatorFree(Comma, m.columns) && CleanRow(Comma, m.rows[i])
    ensures Split(CsvOutput(m)[0], Comma) == ["indiv"] + m.columns
    ensures var fs := Split(CsvOutput(m)[i + 1], Comma);
      && |fs| == |m.columns| + 1
      && fs[0] == m.rows[i].sample
      && forall j :: 0 <= j < |m.columns| ==>
           (m.rows[i].cells[j].None? ==> fs[j + 1] == "NA")
           && (m.rows[i].cells[j].Some? ==> fs[j + 1] == m.rows[i].cells[j].value)
  {
    HeaderFields(Comma, m.columns);
    SampleLineFields(Comma, m.rows[i]);
  }

  /** A table without columns still writes a comma after every name. */
  lemma CsvNoColumns(m: Matrix, i: nat)
    requires m.WellFormed() && |m.columns| == 0 && i < |m.rows|
    ensures CsvOutput(m)[i + 1] == m.rows[i].sample + ","
  {
    EmptyRowLine(Comma, m.rows[i]);
  }

  /** The csv writer (Python class `CSVfiltered`). */
  class CSVfiltered {
    const df: Matrix

    constructor (df: Matrix)
      ensures this.df == df
    {
      this.df := df;
    }

    /** `convert`. */
    method Convert() returns (output: seq<string>)
      ensures output == CsvOutput(df)
    {
      var headerStr := HeaderLine(Comma, df.columns);   // "indiv" and the column labels
      output := [headerStr];
      for i := 0 to |df.rows|
        invariant output == [headerStr] + RowLines(Comma, df)[..i]
      {
        var row := df.rows[i];
        var locusList: seq<string> := [];
        for j := 0 to |row.cells|
          invariant locusList == CellTexts(row.cells[..j])
        {
          var text := if row.cells[j].Some? then row.cells[j].value else "NA";
          assert row.cells[..j + 1] == row.cells[..j] + [row.cells[j]];
          locusList := locusList + [text];
        }
        assert row.cells[..|row.cells|] == row.cells;
        var locusStr := Join([Comma], locusList);
        var sampleStr := Join([Comma], [row.sample, locusStr]);
        assert RowLines(Comma, df)[..i + 1] == RowLines(Comma, df)[..i] + [sampleStr];
        output := output + [sampleStr];
      }
      assert RowLines(Comma, df)[..|df.rows|] == RowLines(Comma, df);
    }
  }
}
