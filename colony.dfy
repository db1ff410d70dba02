// The Colony2 input file writer (Python class `Colony`): a fixed header that
// reports the number of individuals and loci and the random seed, the locus
// names, the marker types and error rates, one genotype line per individual
// with every haplotype replaced by its code from the allele dictionary
// ("0" for a missing cell), and a fixed trailer.
//
// The random seed (`random.randint(1000, 9999)`) is a parameter here.

module Colony {
  import opened Text
  import opened Genotype
  import opened LocusDict

  type Codec = map<string, map<string, string>>

  /** `prepValues(nloci, val)`: `nloci` copies of `str(val)` joined by spaces. */
  function PrepValues(nloci: nat, val: string): (r: string)
    ensures nloci == 0 ==> r == ""
    ensures nloci >= 1 ==> |r| == nloci * (|val| + 1) - 1
  {
    RepeatJoinLength(val, nloci);
    Join(" ", Repeat(val, nloci))
  }

  /** `n` copies of `val` joined by single spaces: `n` values and `n - 1`
      spaces. */
  lemma {:induction false} RepeatJoinLength(val: string, n: nat)
    ensures n >= 1 ==> |Join(" ", Repeat(val, n))| == n * (|val| + 1) - 1
  {
    if n > 1 {
      RepeatJoinLength(val, n - 1);
      JoinSnoc(" ", Repeat(val, n - 1), val);
      assert n * (|val| + 1) - 1 == (n - 1) * (|val| + 1) - 1 + 1 + |val|;
    }
  }

  /** With no loci the line is empty; otherwise splitting it on spaces gives
      back the `nloci` copies of a value that holds no space. */
  lemma PrepValuesFields(nloci: nat, val: string)
    ensures nloci == 0 ==> PrepValues(nloci, val) == ""
    ensures nloci >= 1 && ' ' !in val ==> Split(PrepValues(nloci, val), ' ') == Repeat(val, nloci)
  {
    if nloci >= 1 && ' ' !in val {
      SplitJoin(Repeat(val, nloci), ' ');
    }
  }

  /** The field written for one cell of the column labelled `column`: the
      code of the haplotype in the dictionary of the locus `column[:-2]`, or
      "0" for a missing cell; a haplotype without a code is a KeyError. */
  function GenotypeField(ldict: Codec, column: string, cell: Cell): Result<string>
  {
    match cell
    case None => Ok("0")
    case Some(h) =>
      var loc := Strip2(column);
      if loc in ldict && h in ldict[loc] then Ok(ldict[loc][h]) else Fail(MissingCode(loc, h))
  }

  /** The fields of the first `n` cells of a row, in column order; the first
      cell without a code stops the row. */
  function FieldsUpTo(ldict: Codec, columns: seq<string>, cells: seq<Cell>, n: nat): Result<seq<string>>
    requires n <= |cells| == |columns|
  {
    if n == 0 then Ok([])
    else
      match FieldsUpTo(ldict, columns, cells, n - 1)
      case Fail(e) => Fail(e)
      case Ok(fs) =>
        match GenotypeField(ldict, columns[n - 1], cells[n - 1])
        case Fail(e) => Fail(e)
        case Ok(f) => Ok(fs + [f])
  }

  /** A genotype line: the sample name, a space, and the fields joined by
      spaces (`" ".join([name, " ".join(fields)])`). */
  function SampleLine(ldict: Codec, columns: seq<string>, row: Row): Result<string>
    requires |row.cells| == |columns|
  {
    match FieldsUpTo(ldict, columns, row.cells, |row.cells|)
    case Fail(e) => Fail(e)
    case Ok(fs) => Ok(Join(" ", [row.sample, Join(" ", fs)]))
  }

  /** The genotype lines of the first `n` rows, in row order. */
  function LinesUpTo(ldict: Codec, m: Matrix, n: nat): Result<seq<string>>
    requires m.WellFormed() && n <= |m.rows|
  {
    if n == 0 then Ok([])
    else
      match LinesUpTo(ldict, m, n - 1)
      case Fail(e) => Fail(e)
      case Ok(ls) =>
        match SampleLine(ldict, m.columns, m.rows[n - 1])
        case Fail(e) => Fail(e)
        case Ok(l) => Ok(ls + [l])
  }

  /** The 26 lines before the genotypes: the counts, the run settings and
      the per-locus lines. */
  function Header(m: Matrix, seed: nat): (r: seq<string>)
    ensures |r| == 26
  {
    Counts(m, seed) + Settings + LocusLines(m)
  }

  /** The project name twice, then the numbers of individuals and loci and
      the seed. */
  function Counts(m: Matrix, seed: nat): (r: seq<string>)
    ensures |r| == 5
  {
    [ "'BUTTE'",
      "'BUTTE'",
      NatToString(|m.rows|) + "      ! Number of offspring in the sample",
      NatToString(|m.columns| / 2) + "       ! Number of loci",
      NatToString(seed) + "      ! Seed for random number generator" ]
  }

  /** The fixed run settings and the blank line after them. */
  const Settings: seq<string> :=
    [ "0         ! 0/1=Not updating/updating allele frequency",
      "2         ! 2/1=Dioecious/Monoecious species",
      "0         ! 0/1=Inbreeding absent/present",
      "0         ! 0/1=Diploid species/HaploDiploid species",
      "0  0      ! 0/1=Polygamy/Monogamy for males & females",
      "0         ! 0/1 = Clone inference = No/Yes",
      "1         ! 0/1=Scale full sibship=No/Yes",
      "0         ! 0/1/2/3/4=No/Weak/Medium/Strong sibship prior; 4=Optimal sibship prior for Ne",
      "0         ! 0/1=Unknown/Known population allele frequency",
      "1         ! Number of runs",
      "2         ! 1/2/3/4 = Short/Medium/Long/VeryLong run",
      "1         ! 0/1=Monitor method by Iterate#/Time in second",
      "1         ! Monitor interval in Iterate# / in seconds",
      "0         ! 0/1=DOS/Windows version",
      "1         ! 0/1/2=Pair-Likelihood-Score(PLS)/Full-Likelihood(FL)/FL-PLS-combined(FPLS) method",
      "2         ! 0/1/2/3=Low/Medium/High/VeryHigh precision",
      "" ]

  /** The locus names, then the marker type (0, codominant), the allelic
      dropout rate and the genotyping error rate of every locus. */
  function LocusLines(m: Matrix): (r: seq<string>)
    ensures |r| == 4
  {
    var loci := |m.columns| / 2;
    [ Join(" ", LocusNames(m.columns)),
      PrepValues(loci, "0"),
      PrepValues(loci, "0.0005"),
      PrepValues(loci, "0.0005") ]
  }

  /** The 21 lines after the genotypes. */
  const Trailer: seq<string> :=
    [ "", "0.0  0.0", "0  0", "", "", "0  0", "", "0  0", "",
      "0", "", "0", "", "0", "", "0", "", "0", "", "0", "" ]

  /** The whole file `convert` returns. */
  function ColonyOutput(m: Matrix, ldict: Codec, seed: nat): (r: Result<seq<string>>)
    requires m.WellFormed()
    ensures r.Ok? ==> |r.value| == 47 + |m.rows| && r.value[..26] == Header(m, seed)
  {
    LinesOk(ldict, m, |m.rows|);
    match LinesUpTo(ldict, m, |m.rows|)
    case Fail(e) => Fail(e)
    case Ok(lines) => Ok(Header(m, seed) + lines + Trailer)
  }

  // ---------------------------------------------------------------------
  // Properties of the fields and lines

  /** A row's fields exist exactly when every cell of it has a field; there
      is then one field per column, each the field of its cell. */
  lemma {:induction false} FieldsOk(ldict: Codec, columns: seq<string>, cells: seq<Cell>, n: nat)
    requires n <= |cells| == |columns|
    ensures FieldsUpTo(ldict, columns, cells, n).Ok? <==>
      forall j :: 0 <= j < n ==> GenotypeField(ldict, columns[j], cells[j]).Ok?
    ensures FieldsUpTo(ldict, columns, cells, n).Ok? ==>
      var fs := FieldsUpTo(ldict, columns, cells, n).value;
      |fs| == n && forall j :: 0 <= j < n ==> fs[j] == GenotypeField(ldict, columns[j], cells[j]).value
  {
    if n > 0 {
      FieldsOk(ldict, columns, cells, n - 1);
    }
  }

  /** When a row fails, the error is that of its first cell without a code. */
  lemma {:induction false} FieldsFirstFailure(ldict: Codec, columns: seq<string>, cells: seq<Cell>, n: nat)
    requires n <= |cells| == |columns|
    requires FieldsUpTo(ldict, columns, cells, n).Fail?
    ensures exists j :: (0 <= j < n
      && GenotypeField(ldict, columns[j], cells[j]) == Fail(FieldsUpTo(ldict, columns, cells, n).error)
      && forall k :: 0 <= k < j ==> GenotypeField(ldict, columns[k], cells[k]).Ok?)
  {
    if FieldsUpTo(ldict, columns, cells, n - 1).Fail? {
      FieldsFirstFailure(ldict, columns, cells, n - 1);
    } else {
      FieldsOk(ldict, columns, cells, n - 1);
      assert GenotypeField(ldict, columns[n - 1], cells[n - 1]) == Fail(FieldsUpTo(ldict, columns, cells, n).error);
    }
  }

  /** Once the first cells fail, the whole row fails the same way. */
  lemma {:induction false} FieldsFailExtends(ldict: Codec, columns: seq<string>, cells: seq<Cell>, n: nat, k: nat)
    requires n <= k <= |cells| == |columns|
    requires FieldsUpTo(ldict, columns, cells, n).Fail?
    ensures FieldsUpTo(ldict, columns, cells, k) == FieldsUpTo(ldict, columns, cells, n)
    decreases k - n
  {
    if n < k {
      FieldsFailExtends(ldict, columns, cells, n, k - 1);
    }
  }

  /** The genotype lines exist exactly when every row has its line; there is
      then one line per row, in row order. */
  lemma {:induction false} LinesOk(ldict: Codec, m: Matrix, n: nat)
    requires m.WellFormed() && n <= |m.rows|
    ensures LinesUpTo(ldict, m, n).Ok? <==>
      forall i :: 0 <= i < n ==> SampleLine(ldict, m.columns, m.rows[i]).Ok?
    ensures LinesUpTo(ldict, m, n).Ok? ==>
      var ls := LinesUpTo(ldict, m, n).value;
      |ls| == n && forall i :: 0 <= i < n ==> ls[i] == SampleLine(ldict, m.columns, m.rows[i]).value
  {
    if n > 0 {
      LinesOk(ldict, m, n - 1);
    }
  }

  /** Once the first rows fail, all rows fail the same way. */
  lemma {:induction false} LinesFailExtends(ldict: Codec, m: Matrix, n: nat, k: nat)
    requires m.WellFormed() && n <= k <= |m.rows|
    requires LinesUpTo(ldict, m, n).Fail?
    ensures LinesUpTo(ldict, m, k) == LinesUpTo(ldict, m, n)
    decreases k - n
  {
    if n < k {
      LinesFailExtends(ldict, m, n, k - 1);
    }
  }

  /** A genotype line is the sample name, a space, and the space-separated
      fields; a row with no columns leaves a trailing space. */
  lemma SampleLineShape(ldict: Codec, columns: seq<string>, row: Row)
    requires |row.cells| == |columns|
    requires SampleLine(ldict, columns, row).Ok?
    ensures SampleLine(ldict, columns, row).value ==
      row.sample + " " + Join(" ", FieldsUpTo(ldict, columns, row.cells, |row.cells|).value)
    ensures |columns| == 0 ==> SampleLine(ldict, columns, row).value == row.sample + " "
  {
    var fs := FieldsUpTo(ldict, columns, row.cells, |row.cells|).value;
    JoinCons(" ", row.sample, [Join(" ", fs)]);
  }

  // ---------------------------------------------------------------------
  // Properties of the whole file

  /** A genotype line exists exactly when every cell of the row has a field. */
  lemma SampleLineOk(ldict: Codec, columns: seq<string>, row: Row)
    requires |row.cells| == |columns|
    ensures SampleLine(ldict, columns, row).Ok? <==>
      forall j :: 0 <= j < |columns| ==> GenotypeField(ldict, columns[j], row.cells[j]).Ok?
  {
    FieldsOk(ldict, columns, row.cells, |columns|);
  }

  /** The file is written exactly when every non-missing haplotype has a
      code under its column's locus. */
  lemma ColonyOk(m: Matrix, ldict: Codec, seed: nat)
    requires m.WellFormed()
    ensures ColonyOutput(m, ldict, seed).Ok? <==>
      forall i, j :: 0 <= i < |m.rows| && 0 <= j < |m.columns| ==>
        GenotypeField(ldict, m.columns[j], m.rows[i].cells[j]).Ok?
  {
    LinesOk(ldict, m, |m.rows|);
    forall i | 0 <= i < |m.rows| {
      SampleLineOk(ldict, m.columns, m.rows[i]);
    }
  }

  /** The file has 26 header lines, one line per individual, in row order,
      and the 21 trailer lines: 47 lines more than there are individuals. */
  lemma ColonyLines(m: Matrix, ldict: Codec, seed: nat)
    requires m.WellFormed() && ColonyOutput(m, ldict, seed).Ok?
    ensures var out := ColonyOutput(m, ldict, seed).value;
      && |out| == 47 + |m.rows|
      && out[..26] == Header(m, seed)
      && (forall i :: 0 <= i < |m.rows| ==>
            SampleLine(ldict, m.columns, m.rows[i]).Ok? && out[26 + i] == SampleLine(ldict, m.columns, m.rows[i]).value)
      && out[26 + |m.rows|..] == Trailer
  {
    LinesOk(ldict, m, |m.rows|);
    var lines := LinesUpTo(ldict, m, |m.rows|).value;
    var out := Header(m, seed) + lines + Trailer;
    assert out[..26] == Header(m, seed);
    assert out[26 + |m.rows|..] == Trailer;
  }

  /** The header reports the number of individuals, the number of loci (half
      the column count), the seed and the locus names, and repeats the
      marker type and the two error rates once per locus. */
  lemma HeaderFields(m: Matrix, seed: nat)
    ensures var h := Header(m, seed);
      && h[2] == NatToString(|m.rows|) + "      ! Number of offspring in the sample"
      && h[3] == NatToString(|m.columns| / 2) + "       ! Number of loci"
      && h[4] == NatToString(seed) + "      ! Seed for random number generator"
      && h[22] == Join(" ", LocusNames(m.columns))
      && h[23] == PrepValues(|m.columns| / 2, "0")
      && h[24] == h[25] == PrepValues(|m.columns| / 2, "0.0005")
  {
    var c, l := Counts(m, seed), LocusLines(m);
    assert Header(m, seed)[2] == c[2] && Header(m, seed)[3] == c[3] && Header(m, seed)[4] == c[4];
    assert Header(m, seed)[22..] == l;
  }

  /** A four-digit seed is written with four digits. */
  lemma SeedDigits(seed: nat)
    requires 1000 <= seed <= 9999
    ensures |NatToString(seed)| == 4
  {
    assert NatToString(seed / 1000) == [DigitChar(seed / 1000)];
    assert NatToString(seed / 100) == NatToString(seed / 1000) + [DigitChar(seed / 100 % 10)];
    assert NatToString(seed / 10) == NatToString(seed / 100) + [DigitChar(seed / 10 % 10)];
  }

  // ---------------------------------------------------------------------
  // Recoding with the dictionary of the same table

  /** A column `<locus>_1` or `<locus>_2` of a locus of the table, and the
      first column with its label. */
  predicate AlleleColumn(m: Matrix, j: nat)
    requires j < |m.columns|
  {
    var c := m.columns[j];
    EndsWithAllele(c) && Strip2(c) in LocusNames(m.columns) && IndexOf(m.columns, c) == Some(j)
  }

  /** The dictionary entry of a locus named by the columns holds the codes
      of that locus. */
  lemma CodecEntry(m: Matrix, ldict: Codec, L: string)
    requires m.WellFormed() && BuildCodec(m, LocusNames(m.columns)) == Ok(ldict)
    requires L in LocusNames(m.columns)
    ensures L in ldict && LocusAlleles(m, L).Ok? && ldict[L] == Codes(LocusAlleles(m, L).value)
  {
    BuildCodecEntries(m, LocusNames(m.columns));
  }

  /** A haplotype in an allele column of a locus is one of that locus's
      haplotypes. */
  lemma HaplotypeListed(m: Matrix, i: nat, j: nat, h: string)
    requires m.WellFormed() && i < |m.rows| && j < |m.columns|
    requires EndsWithAllele(m.columns[j]) && IndexOf(m.columns, m.columns[j]) == Some(j)
    requires m.rows[i].cells[j] == Some(h)
    requires LocusAlleles(m, Strip2(m.columns[j])).Ok?
    ensures h in Codes(LocusAlleles(m, Strip2(m.columns[j])).value)
  {
    var c := m.columns[j];
    var L := Strip2(c);
    assert c == L + "_1" || c == L + "_2" by {
      assert c == L + c[|c| - 2..];
    }
    var c1 := ColumnByName(m, L + "_1").value;
    var c2 := ColumnByName(m, L + "_2").value;
    LocusCodesKeys(m, L, c1, c2);
    assert ColumnCells(m.rows, j)[i] == Some(h);
  }

  /** With the dictionary built from the table itself, every haplotype in an
      allele column gets a code, the code is never "0" (so it cannot be taken
      for a missing cell), and it decodes back to the haplotype. */
  lemma FieldDecodes(m: Matrix, ldict: Codec, i: nat, j: nat, h: string)
    requires m.WellFormed() && BuildCodec(m, LocusNames(m.columns)) == Ok(ldict)
    requires i < |m.rows| && j < |m.columns| && AlleleColumn(m, j)
    requires m.rows[i].cells[j] == Some(h)
    ensures var L := Strip2(m.columns[j]);
      && GenotypeField(ldict, m.columns[j], Some(h)).Ok?
      && GenotypeField(ldict, m.columns[j], Some(h)).value != "0"
      && LocusAlleles(m, L).Ok?
      && Decode(LocusAlleles(m, L).value, GenotypeField(ldict, m.columns[j], Some(h)).value) == Some(h)
  {
    var L := Strip2(m.columns[j]);
    CodecEntry(m, ldict, L);
    HaplotypeListed(m, i, j, h);
    var alleles := LocusAlleles(m, L).value;
    CodesNoZero(alleles);
    CodesDecode(alleles);
  }

  /** With the table's own dictionary, a cell of an allele column is written
      "0" exactly when it is missing: the reader of the file can tell missing
      alleles from observed ones. */
  lemma MissingFieldZero(m: Matrix, ldict: Codec, i: nat, j: nat)
    requires m.WellFormed() && BuildCodec(m, LocusNames(m.columns)) == Ok(ldict)
    requires i < |m.rows| && j < |m.columns| && AlleleColumn(m, j)
    ensures GenotypeField(ldict, m.columns[j], m.rows[i].cells[j]) == Ok("0") <==> m.rows[i].cells[j].None?
  {
    if m.rows[i].cells[j].Some? {
      FieldDecodes(m, ldict, i, j, m.rows[i].cells[j].value);
    }
  }

  /** The Colony file of a table whose every column is an allele column,
      written with the table's own dictionary, always exists. */
  lemma ColonyOwnCodec(m: Matrix, ldict: Codec, seed: nat)
    requires m.WellFormed() && BuildCodec(m, LocusNames(m.columns)) == Ok(ldict)
    requires forall j :: 0 <= j < |m.columns| ==> AlleleColumn(m, j)
    ensures ColonyOutput(m, ldict, seed).Ok?
  {
    forall i, j | 0 <= i < |m.rows| && 0 <= j < |m.columns|
      ensures GenotypeField(ldict, m.columns[j], m.rows[i].cells[j]).Ok?
    {
      if m.rows[i].cells[j].Some? {
        FieldDecodes(m, ldict, i, j, m.rows[i].cells[j].value);
      }
    }
    ColonyOk(m, ldict, seed);
  }

  // ---------------------------------------------------------------------
  // The writer

  /** The Colony writer (Python class `Colony`). */
  class Colony {
    const df: Matrix
    const ldict: Codec

    constructor (df: Matrix, ldict: Codec)
      ensures this.df == df && this.ldict == ldict
    {
      this.df := df;
      this.ldict := ldict;
    }

    /** The inner loop of `convert` over the cells of one row. */
    method RowLine(row: Row) returns (r: Result<string>)
      requires |row.cells| == |df.columns|
      ensures r == SampleLine(ldict, df.columns, row)
    {
      var locusList: seq<string> := [];
      var j := 0;
      while j < |row.cells|
        invariant 0 <= j <= |row.cells|
        invariant FieldsUpTo(ldict, df.columns, row.cells, j) == Ok(locusList)
      {
        var field := "0";
        if row.cells[j].Some? {
          var genotype := row.cells[j].value;
          var loc := Strip2(df.columns[j]);
          if !(loc in ldict && genotype in ldict[loc]) {
            FieldsFailExtends(ldict, df.columns, row.cells, j + 1, |row.cells|);
            return Fail(MissingCode(loc, genotype));
          }
          field := ldict[loc][genotype];
        }
        locusList := locusList + [field];
        j := j + 1;
      }
      var locusStr := Join(" ", locusList);
      r := Ok(Join(" ", [row.sample, locusStr]));
    }

    /** `convert`, with the seed drawn by the caller. */
    method Convert(seed: nat) returns (r: Result<seq<string>>)
      requires df.WellFormed() && 1000 <= seed <= 9999
      ensures r == ColonyOutput(df, ldict, seed)
    {
      var output := Header(df, seed);
      ghost var lines: seq<string> := [];
      var i := 0;
      while i < |df.rows|
        invariant 0 <= i <= |df.rows|
        invariant LinesUpTo(ldict, df, i) == Ok(lines)
        invariant output == Header(df, seed) + lines
      {
        var sampleStr := RowLine(df.rows[i]);
        if sampleStr.Fail? {
          LinesFailExtends(ldict, df, i + 1, |df.rows|);
          return Fail(sampleStr.error);
        }
        output := output + [sampleStr.value];
        lines := lines + [sampleStr.value];
        i := i + 1;
      }
      output := output + Trailer;
      r := Ok(output);
    }
  }
}
