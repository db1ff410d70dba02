// The conversion driver (Python class `MHconvert`): it runs the converter
// of every output format whose flag is set, names the output file after
// the input file (or `Colony2.Dat` for Colony), and builds the per-position
// character tables of the loci (`convSNP`).
//
// The converters are looked up by name (`conv_<format>`); only `colony`
// and `csv` exist, so the lookup is a closed dispatch here. Writing the
// files is left out: `Convert` returns the (file name, lines) pairs it
// would write, in order.

module MHconvert {
  import opened Text
  import opened Genotype
  import opened Colony
  import opened CsvFiltered
  import opened SnpTables

  datatype Format = ColonyFormat | CsvFormat

  /** `convert_to`'s lookup of `conv_<name>`: any other name has no converter. */
  function FormatOf(name: string): (r: Result<Format>)
    ensures r.Ok? <==> name == "colony" || name == "csv"
    ensures r.Fail? ==> r.error == UnknownFormat(name)
  {
    if name == "colony" then Ok(ColonyFormat)
    else if name == "csv" then Ok(CsvFormat)
    else Fail(UnknownFormat(name))
  }

  /** The suffix table `{'colony': 'Dat', 'csv': 'csv'}`. */
  function Suffix(f: Format): string
  {
    match f
    case ColonyFormat => "Dat"
    case CsvFormat => "csv"
  }

  // ---------------------------------------------------------------------
  // Output names

  /** `os.path.join(dir, name)` on POSIX: an absolute `name` replaces the
      directory; otherwise one slash separates them, unless `dir` is empty
      or already ends with one. */
  function PathJoin(dir: string, name: string): (r: string)
    ensures EndsWith(r, name)
    ensures |name| > 0 && name[0] == '/' ==> r == name
    ensures (|name| == 0 || name[0] != '/') ==> |dir| <= |r| && r[..|dir|] == dir
  {
    if |name| > 0 && name[0] == '/' then name
    else if |dir| == 0 || dir[|dir| - 1] == '/' then dir + name
    else dir + "/" + name
  }

  /** The input file name with spaces turned into underscores and its last
      `.`-separated component replaced by the suffix. */
  function BaseName(fileName: string, suffix: string): (r: string)
    ensures EndsWith(r, suffix)
  {
    var parts := Split(ReplaceChar(fileName, ' ', '_'), '.');
    var xs := parts[..|parts| - 1] + [suffix];
    JoinLast(".", xs);
    Join(".", xs)
  }

  /** The name `printOutput` writes to. */
  function OutputName(convertedDir: string, fileName: string, suffix: string): (r: string)
    ensures suffix == "Dat" ==> EndsWith(r, "Colony2.Dat")
    ensures suffix != "Dat" ==> EndsWith(r, suffix)
  {
    if suffix == "Dat" then PathJoin(convertedDir, "Colony2.Dat")
    else PathJoin(convertedDir, BaseName(fileName, suffix))
  }

  /** A name with an extension keeps its stem (spaces made underscores) and
      gets the suffix as its new extension. */
  lemma BaseNameReplacesExtension(fileName: string, suffix: string, stem: string, ext: string)
    requires ReplaceChar(fileName, ' ', '_') == stem + "." + ext && '.' !in ext
    ensures BaseName(fileName, suffix) == stem + "." + suffix
  {
    SplitConcat(stem, ext, '.');
    SplitNoSep(ext, '.');
    var parts := Split(stem, '.') + [ext];
    assert parts[..|parts| - 1] == Split(stem, '.');
    JoinSnoc(".", Split(stem, '.'), suffix);
    JoinSplit(stem, '.');
  }

  /** A name without a `.` is replaced by the suffix alone. */
  lemma BaseNameWithoutDot(fileName: string, suffix: string)
    requires '.' !in fileName
    ensures BaseName(fileName, suffix) == suffix
  {
    var n := ReplaceChar(fileName, ' ', '_');
    SplitNoSep(n, '.');
  }

  /** The new name holds no space when the suffix holds none. */
  lemma BaseNameNoSpace(fileName: string, suffix: string)
    requires ' ' !in suffix
    ensures ' ' !in BaseName(fileName, suffix)
  {
    var n := ReplaceChar(fileName, ' ', '_');
    var parts := Split(n, '.');
    SplitAvoids(n, '.', ' ');
    var xs := parts[..|parts| - 1] + [suffix];
    forall k | 0 <= k < |xs|
      ensures ' ' !in xs[k]
    {
      if k < |parts| - 1 {
        assert xs[k] == parts[k];
      }
    }
    JoinAvoids(".", xs, ' ');
  }

  /** The Colony file and the csv file of one run never get the same name:
      one ends in "Dat", the other in "csv". */
  lemma ColonyAndCsvNamesDiffer(convertedDir: string, fileName: string)
    ensures OutputName(convertedDir, fileName, "Dat") != OutputName(convertedDir, fileName, "csv")
  {
    var c := OutputName(convertedDir, fileName, "Dat");
    var o := OutputName(convertedDir, fileName, "csv");
    assert c[|c| - 1] == "Colony2.Dat"[10] == 't';
    assert o[|o| - 1] == "csv"[2] == 'v';
  }

  /** An absolute input name leaves the converted-files directory behind:
      the csv output goes next to the input file. */
  lemma AbsoluteInputEscapesDirectory(convertedDir: string, stem: string, ext: string)
    requires |stem| > 0 && stem[0] == '/' && ' ' !in stem && '.' !in ext && ' ' !in ext
    ensures OutputName(convertedDir, stem + "." + ext, "csv") == stem + ".csv"
  {
    var fileName := stem + "." + ext;
    assert ReplaceChar(fileName, ' ', '_') == stem + "." + ext;
    BaseNameReplacesExtension(fileName, "csv", stem, ext);
  }

  // ---------------------------------------------------------------------
  // Dispatch

  /** What `convert_to(name)` returns: the lines of the named format, or a
      failure (no converter, or a haplotype the Colony writer cannot code). */
  function FormatOutput(df: Matrix, ldict: Codec, name: string, seed: nat): Result<seq<string>>
    requires df.WellFormed()
  {
    match FormatOf(name)
    case Fail(e) => Fail(e)
    case Ok(ColonyFormat) => ColonyOutput(df, ldict, seed)
    case Ok(CsvFormat) => Ok(CsvOutput(df))
  }

  /** The tags whose flag is set, in order. */
  function Flagged(flags: seq<(string, bool)>): (r: seq<string>)
    ensures |r| <= |flags|
  {
    if |flags| == 0 then []
    else Flagged(flags[..|flags| - 1]) + (if flags[|flags| - 1].1 then [flags[|flags| - 1].0] else [])
  }

  /** Every one of the tags converts. */
  predicate AllConvert(df: Matrix, ldict: Codec, tags: seq<string>, seed: nat)
    requires df.WellFormed()
  {
    forall k :: 0 <= k < |tags| ==> FormatOutput(df, ldict, tags[k], seed).Ok?
  }

  /** The file written for a tag that converts: its name and its lines. */
  function FileOf(df: Matrix, ldict: Codec, infile: string, dir: string, tag: string, seed: nat): (string, seq<string>)
    requires df.WellFormed() && FormatOutput(df, ldict, tag, seed).Ok?
  {
    (OutputName(dir, infile, Suffix(FormatOf(tag).value)), FormatOutput(df, ldict, tag, seed).value)
  }

  /** The files of the given tags, one per tag, in order. */
  function Expected(df: Matrix, ldict: Codec, infile: string, dir: string, tags: seq<string>, seed: nat)
    : (r: seq<(string, seq<string>)>)
    requires df.WellFormed() && AllConvert(df, ldict, tags, seed)
    ensures |r| == |tags|
  {
    seq(|tags|, k requires 0 <= k < |tags| => FileOf(df, ldict, infile, dir, tags[k], seed))
  }

  /** The files written for the first `n` flags: one (name, lines) pair per
      set flag, in order; the first failing conversion stops the run. */
  function WrittenUpTo(df: Matrix, ldict: Codec, infile: string, dir: string,
                       flags: seq<(string, bool)>, seed: nat, n: nat): Result<seq<(string, seq<string>)>>
    requires df.WellFormed() && n <= |flags|
  {
    if n == 0 then Ok([])
    else
      match WrittenUpTo(df, ldict, infile, dir, flags, seed, n - 1)
      case Fail(e) => Fail(e)
      case Ok(w) =>
        var (name, flag) := flags[n - 1];
        if !flag then Ok(w)
        else
          match FormatOutput(df, ldict, name, seed)
          case Fail(e) => Fail(e)
          case Ok(_) => Ok(w + [FileOf(df, ldict, infile, dir, name, seed)])
  }

  /** One more flag: an unset flag adds nothing, a set flag whose format
      converts adds that format's file. */
  lemma WrittenNext(df: Matrix, ldict: Codec, infile: string, dir: string,
                    flags: seq<(string, bool)>, seed: nat, i: nat, w: seq<(string, seq<string>)>)
    requires df.WellFormed() && i < |flags| && WrittenUpTo(df, ldict, infile, dir, flags, seed, i) == Ok(w)
    ensures !flags[i].1 ==> WrittenUpTo(df, ldict, infile, dir, flags, seed, i + 1) == Ok(w)
    ensures flags[i].1 && FormatOutput(df, ldict, flags[i].0, seed).Ok? ==>
      WrittenUpTo(df, ldict, infile, dir, flags, seed, i + 1) == Ok(w + [FileOf(df, ldict, infile, dir, flags[i].0, seed)])
  {
  }

  lemma FlaggedStep(flags: seq<(string, bool)>, n: nat)
    requires 1 <= n <= |flags|
    ensures Flagged(flags[..n]) == Flagged(flags[..n - 1]) + (if flags[n - 1].1 then [flags[n - 1].0] else [])
  {
    assert flags[..n][..n - 1] == flags[..n - 1];
  }

  lemma AllConvertSnoc(df: Matrix, ldict: Codec, tags: seq<string>, tag: string, seed: nat)
    requires df.WellFormed()
    ensures AllConvert(df, ldict, tags + [tag], seed)
      <==> AllConvert(df, ldict, tags, seed) && FormatOutput(df, ldict, tag, seed).Ok?
  {
    var tags' := tags + [tag];
    assert forall k :: 0 <= k < |tags| ==> tags'[k] == tags[k];
    assert tags'[|tags|] == tag;
  }

  /** The run succeeds exactly when every flagged format converts. */
  lemma {:induction false} WrittenOk(df: Matrix, ldict: Codec, infile: string, dir: string,
                                     flags: seq<(string, bool)>, seed: nat, n: nat)
    requires df.WellFormed() && n <= |flags|
    ensures WrittenUpTo(df, ldict, infile, dir, flags, seed, n).Ok?
      <==> AllConvert(df, ldict, Flagged(flags[..n]), seed)
  {
    if n > 0 {
      WrittenOk(df, ldict, infile, dir, flags, seed, n - 1);
      FlaggedStep(flags, n);
      var tags := Flagged(flags[..n - 1]);
      if flags[n - 1].1 {
        AllConvertSnoc(df, ldict, tags, flags[n - 1].0, seed);
      } else {
        assert Flagged(flags[..n]) == tags;
      }
    }
  }

  /** A successful run writes one file per flagged format, in flag order,
      each under its format's name and holding that format's lines. */
  lemma {:induction false} WrittenFiles(df: Matrix, ldict: Codec, infile: string, dir: string,
                                        flags: seq<(string, bool)>, seed: nat, n: nat)
    requires df.WellFormed() && n <= |flags|
    requires WrittenUpTo(df, ldict, infile, dir, flags, seed, n).Ok?
    ensures AllConvert(df, ldict, Flagged(flags[..n]), seed)
    ensures WrittenUpTo(df, ldict, infile, dir, flags, seed, n).value
      == Expected(df, ldict, infile, dir, Flagged(flags[..n]), seed)
  {
    WrittenOk(df, ldict, infile, dir, flags, seed, n);
    if n > 0 {
      WrittenFiles(df, ldict, infile, dir, flags, seed, n - 1);
      FlaggedStep(flags, n);
      var tags := Flagged(flags[..n - 1]);
      AllConvertSnoc(df, ldict, tags, flags[n - 1].0, seed);
    }
  }

  /** A set flag with no converter stops the run with that tag, unless an
      earlier conversion has failed already. */
  lemma UnknownFlagFails(df: Matrix, ldict: Codec, infile: string, dir: string,
                         flags: seq<(string, bool)>, seed: nat, n: nat)
    requires df.WellFormed() && 1 <= n <= |flags|
    requires flags[n - 1].1 && FormatOf(flags[n - 1].0).Fail?
    requires WrittenUpTo(df, ldict, infile, dir, flags, seed, n - 1).Ok?
    ensures WrittenUpTo(df, ldict, infile, dir, flags, seed, n) == Fail(UnknownFormat(flags[n - 1].0))
  {
  }

  /** Once a conversion fails, the run fails with that error. */
  lemma {:induction false} WrittenFailExtends(df: Matrix, ldict: Codec, infile: string, dir: string,
                                              flags: seq<(string, bool)>, seed: nat, n: nat, k: nat)
    requires df.WellFormed() && n <= k <= |flags|
    requires WrittenUpTo(df, ldict, infile, dir, flags, seed, n).Fail?
    ensures WrittenUpTo(df, ldict, infile, dir, flags, seed, k) == WrittenUpTo(df, ldict, infile, dir, flags, seed, n)
    decreases k - n
  {
    if k > n {
      WrittenFailExtends(df, ldict, infile, dir, flags, seed, n, k - 1);
    }
  }

  // ---------------------------------------------------------------------
  // The driver

  /** The conversion driver (Python class `MHconvert`). */
  class MHconvert {
    const df: Matrix
    const infile: string
    const ldict: Codec
    const convertedDir: string
    const alleleFreqs: map<string, Items>

    constructor (df: Matrix, infile: string, ldict: Codec, convertedDir: string, alleleFreqs: map<string, Items>)
      ensures this.df == df && this.infile == infile && this.ldict == ldict
      ensures this.convertedDir == convertedDir && this.alleleFreqs == alleleFreqs
    {
      this.df := df;
      this.infile := infile;
      this.ldict := ldict;
      this.convertedDir := convertedDir;
      this.alleleFreqs := alleleFreqs;
    }

    /** `conv_csv`. */
    method ConvCsv() returns (output: seq<string>)
      ensures output == CsvOutput(df)
    {
      var csv := new CSVfiltered(df);
      output := csv.Convert();
    }

    /** `conv_colony`, with the Colony writer's random seed passed in. */
    method ConvColony(seed: nat) returns (r: Result<seq<string>>)
      requires df.WellFormed() && 1000 <= seed <= 9999
      ensures r == ColonyOutput(df, ldict, seed)
    {
      var cy := new Colony(df, ldict);
      r := cy.Convert(seed);
    }

    /** `convert_to`. */
    method ConvertTo(name: string, seed: nat) returns (r: Result<seq<string>>)
      requires df.WellFormed() && 1000 <= seed <= 9999
      ensures r == FormatOutput(df, ldict, name, seed)
    {
      if name == "colony" {
        r := ConvColony(seed);
      } else if name == "csv" {
        var output := ConvCsv();
        r := Ok(output);
      } else {
        r := Fail(UnknownFormat(name));
      }
    }

    /** `convert`: every flagged format converted and named, in flag order. */
    method Convert(d: seq<(string, bool)>, seed: nat) returns (r: Result<seq<(string, seq<string>)>>)
      requires df.WellFormed() && 1000 <= seed <= 9999
      ensures r == WrittenUpTo(df, ldict, infile, convertedDir, d, seed, |d|)
    {
      var written: seq<(string, seq<string>)> := [];
      for i := 0 to |d|
        invariant WrittenUpTo(df, ldict, infile, convertedDir, d, seed, i) == Ok(written)
      {
        var (filetype, boolean) := d[i];
        WrittenNext(df, ldict, infile, convertedDir, d, seed, i, written);
        if boolean {
          var output := ConvertTo(filetype, seed);
          if output.Fail? {
            WrittenFailExtends(df, ldict, infile, convertedDir, d, seed, i + 1, |d|);
            return Fail(output.error);
          }
          var outName := OutputName(convertedDir, infile, Suffix(FormatOf(filetype).value));
          written := written + [(outName, output.value)];
        }
      }
      r := Ok(written);
    }

    /** `convSNP`: one table per locus named by the allele columns. */
    method ConvSNP() returns (r: Result<map<string, Table>>)
      ensures r == TablesUpTo(LocusNames(df.columns), alleleFreqs, |LocusNames(df.columns)|)
    {
      var superDict: map<string, Table> := map[];
      var singleLoci := LocusNames(df.columns);
      for k := 0 to |singleLoci|
        invariant TablesUpTo(singleLoci, alleleFreqs, k) == Ok(superDict)
      {
        var locus := singleLoci[k];
        if locus !in alleleFreqs {
          TablesFailExtends(singleLoci, alleleFreqs, k + 1, |singleLoci|);
          return Fail(MissingFrequencies(locus));
        }
        var locDict := LocusTable(alleleFreqs[locus]);
        TablesNext(singleLoci, alleleFreqs, k, superDict);
        superDict := superDict[locus := locDict];
      }
      r := Ok(superDict);
    }

    /** The two inner loops of `convSNP`: the table of one locus, built
        haplotype by haplotype and position by position. */
    static method LocusTable(items: Items) returns (locDict: Table)
      ensures locDict == TableOf(items, |items|)
    {
      locDict := map[];
      for i := 0 to |items|
        invariant locDict == TableOf(items, i)
      {
        var (key, val) := items[i];
        for count := 0 to |key|
          invariant locDict == AddHap(TableOf(items, i), key, val, count)
        {
          locDict := Bump(locDict, count, key[count], val);
        }
        TableOfNext(items, i);
      }
    }
  }
}
