// The CKMRsim writer (Python class `CKMR`): the genotype table as
// tab-separated text, offspring first and the candidate parents after, each
// block under its own copy of the header line. Whether a sample is an
// offspring comes from its role in the colony data (the `colony2` column
// popped from the input table), compared with "offspring" without regard
// to case (`casefold`).
//
// The colony data is a pandas Series indexed by sample name; it is modelled
// as a map from sample name to cell. A sample with no entry (a KeyError) or
// with a missing entry (NaN has no `casefold`) stops the conversion.

module Ckmr {
  import opened Text
  import opened Genotype
  import opened Delimited

  type RoleData = map<string, Cell>

  const Tab: char := '\t'

  /** The role of a sample, read from the colony data. */
  function RoleOf(cDat: RoleData, sample: string): Result<string>
  {
    if sample in cDat && cDat[sample].Some? then Ok(cDat[sample].value)
    else Fail(MissingRole(sample))
  }

  /** `role.casefold() == "offspring".casefold()`; "offspring" is its own
      case fold (`OffspringFolded`). */
  predicate IsOffspring(role: string)
  {
    CaseFold(role) == "offspring"
  }

  lemma OffspringFolded()
    ensures CaseFold("offspring") == "offspring"
  {
    CaseFoldAscii("offspring");
  }

  /** A role written in ASCII letters names an offspring exactly when it
      spells "offspring" in any mix of upper and lower case. */
  lemma OffspringAnyCase(role: string)
    requires forall i :: 0 <= i < |role| ==> IsAsciiLetter(role[i])
    ensures IsOffspring(role) <==>
      |role| == 9 && forall i :: 0 <= i < 9 ==> LowerChar(role[i]) == "offspring"[i]
  {
    CaseFoldAscii(role);
  }

  /** Every sample among the first `n` rows has a role. */
  predicate RolesKnown(m: Matrix, cDat: RoleData, n: nat)
    requires n <= |m.rows|
  {
    forall i :: 0 <= i < n ==> RoleOf(cDat, m.rows[i].sample).Ok?
  }

  /** For each of the first `n` rows, whether it is an offspring row; the
      first sample without a role stops the conversion. */
  function KindsUpTo(m: Matrix, cDat: RoleData, n: nat): (r: Result<seq<bool>>)
    requires n <= |m.rows|
    ensures r.Ok? ==> |r.value| == n
  {
    if n == 0 then Ok([])
    else
      match KindsUpTo(m, cDat, n - 1)
      case Fail(e) => Fail(e)
      case Ok(ks) =>
        match RoleOf(cDat, m.rows[n - 1].sample)
        case Fail(e) => Fail(e)
        case Ok(role) => Ok(ks + [IsOffspring(role)])
  }

  /** The lines whose kind is `want`, in order. */
  function Select(lines: seq<string>, ks: seq<bool>, want: bool): seq<string>
    requires |ks| <= |lines|
  {
    if |ks| == 0 then []
    else
      var n := |ks| - 1;
      Select(lines, ks[..n], want) + (if ks[n] == want then [lines[n]] else [])
  }

  /** The whole CKMRsim output: the header and the offspring lines, then the
      header again and the parent lines. */
  function CkmrOutput(m: Matrix, cDat: RoleData): (r: Result<seq<string>>)
    ensures r.Ok? ==> |r.value| == |m.rows| + 2 && r.value[0] == HeaderLine(Tab, m.columns)
  {
    match KindsUpTo(m, cDat, |m.rows|)
    case Fail(e) => Fail(e)
    case Ok(ks) =>
      var header := HeaderLine(Tab, m.columns);
      AssembleLayout(header, RowLines(Tab, m), ks);
      Ok([header] + Select(RowLines(Tab, m), ks, true) + [header] + Select(RowLines(Tab, m), ks, false))
  }

  /** The kinds exist exactly when every sample has a role, and each one says
      whether that sample's role is "offspring" up to case. */
  lemma KindsSpec(m: Matrix, cDat: RoleData, n: nat)
    requires n <= |m.rows|
    ensures KindsUpTo(m, cDat, n).Ok? <==> RolesKnown(m, cDat, n)
    ensures KindsUpTo(m, cDat, n).Ok? ==> forall i :: 0 <= i < n ==>
      KindsUpTo(m, cDat, n).value[i] == IsOffspring(RoleOf(cDat, m.rows[i].sample).value)
  {
    KindsOk(m, cDat, n);
    if KindsUpTo(m, cDat, n).Ok? {
      KindsValues(m, cDat, n);
    }
  }

  lemma {:induction false} KindsOk(m: Matrix, cDat: RoleData, n: nat)
    requires n <= |m.rows|
    ensures KindsUpTo(m, cDat, n).Ok? <==> RolesKnown(m, cDat, n)
  {
    if n > 0 {
      KindsOk(m, cDat, n - 1);
    }
  }

  lemma {:induction false} KindsValues(m: Matrix, cDat: RoleData, n: nat)
    requires n <= |m.rows| && KindsUpTo(m, cDat, n).Ok?
    ensures forall i :: 0 <= i < n ==>
      (RoleOf(cDat, m.rows[i].sample).Ok?
       && KindsUpTo(m, cDat, n).value[i] == IsOffspring(RoleOf(cDat, m.rows[i].sample).value))
  {
    if n > 0 {
      KindsValues(m, cDat, n - 1);
      var ks := KindsUpTo(m, cDat, n - 1).value;
      assert KindsUpTo(m, cDat, n).value == ks + [IsOffspring(RoleOf(cDat, m.rows[n - 1].sample).value)];
    }
  }

  /** One more row with a role adds its kind. */
  lemma KindsStep(m: Matrix, cDat: RoleData, n: nat, ks: seq<bool>)
    requires n < |m.rows| && KindsUpTo(m, cDat, n) == Ok(ks)
    requires RoleOf(cDat, m.rows[n].sample).Ok?
    ensures KindsUpTo(m, cDat, n + 1) == Ok(ks + [IsOffspring(RoleOf(cDat, m.rows[n].sample).value)])
  {
  }

  /** One more row adds its line to the block of its kind only. */
  lemma SelectStep(lines: seq<string>, ks: seq<bool>, k: bool, want: bool)
    requires |ks| < |lines|
    ensures Select(lines, ks + [k], want)
      == Select(lines, ks, want) + (if k == want then [lines[|ks|]] else [])
  {
    assert (ks + [k])[..|ks|] == ks;
  }

  /** The two lists `convert` holds after the first `n` rows: each starts
      with the header and continues with the lines of its kind. */
  function ConvertState(m: Matrix, cDat: RoleData, n: nat): Result<(seq<string>, seq<string>)>
    requires n <= |m.rows|
  {
    match KindsUpTo(m, cDat, n)
    case Fail(e) => Fail(e)
    case Ok(ks) =>
      var header := HeaderLine(Tab, m.columns);
      Ok(([header] + Select(RowLines(Tab, m), ks, true), [header] + Select(RowLines(Tab, m), ks, false)))
  }

  /** One pass of the loop of `convert`: a sample without a role ends the
      conversion with that error; otherwise its line joins its block. */
  lemma ConvertStep(m: Matrix, cDat: RoleData, n: nat, offspring: seq<string>, parents: seq<string>)
    requires n < |m.rows| && ConvertState(m, cDat, n) == Ok((offspring, parents))
    ensures RoleOf(cDat, m.rows[n].sample).Fail? ==>
      CkmrOutput(m, cDat) == Fail(MissingRole(m.rows[n].sample))
    ensures RoleOf(cDat, m.rows[n].sample).Ok? ==>
      var line := SampleLine(Tab, m.rows[n]);
      ConvertState(m, cDat, n + 1) ==
        if IsOffspring(RoleOf(cDat, m.rows[n].sample).value) then Ok((offspring + [line], parents))
        else Ok((offspring, parents + [line]))
  {
    var ks := KindsUpTo(m, cDat, n).value;
    if RoleOf(cDat, m.rows[n].sample).Fail? {
      KindsFailExtends(m, cDat, n + 1, |m.rows|);
    } else {
      var k := IsOffspring(RoleOf(cDat, m.rows[n].sample).value);
      KindsStep(m, cDat, n, ks);
      SelectStep(RowLines(Tab, m), ks, k, true);
      SelectStep(RowLines(Tab, m), ks, k, false);
      var line := SampleLine(Tab, m.rows[n]);
      assert RowLines(Tab, m)[n] == line;
      var header := HeaderLine(Tab, m.columns);
      assert offspring == [header] + Select(RowLines(Tab, m), ks, true);
      assert parents == [header] + Select(RowLines(Tab, m), ks, false);
      if k {
        assert [header] + Select(RowLines(Tab, m), ks + [k], true) == offspring + [line];
        assert [header] + Select(RowLines(Tab, m), ks + [k], false) == parents;
      } else {
        assert [header] + Select(RowLines(Tab, m), ks + [k], true) == offspring;
        assert [header] + Select(RowLines(Tab, m), ks + [k], false) == parents + [line];
      }
    }
  }

  /** Before the loop both lists hold the header alone. */
  lemma ConvertStart(m: Matrix, cDat: RoleData)
    ensures ConvertState(m, cDat, 0) == Ok(([HeaderLine(Tab, m.columns)], [HeaderLine(Tab, m.columns)]))
  {
    assert Select(RowLines(Tab, m), [], true) == [];
    assert Select(RowLines(Tab, m), [], false) == [];
    assert [HeaderLine(Tab, m.columns)] + [] == [HeaderLine(Tab, m.columns)];
  }

  /** After the loop the output is the offspring list followed by the
      parent list. */
  lemma ConvertDone(m: Matrix, cDat: RoleData, offspring: seq<string>, parents: seq<string>)
    requires ConvertState(m, cDat, |m.rows|) == Ok((offspring, parents))
    ensures CkmrOutput(m, cDat) == Ok(offspring + parents)
  {
    var ks := KindsUpTo(m, cDat, |m.rows|).value;
    var header := HeaderLine(Tab, m.columns);
    assert ([header] + Select(RowLines(Tab, m), ks, true)) + ([header] + Select(RowLines(Tab, m), ks, false))
      == [header] + Select(RowLines(Tab, m), ks, true) + [header] + Select(RowLines(Tab, m), ks, false);
  }

  /** Once a sample lacks a role, the conversion fails with the first such
      sample, however many rows follow. */
  lemma {:induction false} KindsFailExtends(m: Matrix, cDat: RoleData, n: nat, k: nat)
    requires 1 <= n <= k <= |m.rows|
    requires KindsUpTo(m, cDat, n - 1).Ok? && RoleOf(cDat, m.rows[n - 1].sample).Fail?
    ensures KindsUpTo(m, cDat, k) == Fail(MissingRole(m.rows[n - 1].sample))
    decreases k - n
  {
    if k > n {
      KindsFailExtends(m, cDat, n, k - 1);
    }
  }

  // ---------------------------------------------------------------------
  // A reference description of the two blocks: the rows of each kind, by
  // position.

  /** The positions of the entries equal to `want`. */
  function Positions(ks: seq<bool>, want: bool): seq<nat>
  {
    if |ks| == 0 then []
    else
      var n := |ks| - 1;
      Positions(ks[..n], want) + (if ks[n] == want then [n] else [])
  }

  /** The positions are increasing, and they are exactly those of the
      entries equal to `want`. */
  lemma {:induction false} PositionsSpec(ks: seq<bool>, want: bool)
    ensures var P := Positions(ks, want);
      && |P| <= |ks|
      && (forall k :: 0 <= k < |P| ==> P[k] < |ks|)
      && (forall k, l :: 0 <= k < l < |P| ==> P[k] < P[l])
      && (forall i :: 0 <= i < |ks| ==> (i in P <==> ks[i] == want))
  {
    if |ks| > 0 {
      var n := |ks| - 1;
      PositionsSpec(ks[..n], want);
      var P := Positions(ks[..n], want);
      forall i | 0 <= i < n
        ensures ks[..n][i] == ks[i]
      {
      }
    }
  }

  /** Every entry is counted once, among the trues or among the falses. */
  lemma {:induction false} PositionsPartition(ks: seq<bool>)
    ensures |Positions(ks, true)| + |Positions(ks, false)| == |ks|
  {
    if |ks| > 0 {
      PositionsPartition(ks[..|ks| - 1]);
    }
  }

  /** The lines at the given positions. */
  function LinesAt(lines: seq<string>, ps: seq<nat>): (r: seq<string>)
    requires forall k :: 0 <= k < |ps| ==> ps[k] < |lines|
    ensures |r| == |ps|
    ensures forall k :: 0 <= k < |ps| ==> r[k] == lines[ps[k]]
  {
    if |ps| == 0 then [] else LinesAt(lines, ps[..|ps| - 1]) + [lines[ps[|ps| - 1]]]
  }

  /** A block is the lines of the rows at the positions of its kind. */
  lemma {:induction false} SelectSpec(lines: seq<string>, ks: seq<bool>, want: bool)
    requires |ks| <= |lines|
    ensures forall k :: 0 <= k < |Positions(ks, want)| ==> Positions(ks, want)[k] < |lines|
    ensures Select(lines, ks, want) == LinesAt(lines, Positions(ks, want))
  {
    PositionsSpec(ks, want);
    if |ks| > 0 {
      var n := |ks| - 1;
      SelectSpec(lines, ks[..n], want);
      var P := Positions(ks[..n], want);
      assert (P + [n])[..|P|] == P;
    }
  }

  /** Every row is placed in exactly one of the two blocks (its position is
      among those of one kind and not the other), and the two blocks
      together hold one line per row. */
  lemma SelectPartition(lines: seq<string>, ks: seq<bool>)
    requires |ks| <= |lines|
    ensures forall i :: 0 <= i < |ks| ==> (i in Positions(ks, true)) != (i in Positions(ks, false))
    ensures |Select(lines, ks, true)| + |Select(lines, ks, false)| == |ks|
  {
    PositionsSpec(ks, true);
    PositionsSpec(ks, false);
    SelectSpec(lines, ks, true);
    SelectSpec(lines, ks, false);
    PositionsPartition(ks);
  }

  /** The two blocks under their headers: `|ks| + 2` lines, the header at
      the top and again right after the first block. */
  lemma AssembleLayout(header: string, lines: seq<string>, ks: seq<bool>)
    requires |ks| == |lines|
    ensures var out := [header] + Select(lines, ks, true) + [header] + Select(lines, ks, false);
      var nOff := |Select(lines, ks, true)|;
      && |out| == |lines| + 2
      && out[0] == header
      && out[1..1 + nOff] == Select(lines, ks, true)
      && out[1 + nOff] == header
      && out[2 + nOff..] == Select(lines, ks, false)
  {
    SelectPartition(lines, ks);
  }

  /** The output exists exactly when every sample has a role. */
  lemma CkmrOk(m: Matrix, cDat: RoleData)
    ensures CkmrOutput(m, cDat).Ok? <==> RolesKnown(m, cDat, |m.rows|)
  {
    KindsSpec(m, cDat, |m.rows|);
  }

  /** The layout of the output: `|rows| + 2` lines, the header at the top and
      again right after the offspring lines, then the lines of the offspring
      rows in row order, then those of the parent rows in row order. */
  lemma CkmrLayout(m: Matrix, cDat: RoleData)
    ensures CkmrOutput(m, cDat).Ok? ==>
      var out := CkmrOutput(m, cDat).value;
      var ks := KindsUpTo(m, cDat, |m.rows|).value;
      var header := HeaderLine(Tab, m.columns);
      var lines := RowLines(Tab, m);
      var nOff := |Select(lines, ks, true)|;
      && |out| == |m.rows| + 2
      && out[0] == header
      && out[1..1 + nOff] == Select(lines, ks, true)
      && out[1 + nOff] == header
      && out[2 + nOff..] == Select(lines, ks, false)
  {
    if CkmrOutput(m, cDat).Ok? {
      AssembleLayout(HeaderLine(Tab, m.columns), RowLines(Tab, m), KindsUpTo(m, cDat, |m.rows|).value);
    }
  }

  /** The line of an offspring row lies in the offspring block and that of a
      parent row in the parent block. */
  lemma RowPlacement(m: Matrix, cDat: RoleData, i: nat)
    requires i < |m.rows| && RolesKnown(m, cDat, |m.rows|)
    ensures KindsUpTo(m, cDat, |m.rows|).Ok?
    ensures var ks := KindsUpTo(m, cDat, |m.rows|).value;
      var line := SampleLine(Tab, m.rows[i]);
      && (IsOffspring(RoleOf(cDat, m.rows[i].sample).value) ==> line in Select(RowLines(Tab, m), ks, true))
      && (!IsOffspring(RoleOf(cDat, m.rows[i].sample).value) ==> line in Select(RowLines(Tab, m), ks, false))
  {
    KindsSpec(m, cDat, |m.rows|);
    var ks := KindsUpTo(m, cDat, |m.rows|).value;
    var want := ks[i];
    SelectSpec(RowLines(Tab, m), ks, want);
    PositionsSpec(ks, want);
    var P := Positions(ks, want);
    var k :| 0 <= k < |P| && P[k] == i;
    assert LinesAt(RowLines(Tab, m), P)[k] == SampleLine(Tab, m.rows[i]);
  }

  // ---------------------------------------------------------------------
  // The writer

  /** The CKMRsim writer (Python class `CKMR`). */
  class CKMR {
    const df: Matrix
    const cDat: RoleData

    constructor (df: Matrix, cDat: RoleData)
      ensures this.df == df && this.cDat == cDat
    {
      this.df := df;
      this.cDat := cDat;
    }

    /** `parseInd`: the sample's line, "NA" for each missing cell. */
    method ParseInd(sampleName: string, row: Row) returns (sampleStr: string)
      requires row.sample == sampleName
      ensures sampleStr == SampleLine(Tab, row)
    {
      var locusList: seq<string> := [];
      var j := 0;
      while j < |row.cells|
        invariant 0 <= j <= |row.cells|
        invariant |locusList| == j
        invariant forall k :: 0 <= k < j ==> locusList[k] == CellText(row.cells[k])
      {
        if row.cells[j].Some? {
          locusList := locusList + [row.cells[j].value];
        } else {
          locusList := locusList + ["NA"];
        }
        j := j + 1;
      }
      assert locusList == CellTexts(row.cells);
      var locusStr := Join([Tab], locusList);
      sampleStr := Join([Tab], [sampleName, locusStr]);
    }

    /** `convert`. */
    method Convert() returns (r: Result<seq<string>>)
      ensures r == CkmrOutput(df, cDat)
    {
      var headerStr := HeaderLine(Tab, df.columns);   // "indiv" and the column labels
      var offspring := [headerStr];
      var parents := [headerStr];
      ConvertStart(df, cDat);
      for i := 0 to |df.rows|
        invariant ConvertState(df, cDat, i) == Ok((offspring, parents))
      {
        var sampleName := df.rows[i].sample;
        ConvertStep(df, cDat, i, offspring, parents);
        if !(sampleName in cDat && cDat[sampleName].Some?) {
          return Fail(MissingRole(sampleName));
        }
        var sampleStr := ParseInd(sampleName, df.rows[i]);
        if IsOffspring(cDat[sampleName].value) {
          offspring := offspring + [sampleStr];
        } else {
          parents := parents + [sampleStr];
        }
      }
      ConvertDone(df, cDat, offspring, parents);
      r := Ok(offspring + parents);
    }
  }
}
