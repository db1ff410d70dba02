// The microhaplotype genotype table and its quality filters (Python class
// `Microhap`): reserved-column removal and column-name validation on
// reading, blacklist removal, the per-individual and per-locus missing-data
// filters, the monomorphic-locus filter, and the order they run in.
//
// Each step is first given as a function on matrices (`...Spec`), and the
// class methods, which update the `df` field in place, are proved to
// compute exactly that function. Missing-data proportions are exact
// rationals (`real`); a zero denominator, for which pandas compares NaN and
// so removes nothing, removes nothing here too.

module Microhap {
  import opened Text
  import opened Genotype
  import opened LocusDict

  /** The summary columns the genotyping pipeline inserts. */
  const SummaryColumns: seq<string> := ["sdy_sex", "hapstr", "rosa_pheno", "percMicroHap"]

  /** The column that holds each individual's role for Colony. */
  const RoleColumn: string := "colony2"

  /** The first column name that is not an allele column, if any. */
  function FirstBadColumn(cols: seq<string>): (r: Option<string>)
    ensures r.None? <==> forall j :: 0 <= j < |cols| ==> EndsWithAllele(cols[j])
    ensures r.Some? ==> r.value in cols && !EndsWithAllele(r.value)
    ensures r.Some? ==> exists i :: (0 <= i < |cols| && cols[i] == r.value
      && forall j :: 0 <= j < i ==> EndsWithAllele(cols[j]))
  {
    if |cols| == 0 then None
    else if !EndsWithAllele(cols[0]) then Some(cols[0])
    else
      var r := FirstBadColumn(cols[1..]);
      assert forall j :: 1 <= j < |cols| ==> cols[j] == cols[1..][j - 1];
      assert r.Some? ==> exists i :: (0 <= i < |cols| && cols[i] == r.value
        && forall j :: 0 <= j < i ==> EndsWithAllele(cols[j])) by {
        if r.Some? {
          var i :| 0 <= i < |cols| - 1 && cols[1..][i] == r.value &&
            forall j :: 0 <= j < i ==> EndsWithAllele(cols[1..][j]);
          assert cols[i + 1] == r.value;
          forall j | 0 <= j < i + 1 ensures EndsWithAllele(cols[j]) {
            if j > 0 { assert cols[j] == cols[1..][j - 1]; }
          }
        }
      }
      r
  }

  /** What reading the table leaves: the genotype matrix and, when the Colony
      conversion is requested, the role column that was taken out of it. */
  datatype Parsed = Parsed(genotypes: Matrix, roles: seq<Cell>)

  /** The column handling of `parseFile` on the table as read: drop the
      summary columns that are present; if `colonyBool`, take out the role
      column (a KeyError when it is absent); then every remaining column must
      end in `_1` or `_2`. */
  function ParseSpec(raw: Matrix, colonyBool: bool): (r: Result<Parsed>)
    requires raw.WellFormed()
    ensures r.Ok? ==> forall c :: c in r.value.genotypes.columns ==>
      c in raw.columns && c !in SummaryColumns && EndsWithAllele(c)
    ensures r.Ok? ==> r.value.genotypes.WellFormed() && |r.value.genotypes.rows| == |raw.rows|
    ensures r.Ok? ==> |r.value.roles| == (if colonyBool then |raw.rows| else 0)
  {
    ParseColumnsShape(raw, SetOf(SummaryColumns), RoleColumn, colonyBool);
    ParseColumns(raw, SetOf(SummaryColumns), RoleColumn, colonyBool)
  }

  /** What a successful read leaves: allele columns of the table that are
      not summary columns, one row per row read, and one role per row when
      roles were asked for. */
  lemma ParseColumnsShape(raw: Matrix, summary: set<string>, role: string, colonyBool: bool)
    requires raw.WellFormed()
    ensures var r := ParseColumns(raw, summary, role, colonyBool);
      r.Ok? ==>
        && (forall c :: c in r.value.genotypes.columns ==> c in raw.columns && c !in summary && EndsWithAllele(c))
        && r.value.genotypes.WellFormed() && |r.value.genotypes.rows| == |raw.rows|
        && |r.value.roles| == (if colonyBool then |raw.rows| else 0)
  {
    var m := RemoveColumns(raw, summary);
    RemoveColumnsMembers(raw, summary);
    CheckColumnsOk(m, []);
    if colonyBool && ColumnByName(m, role).Ok? {
      RemoveColumnsMembers(m, {role});
      CheckColumnsOk(RemoveColumns(m, {role}), ColumnByName(m, role).value);
    }
  }

  /** `ParseSpec` for any set of summary columns and any role column. */
  function ParseColumns(raw: Matrix, summary: set<string>, role: string, colonyBool: bool): Result<Parsed>
    requires raw.WellFormed()
  {
    var m := RemoveColumns(raw, summary);
    if colonyBool then
      match ColumnByName(m, role)
      case Fail(e) => Fail(e)
      case Ok(roles) => CheckColumns(RemoveColumns(m, {role}), roles)
    else CheckColumns(m, [])
  }

  function CheckColumns(m: Matrix, roles: seq<Cell>): Result<Parsed>
  {
    match FirstBadColumn(m.columns)
    case Some(c) => Fail(BadColumnName(c))
    case None => Ok(Parsed(m, roles))
  }

  /** The column check passes exactly when every column is an allele column. */
  lemma CheckColumnsOk(m: Matrix, roles: seq<Cell>)
    ensures CheckColumns(m, roles).Ok? <==> forall c :: c in m.columns ==> EndsWithAllele(c)
    ensures CheckColumns(m, roles).Ok? ==> CheckColumns(m, roles).value == Parsed(m, roles)
  {
    if FirstBadColumn(m.columns).None? {
      forall c | c in m.columns ensures EndsWithAllele(c) {
        var j :| 0 <= j < |m.columns| && m.columns[j] == c;
      }
    }
  }

  /** Without the Colony conversion, reading succeeds exactly when every
      column other than the summary columns is an allele column, and the
      genotype matrix keeps every such column, in order, with the rows
      untouched. */
  lemma ParseWithoutRoles(raw: Matrix)
    requires raw.WellFormed()
    ensures ParseSpec(raw, false).Ok? <==>
      forall c :: c in raw.columns && c !in SummaryColumns ==> EndsWithAllele(c)
    ensures ParseSpec(raw, false).Ok? ==>
      ParseSpec(raw, false).value == Parsed(RemoveColumns(raw, SetOf(SummaryColumns)), [])
  {
    RemoveColumnsMembers(raw, SetOf(SummaryColumns));
    CheckColumnsOk(RemoveColumns(raw, SetOf(SummaryColumns)), []);
  }

  /** With the Colony conversion, a missing role column is a `MissingColumn`
      error. */
  lemma ParseMissingRoles(raw: Matrix)
    requires raw.WellFormed() && RoleColumn !in raw.columns
    ensures ParseSpec(raw, true) == Fail(MissingColumn(RoleColumn))
  {
    RemoveColumnsMembers(raw, SetOf(SummaryColumns));
  }

  /** With the Colony conversion and the role column present, reading
      succeeds exactly when every column other than the summary and role
      columns is an allele column; the genotype matrix then drops the
      summary and role columns only, and there is one role per row. */
  lemma ParseWithRoles(raw: Matrix)
    requires raw.WellFormed() && RoleColumn in raw.columns
    ensures ParseSpec(raw, true).Ok? <==>
      forall c :: c in raw.columns && c !in SummaryColumns && c != RoleColumn ==> EndsWithAllele(c)
    ensures ParseSpec(raw, true).Ok? ==>
      && ParseSpec(raw, true).value.genotypes == RemoveColumns(raw, SetOf(SummaryColumns) + {RoleColumn})
      && |ParseSpec(raw, true).value.roles| == |raw.rows|
  {
    RoleNotSummary();
    ParseRolesOk(raw, SetOf(SummaryColumns), RoleColumn);
  }

  /** `ParseWithRoles` for any set of summary columns and any role column
      present in the table and not among them. */
  lemma ParseRolesOk(raw: Matrix, summary: set<string>, role: string)
    requires raw.WellFormed() && role in raw.columns && role !in summary
    ensures ParseColumns(raw, summary, role, true).Ok? <==>
      forall c :: c in raw.columns && c !in summary && c != role ==> EndsWithAllele(c)
    ensures ParseColumns(raw, summary, role, true).Ok? ==>
      && ParseColumns(raw, summary, role, true).value.genotypes == RemoveColumns(raw, summary + {role})
      && |ParseColumns(raw, summary, role, true).value.roles| == |raw.rows|
  {
    ParseColumnsWithRole(raw, summary, role);
    var roles := ColumnByName(RemoveColumns(raw, summary), role).value;
    var m := RemoveColumns(raw, summary + {role});
    assert ParseColumns(raw, summary, role, true) == CheckColumns(m, roles);
    CheckColumnsOk(m, roles);
    RemoveColumnsMembers(raw, summary + {role});
  }

  /** The role column is not a summary column. */
  lemma RoleNotSummary()
    ensures RoleColumn !in SetOf(SummaryColumns)
  {
  }

  /** With the role column present, `ParseColumns` is the column check of
      the table without the summary and role columns. */
  lemma ParseColumnsWithRole(raw: Matrix, summary: set<string>, role: string)
    requires raw.WellFormed() && role in raw.columns && role !in summary
    ensures ColumnByName(RemoveColumns(raw, summary), role).Ok?
    ensures ParseColumns(raw, summary, role, true) ==
      CheckColumns(RemoveColumns(raw, summary + {role}), ColumnByName(RemoveColumns(raw, summary), role).value)
  {
    RemoveColumnsMembers(raw, summary);
    RemoveColumnsTwice(raw, summary, {role});
  }

  // ---------------------------------------------------------------------
  // Individual filter

  /** A row fails when its missing cells, as a share of the `nAlleles` allele
      columns, are strictly more than `p` (none fails when there are no
      columns). */
  predicate IndFails(row: Row, nAlleles: nat, p: real)
  {
    nAlleles > 0 && (MissingCount(row.cells) as real) / (nAlleles as real) > p
  }

  /** The positions of the rows that fail. */
  function FailingRows(rows: seq<Row>, nAlleles: nat, p: real): set<nat>
  {
    set i: nat | i < |rows| && IndFails(rows[i], nAlleles, p)
  }

  /** The labels of the rows at positions `at`. */
  function LabelsAt(rows: seq<Row>, at: set<nat>): set<string>
  {
    set i | i in at && i < |rows| :: rows[i].sample
  }

  /** The labels of the rows that fail. */
  function FailingSamples(rows: seq<Row>, nAlleles: nat, p: real): set<string>
  {
    LabelsAt(rows, FailingRows(rows, nAlleles, p))
  }

  /** `filterInds`: an odd number of columns stops with an error; otherwise
      every row labelled like a failing row is dropped. */
  function FilterIndsSpec(m: Matrix, p: real): (r: Result<Matrix>)
    ensures r.Fail? <==> |m.columns| % 2 == 1
    ensures r.Fail? ==> r.error == OddColumnCount
    ensures r.Ok? ==> r.value.columns == m.columns && (m.WellFormed() ==> r.value.WellFormed())
  {
    if |m.columns| % 2 == 1 then Fail(OddColumnCount)
    else Ok(RemoveRows(m, FailingSamples(m.rows, |m.columns|, p)))
  }

  /** Every row the filter keeps passes, and every row that fails is gone;
      the kept rows are in their original order (`RemoveRows`). */
  lemma FilterIndsSound(m: Matrix, p: real)
    requires |m.columns| % 2 == 0
    ensures var r := FilterIndsSpec(m, p).value;
      && (forall k :: 0 <= k < |r.rows| ==> !IndFails(r.rows[k], |m.columns|, p))
      && (forall i :: 0 <= i < |m.rows| && IndFails(m.rows[i], |m.columns|, p) ==> m.rows[i].sample !in Samples(r.rows))
  {
    var F := FailingSamples(m.rows, |m.columns|, p);
    var r := RemoveRows(m, F);
    var K := KeptIndices(Samples(m.rows), F);
    RemoveRowsSpec(m, F);
    forall k | 0 <= k < |r.rows| ensures !IndFails(r.rows[k], |m.columns|, p) && r.rows[k].sample !in F {
      KeptRowAt(m, F, k);
      FailingLabelled(m.rows, |m.columns|, p, K[k]);
    }
  }

  /** The row kept at position `k` is the row at the `k`-th kept index, and
      its label is not dropped. */
  lemma KeptRowAt(m: Matrix, drop: set<string>, k: nat)
    requires k < |KeptIndices(Samples(m.rows), drop)|
    ensures var i := KeptIndices(Samples(m.rows), drop)[k];
      && i < |m.rows| && k < |RemoveRows(m, drop).rows|
      && RemoveRows(m, drop).rows[k] == m.rows[i] && m.rows[i].sample !in drop
  {
    var K := KeptIndices(Samples(m.rows), drop);
    RemoveRowsSpec(m, drop);
    assert K[k] in K;
  }

  /** The label of a failing row is among the failing labels. */
  lemma FailingLabelled(rows: seq<Row>, n: nat, p: real, i: nat)
    requires i < |rows|
    ensures IndFails(rows[i], n, p) ==> rows[i].sample in FailingSamples(rows, n, p)
  {
    if IndFails(rows[i], n, p) {
      assert i in FailingRows(rows, n, p);
    }
  }

  /** With distinct sample labels, a row is kept exactly when it does not
      fail; in particular a row exactly at the threshold is kept. */
  lemma FilterIndsExact(m: Matrix, p: real)
    requires |m.columns| % 2 == 0
    requires Distinct(Samples(m.rows))
    ensures forall i :: 0 <= i < |m.rows| ==>
      (m.rows[i] in FilterIndsSpec(m, p).value.rows <==> !IndFails(m.rows[i], |m.columns|, p))
  {
    var n := |m.columns|;
    var F := FailingSamples(m.rows, n, p);
    var r := RemoveRows(m, F);
    FilterIndsSound(m, p);
    RowLabelsDistinctFrom(m.rows);
    forall i | 0 <= i < |m.rows|
      ensures m.rows[i] in r.rows <==> !IndFails(m.rows[i], n, p)
    {
      if !IndFails(m.rows[i], n, p) {
        PassingNotDropped(m.rows, n, p, i);
        KeptRowPresent(m, F, i);
      }
    }
  }

  /** With distinct labels, a passing row's label is not among the failing
      labels. */
  lemma PassingNotDropped(rows: seq<Row>, n: nat, p: real, i: nat)
    requires RowLabelsDistinct(rows) && i < |rows| && !IndFails(rows[i], n, p)
    ensures rows[i].sample !in FailingSamples(rows, n, p)
  {
    var at := FailingRows(rows, n, p);
    assert i !in at;
    LabelOutside(rows, at, i);
  }

  /** Two rows at different positions are labelled differently. */
  predicate RowLabelsDistinct(rows: seq<Row>)
  {
    forall a, b :: 0 <= a < |rows| && 0 <= b < |rows| && a != b ==> rows[a].sample != rows[b].sample
  }

  /** Distinct labels, stated row by row. */
  lemma RowLabelsDistinctFrom(rows: seq<Row>)
    requires Distinct(Samples(rows))
    ensures RowLabelsDistinct(rows)
  {
    forall a, b | 0 <= a < |rows| && 0 <= b < |rows| && a != b ensures rows[a].sample != rows[b].sample {
      SampleDiffers(rows, a, b);
    }
  }

  /** With distinct labels, the label of a row outside `at` is not among the
      labels of the rows at `at`. */
  lemma LabelOutside(rows: seq<Row>, at: set<nat>, i: nat)
    requires RowLabelsDistinct(rows) && i < |rows| && i !in at
    ensures rows[i].sample !in LabelsAt(rows, at)
  {
  }

  /** With distinct labels, two rows at different positions have different
      labels. */
  lemma SampleDiffers(rows: seq<Row>, i: nat, j: nat)
    requires Distinct(Samples(rows)) && i < |rows| && j < |rows| && i != j
    ensures rows[j].sample != rows[i].sample
  {
    var s := Samples(rows);
    assert s[i] == rows[i].sample && s[j] == rows[j].sample;
  }

  /** A row whose label is not dropped is still there. */
  lemma KeptRowPresent(m: Matrix, drop: set<string>, i: nat)
    requires i < |m.rows| && m.rows[i].sample !in drop
    ensures m.rows[i] in RemoveRows(m, drop).rows
  {
    var K := KeptIndices(Samples(m.rows), drop);
    RemoveRowsSpec(m, drop);
    assert Samples(m.rows)[i] == m.rows[i].sample;
    assert i in K;
    var k :| 0 <= k < |K| && K[k] == i;
    assert RemoveRows(m, drop).rows[k] == m.rows[i];
  }

  /** Filtering individuals a second time removes nothing. */
  lemma FilterIndsIdempotent(m: Matrix, p: real)
    requires FilterIndsSpec(m, p).Ok?
    ensures FilterIndsSpec(FilterIndsSpec(m, p).value, p) == FilterIndsSpec(m, p)
  {
    var r := FilterIndsSpec(m, p).value;
    FilterIndsSound(m, p);
    assert FailingSamples(r.rows, |r.columns|, p) == {};
    RemoveRowsAbsent(r, {});
  }

  // ---------------------------------------------------------------------
  // Locus filter

  /** Column `j` fails when its missing cells, as a share of the rows, are
      strictly more than `p` (none fails when there are no rows). */
  predicate LocFails(m: Matrix, j: nat, p: real)
    requires m.WellFormed() && j < |m.columns|
  {
    |m.rows| > 0 && (MissingCount(ColumnCells(m.rows, j)) as real) / (|m.rows| as real) > p
  }

  /** The labels of the columns that fail. */
  function FailingColumns(m: Matrix, p: real): set<string>
    requires m.WellFormed()
  {
    set j | 0 <= j < |m.columns| && LocFails(m, j, p) :: m.columns[j]
  }

  /** `filterLoci`: an odd number of columns stops with an error; otherwise
      every column labelled like a failing column is dropped, one column at a
      time (a locus can lose one of its two columns). */
  function FilterLociSpec(m: Matrix, p: real): (r: Result<Matrix>)
    requires m.WellFormed()
    ensures r.Fail? <==> |m.columns| % 2 == 1
    ensures r.Fail? ==> r.error == OddColumnCount
    ensures r.Ok? ==> r.value.WellFormed() && Samples(r.value.rows) == Samples(m.rows)
  {
    if |m.columns| % 2 == 1 then Fail(OddColumnCount)
    else
      var r := RemoveColumns(m, FailingColumns(m, p));
      RemoveColumnsSpec(m, FailingColumns(m, p));
      Ok(r)
  }

  /** The cells of a kept column are the cells of the original column. */
  lemma KeptColumnCells(m: Matrix, drop: set<string>, k: nat)
    requires m.WellFormed() && k < |RemoveColumns(m, drop).columns|
    ensures ColumnCells(RemoveColumns(m, drop).rows, k) == ColumnCells(m.rows, KeptIndices(m.columns, drop)[k])
  {
    RemoveColumnsSpec(m, drop);
  }

  /** Every column the filter keeps passes, and every column that fails is
      gone; the rows keep their labels and order. */
  lemma FilterLociSound(m: Matrix, p: real)
    requires m.WellFormed() && |m.columns| % 2 == 0
    ensures var r := FilterLociSpec(m, p).value;
      && |r.rows| == |m.rows|
      && (forall k :: 0 <= k < |r.columns| ==> !LocFails(r, k, p))
      && (forall j :: 0 <= j < |m.columns| && LocFails(m, j, p) ==> m.columns[j] !in r.columns)
  {
    var F := FailingColumns(m, p);
    var r := RemoveColumns(m, F);
    var K := KeptIndices(m.columns, F);
    RemoveColumnsSpec(m, F);
    forall k | 0 <= k < |r.columns| ensures !LocFails(r, k, p) {
      KeptColumnCells(m, F, k);
      assert K[k] in K;
      assert m.columns[K[k]] !in F;
    }
    forall j | 0 <= j < |m.columns| && LocFails(m, j, p) ensures m.columns[j] !in r.columns {
      assert m.columns[j] in F;
    }
  }

  /** With distinct column labels, a column is kept exactly when it does not
      fail. */
  lemma FilterLociExact(m: Matrix, p: real)
    requires m.WellFormed() && |m.columns| % 2 == 0
    requires Distinct(m.columns)
    ensures forall j :: 0 <= j < |m.columns| ==>
      (m.columns[j] in FilterLociSpec(m, p).value.columns <==> !LocFails(m, j, p))
  {
    var F := FailingColumns(m, p);
    RemoveColumnsSpec(m, F);
    forall j | 0 <= j < |m.columns| ensures m.columns[j] in F <==> LocFails(m, j, p) {
      if m.columns[j] in F {
        var j' :| 0 <= j' < |m.columns| && LocFails(m, j', p) && m.columns[j'] == m.columns[j];
      }
    }
  }

  /** When the kept columns are still even in number, filtering loci a second
      time removes nothing. */
  lemma FilterLociRepeat(m: Matrix, p: real)
    requires m.WellFormed() && FilterLociSpec(m, p).Ok?
    requires |FilterLociSpec(m, p).value.columns| % 2 == 0
    ensures FilterLociSpec(FilterLociSpec(m, p).value, p) == FilterLociSpec(m, p)
  {
    var r := FilterLociSpec(m, p).value;
    FilterLociSound(m, p);
    assert FailingColumns(r, p) == {};
    RemoveColumnsAbsent(r, {});
  }

  /** All of `n` items is a share above any `p` below one. */
  lemma ShareOfAll(n: nat, p: real)
    requires n > 0 && p < 1.0
    ensures (n as real) / (n as real) > p
  {
  }

  /** None of `n` items is a share above no `p` from zero up. */
  lemma ShareOfNone(n: nat, p: real)
    requires n > 0 && 0.0 <= p
    ensures !((0 as real) / (n as real) > p)
  {
  }

  /** The locus filter drops single columns: when the first column of a
      locus is entirely missing and the second complete, the first column
      alone goes, the second stays with its cells, and a second pass then
      stops on the odd column count. */
  lemma FilterLociSplitsLocus(m: Matrix, p: real)
    requires m.WellFormed() && |m.columns| == 2 && m.columns[0] != m.columns[1] && |m.rows| > 0
    requires MissingCount(ColumnCells(m.rows, 0)) == |m.rows| && MissingCount(ColumnCells(m.rows, 1)) == 0
    requires 0.0 <= p < 1.0
    ensures FilterLociSpec(m, p).Ok?
    ensures var r := FilterLociSpec(m, p).value;
      && r.columns == [m.columns[1]]
      && ColumnCells(r.rows, 0) == ColumnCells(m.rows, 1)
    ensures FilterLociSpec(FilterLociSpec(m, p).value, p) == Fail(OddColumnCount)
  {
    ShareOfAll(|m.rows|, p);
    ShareOfNone(|m.rows|, p);
    FailingFirstOfTwo(m, p);
    DropFirstOfTwo(m);
  }

  /** Of those two columns only the first fails. */
  lemma FailingFirstOfTwo(m: Matrix, p: real)
    requires m.WellFormed() && |m.columns| == 2 && m.columns[0] != m.columns[1]
    requires LocFails(m, 0, p) && !LocFails(m, 1, p)
    ensures FailingColumns(m, p) == {m.columns[0]}
  {
    var F := FailingColumns(m, p);
    assert m.columns[0] in F;
    forall c | c in F ensures c == m.columns[0] {
      var j :| 0 <= j < |m.columns| && LocFails(m, j, p) && m.columns[j] == c;
      assert j != 1;
    }
  }

  /** Dropping the first of two columns leaves the second, with its cells. */
  lemma DropFirstOfTwo(m: Matrix)
    requires m.WellFormed() && |m.columns| == 2 && m.columns[0] != m.columns[1]
    ensures var r := RemoveColumns(m, {m.columns[0]});
      && r.columns == [m.columns[1]]
      && ColumnCells(r.rows, 0) == ColumnCells(m.rows, 1)
  {
    var F := {m.columns[0]};
    assert m.columns[..1] == [m.columns[0]];
    assert KeptIndices([m.columns[0]], F) == [];
    assert KeptIndices(m.columns, F) == [1];
    KeptColumnCells(m, F, 0);
    RemoveColumnsSpec(m, F);
  }

  // ---------------------------------------------------------------------
  // Monomorphic-locus filter and blacklist

  /** The two allele columns of each named locus. */
  function PairNames(loci: set<string>): set<string>
  {
    (set L | L in loci :: L + "_1") + (set L | L in loci :: L + "_2")
  }

  /** `c` is the `_1` or `_2` column of one of the loci. */
  predicate AlleleColumnOf(c: string, loci: set<string>)
  {
    EndsWithAllele(c) && Strip2(c) in loci
  }

  /** The names `PairNames` produces are exactly the allele columns of the loci. */
  lemma PairNamesMembers(loci: set<string>)
    ensures forall c :: c in PairNames(loci) <==> AlleleColumnOf(c, loci)
  {
    forall c ensures c in PairNames(loci) <==> AlleleColumnOf(c, loci) {
      if AlleleColumnOf(c, loci) {
        assert c == Strip2(c) + c[|c| - 2..];
      }
      if c in PairNames(loci) {
        var L :| L in loci && (c == L + "_1" || c == L + "_2");
        assert Strip2(c) == L;
      }
    }
  }

  /** Adding one locus adds its two column names. */
  lemma PairNamesAdd(loci: seq<string>, L: string)
    ensures PairNames(SetOf(loci + [L])) == PairNames(SetOf(loci)) + {L + "_1"} + {L + "_2"}
  {
    assert SetOf(loci + [L]) == SetOf(loci) + {L};
  }

  /** The loci whose recoding dictionary has exactly one haplotype. */
  function MonoLoci(codec: map<string, map<string, string>>): set<string>
  {
    set L | L in codec && |codec[L]| == 1
  }

  /** `filterMono`: build the dictionary of the loci named by the odd-indexed
      columns (failing like `getUnique` when a column is missing) and drop
      both allele columns of every locus with a single haplotype. */
  function FilterMonoSpec(m: Matrix): (r: Result<Matrix>)
    requires m.WellFormed()
    ensures r.Ok? ==> r.value.WellFormed() && Samples(r.value.rows) == Samples(m.rows)
  {
    match BuildCodec(m, LocusNames(m.columns))
    case Fail(e) => Fail(e)
    case Ok(codec) =>
      var r := RemoveColumns(m, PairNames(MonoLoci(codec)));
      RemoveColumnsSpec(m, PairNames(MonoLoci(codec)));
      Ok(r)
  }

  /** A locus is monomorphic exactly when it is named by the columns and its
      two columns together hold one distinct non-missing haplotype. */
  lemma MonoLociSpec(m: Matrix)
    requires m.WellFormed() && BuildCodec(m, LocusNames(m.columns)).Ok?
    ensures forall L :: L in MonoLoci(BuildCodec(m, LocusNames(m.columns)).value) <==>
      L in LocusNames(m.columns) && LocusAlleles(m, L).Ok? && |LocusAlleles(m, L).value| == 1
  {
    var codec := BuildCodec(m, LocusNames(m.columns)).value;
    BuildCodecEntries(m, LocusNames(m.columns));
    forall L | L in codec ensures |codec[L]| == |LocusAlleles(m, L).value| {
      CodesKeys(LocusAlleles(m, L).value);
    }
  }

  /** The monomorphic filter removes exactly the `_1` and `_2` columns of the
      monomorphic loci: loci with no haplotype or with two or more keep both
      columns, and every other column stays, in order. */
  lemma FilterMonoExact(m: Matrix)
    requires m.WellFormed() && FilterMonoSpec(m).Ok?
    ensures var codec := BuildCodec(m, LocusNames(m.columns)).value;
      forall c :: c in FilterMonoSpec(m).value.columns <==> c in m.columns && !AlleleColumnOf(c, MonoLoci(codec))
  {
    var codec := BuildCodec(m, LocusNames(m.columns)).value;
    PairNamesMembers(MonoLoci(codec));
    RemoveColumnsSpec(m, PairNames(MonoLoci(codec)));
  }

  /** `removeLoci` for a list of locus names: drop both allele columns of
      every listed locus. */
  function RemoveLociSpec(m: Matrix, blacklist: seq<string>): (r: Matrix)
    requires m.WellFormed()
    ensures r.WellFormed() && Samples(r.rows) == Samples(m.rows)
    ensures forall c :: c in r.columns ==> c in m.columns && c !in PairNames(SetOf(blacklist))
  {
    RemoveColumnsSpec(m, PairNames(SetOf(blacklist)));
    RemoveColumns(m, PairNames(SetOf(blacklist)))
  }

  /** Removing blacklisted loci drops exactly their `_1` and `_2` columns and
      keeps every other column in order; listed names with no columns
      change nothing. */
  lemma RemoveLociSpecExact(m: Matrix, blacklist: seq<string>)
    requires m.WellFormed()
    ensures forall c :: c in RemoveLociSpec(m, blacklist).columns <==>
      c in m.columns && !AlleleColumnOf(c, SetOf(blacklist))
    ensures (forall L :: L in blacklist ==> L + "_1" !in m.columns && L + "_2" !in m.columns) ==>
      RemoveLociSpec(m, blacklist) == m
  {
    PairNamesMembers(SetOf(blacklist));
    RemoveColumnsSpec(m, PairNames(SetOf(blacklist)));
    if forall L :: L in blacklist ==> L + "_1" !in m.columns && L + "_2" !in m.columns {
      RemoveColumnsAbsent(m, PairNames(SetOf(blacklist)));
    }
  }

  /** `runFilters`: individuals, then loci, then (when `mono`) monomorphic loci;
      the first error stops the run. */
  function RunFiltersSpec(m: Matrix, pmissInd: real, pmissLoc: real, mono: bool): (r: Result<Matrix>)
    requires m.WellFormed()
    ensures r.Ok? ==> r.value.WellFormed()
  {
    match FilterIndsSpec(m, pmissInd)
    case Fail(e) => Fail(e)
    case Ok(m1) =>
      match FilterLociSpec(m1, pmissLoc)
      case Fail(e) => Fail(e)
      case Ok(m2) => if mono then FilterMonoSpec(m2) else Ok(m2)
  }

  /** The individual filter judges rows on all the columns, before the locus
      filter removes any: every row that fails on the full column count is
      gone from the result, and the result's columns are all columns of the
      input. */
  lemma RunFiltersOrder(m: Matrix, pmissInd: real, pmissLoc: real, mono: bool)
    requires m.WellFormed() && RunFiltersSpec(m, pmissInd, pmissLoc, mono).Ok?
    ensures var r := RunFiltersSpec(m, pmissInd, pmissLoc, mono).value;
      && (forall i :: 0 <= i < |m.rows| && IndFails(m.rows[i], |m.columns|, pmissInd) ==>
            m.rows[i].sample !in Samples(r.rows))
      && (forall c :: c in r.columns ==> c in m.columns)
  {
    var m1 := FilterIndsSpec(m, pmissInd).value;
    FilterIndsSound(m, pmissInd);
    var m2 := FilterLociSpec(m1, pmissLoc).value;
    RemoveColumnsSpec(m1, FailingColumns(m1, pmissLoc));
    if mono {
      var codec := BuildCodec(m2, LocusNames(m2.columns)).value;
      FilterMonoExact(m2);
    }
  }

  /** Every column left after the whole pass still passes the locus test on
      the rows that are left: the monomorphic filter only removes columns,
      so the share measured by the locus filter is unchanged. */
  lemma RunFiltersPass(m: Matrix, pmissInd: real, pmissLoc: real, mono: bool)
    requires m.WellFormed() && RunFiltersSpec(m, pmissInd, pmissLoc, mono).Ok?
    ensures var r := RunFiltersSpec(m, pmissInd, pmissLoc, mono).value;
      forall k :: 0 <= k < |r.columns| ==> !LocFails(r, k, pmissLoc)
  {
    var m1 := FilterIndsSpec(m, pmissInd).value;
    var m2 := FilterLociSpec(m1, pmissLoc).value;
    FilterLociSound(m1, pmissLoc);
    if mono {
      var drop := PairNames(MonoLoci(BuildCodec(m2, LocusNames(m2.columns)).value));
      var r := RemoveColumns(m2, drop);
      assert RunFiltersSpec(m, pmissInd, pmissLoc, mono).value == r;
      RemoveColumnsSpec(m2, drop);
      forall k | 0 <= k < |r.columns| ensures !LocFails(r, k, pmissLoc) {
        KeptColumnCells(m2, drop, k);
        assert !LocFails(m2, KeptIndices(m2.columns, drop)[k], pmissLoc);
      }
    }
  }

  /** The loop of `filterMono` that lists, in order, the loci whose recoding
      dictionary holds exactly one haplotype. */
  method SingleAlleleLoci(codec: map<string, map<string, string>>, loci: seq<string>)
    returns (removeLoci: seq<string>)
    requires forall L :: L in loci ==> L in codec
    ensures forall L :: L in removeLoci <==> L in loci && |codec[L]| == 1
  {
    removeLoci := [];
    var i := 0;
    while i < |loci|
      invariant 0 <= i <= |loci|
      invariant forall L :: L in removeLoci <==> L in loci[..i] && |codec[L]| == 1
    {
      assert loci[..i + 1] == loci[..i] + [loci[i]];
      if |codec[loci[i]]| == 1 {
        removeLoci := removeLoci + [loci[i]];
      }
      i := i + 1;
    }
    assert loci[..i] == loci;
  }

  /** The genotype file being converted (Python class `Microhap`). The table
      `df` is replaced, step by step, by its filtered versions. */
  class Microhap {
    const mhFile: string
    const pmissLoc: real
    const pmissInd: real
    const mono: bool
    var df: Matrix
    var colonyData: seq<Cell>

    predicate Valid()
      reads this
    {
      df.WellFormed()
    }

    constructor (infile: string, pmissLoc: real, pmissInd: real, mono: bool)
      ensures Valid()
      ensures mhFile == infile && this.pmissLoc == pmissLoc && this.pmissInd == pmissInd && this.mono == mono
      ensures df == Matrix([], []) && colonyData == []
    {
      mhFile := infile;
      this.pmissLoc := pmissLoc;
      this.pmissInd := pmissInd;
      this.mono := mono;
      df := Matrix([], []);
      colonyData := [];
    }

    /** `df.pop(name)` when the column is present. */
    method PopColumn(name: string)
      requires Valid()
      modifies this`df
      ensures Valid()
      ensures df == RemoveColumns(old(df), {name})
    {
      if name in df.columns {
        df := RemoveColumns(df, {name});
      } else {
        RemoveColumnsAbsent(df, {name});
      }
    }

    /** `df.pop(col)` for each listed column that is present. */
    method PopColumns(names: seq<string>)
      requires Valid()
      modifies this`df
      ensures Valid()
      ensures df == RemoveColumns(old(df), SetOf(names))
    {
      ghost var start := df;
      RemoveColumnsAbsent(df, {});
      assert SetOf(names[..0]) == {};
      var i := 0;
      while i < |names|
        invariant 0 <= i <= |names|
        invariant Valid()
        invariant df == RemoveColumns(start, SetOf(names[..i]))
      {
        PopColumn(names[i]);
        RemoveColumnsTwice(start, SetOf(names[..i]), {names[i]});
        assert SetOf(names[..i + 1]) == SetOf(names[..i]) + {names[i]} by {
          assert names[..i + 1] == names[..i] + [names[i]];
        }
        i := i + 1;
      }
      assert names[..i] == names;
    }

    /** The loop of `parseFile` that looks for a column not ending in `_1` or `_2`. */
    method FindBadColumn() returns (r: Option<string>)
      ensures r == FirstBadColumn(df.columns)
    {
      var columnNames := df.columns;
      var j := 0;
      while j < |columnNames|
        invariant 0 <= j <= |columnNames|
        invariant FirstBadColumn(columnNames) == FirstBadColumn(columnNames[j..])
      {
        if !EndsWithAllele(columnNames[j]) {
          return Some(columnNames[j]);
        }
        assert columnNames[j..][1..] == columnNames[j + 1..];
        j := j + 1;
      }
      r := None;
    }

    /** `parseFile`, from the table as read. Without `colonyBool` the role
        data is left as it was. */
    method ParseFile(raw: Matrix, colonyBool: bool) returns (r: Result<seq<Cell>>)
      requires raw.WellFormed()
      modifies this`df, this`colonyData
      ensures Valid()
      ensures match ParseSpec(raw, colonyBool)
        case Ok(p) =>
          && df == p.genotypes
          && colonyData == (if colonyBool then p.roles else old(colonyData))
          && r == Ok(colonyData)
        case Fail(e) => r == Fail(e)
    {
      df := raw;
      PopColumns(SummaryColumns);
      ghost var m := df;
      if colonyBool {
        var roles := ColumnByName(df, RoleColumn);
        if roles.Fail? {
          return Fail(roles.error);
        }
        colonyData := roles.value;
        PopColumn(RoleColumn);
        assert ParseSpec(raw, colonyBool) == CheckColumns(df, colonyData);
      } else {
        assert ParseSpec(raw, colonyBool) == CheckColumns(df, []);
      }
      var bad := FindBadColumn();
      if bad.Some? {
        return Fail(BadColumnName(bad.value));
      }
      r := Ok(colonyData);
    }

    /** `df.pop(locus_1)` and `df.pop(locus_2)` for each listed locus, when
        present. */
    method PopLoci(loci: seq<string>)
      requires Valid()
      modifies this`df
      ensures Valid()
      ensures df == RemoveColumns(old(df), PairNames(SetOf(loci)))
    {
      ghost var start := df;
      RemoveColumnsAbsent(df, {});
      assert PairNames(SetOf(loci[..0])) == {};
      var i := 0;
      while i < |loci|
        invariant 0 <= i <= |loci|
        invariant Valid()
        invariant df == RemoveColumns(start, PairNames(SetOf(loci[..i])))
      {
        var a1, a2 := loci[i] + "_1", loci[i] + "_2";
        ghost var P := PairNames(SetOf(loci[..i]));
        PopColumn(a1);
        PopColumn(a2);
        RemoveColumnsTwice(start, P, {a1});
        RemoveColumnsTwice(start, P + {a1}, {a2});
        PairNamesAdd(loci[..i], loci[i]);
        assert loci[..i + 1] == loci[..i] + [loci[i]];
        i := i + 1;
      }
      assert loci[..i] == loci;
    }

    /** `removeLoci` with the blacklist already read into a list of names. */
    method RemoveLoci(blacklist: seq<string>)
      requires Valid()
      modifies this`df
      ensures Valid()
      ensures df == RemoveLociSpec(old(df), blacklist)
    {
      PopLoci(blacklist);
    }

    method FilterInds() returns (r: Result<()>)
      requires Valid()
      modifies this`df
      ensures Valid()
      ensures match FilterIndsSpec(old(df), pmissInd)
        case Ok(m) => df == m && r == Ok(())
        case Fail(e) => df == old(df) && r == Fail(e)
    {
      if |df.columns| % 2 != 0 {
        return Fail(OddColumnCount);
      }
      var nAlleles := |df.columns|;
      df := RemoveRows(df, FailingSamples(df.rows, nAlleles, pmissInd));
      r := Ok(());
    }

    method FilterLoci() returns (r: Result<()>)
      requires Valid()
      modifies this`df
      ensures Valid()
      ensures match FilterLociSpec(old(df), pmissLoc)
        case Ok(m) => df == m && r == Ok(())
        case Fail(e) => df == old(df) && r == Fail(e)
    {
      if |df.columns| % 2 != 0 {
        return Fail(OddColumnCount);
      }
      df := RemoveColumns(df, FailingColumns(df, pmissLoc));
      r := Ok(());
    }

    /** The first half of `filterMono`: build the recoding dictionary of the
        loci named by the columns and list the loci with one haplotype. */
    method FindMonoLoci() returns (r: Result<seq<string>>)
      requires Valid()
      ensures match BuildCodec(df, LocusNames(df.columns))
        case Ok(codec) => r.Ok? && SetOf(r.value) == MonoLoci(codec)
        case Fail(e) => r == Fail(e)
      ensures r.Ok? ==> forall L :: L in r.value ==> L in LocusNames(df.columns)
    {
      ghost var built := BuildCodec(df, LocusNames(df.columns));
      var findMono := new LocusDict(df);
      var mono := findMono.GetUnique();
      if mono.Fail? {
        return Fail(mono.error);
      }
      // the fresh dictionary started empty, so it is exactly the one built
      MergeEmpty(built.value);
      var removeLoci := SingleAlleleLoci(mono.value, LocusNames(df.columns));
      r := Ok(removeLoci);
    }

    method FilterMono() returns (r: Result<()>)
      requires Valid()
      modifies this`df
      ensures Valid()
      ensures match FilterMonoSpec(old(df))
        case Ok(m) => df == m && r == Ok(())
        case Fail(e) => df == old(df) && r == Fail(e)
    {
      var removeLoci := FindMonoLoci();
      if removeLoci.Fail? {
        return Fail(removeLoci.error);
      }
      PopLoci(removeLoci.value);
      r := Ok(());
    }

    method RunFilters() returns (r: Result<()>)
      requires Valid()
      modifies this`df
      ensures Valid()
      ensures match RunFiltersSpec(old(df), pmissInd, pmissLoc, mono)
        case Ok(m) => df == m && r == Ok(())
        case Fail(e) => r == Fail(e)
    {
      r := FilterInds();
      if r.Fail? {
        return;
      }
      r := FilterLoci();
      if r.Fail? {
        return;
      }
      if mono {
        r := FilterMono();
      }
    }
  }
}
