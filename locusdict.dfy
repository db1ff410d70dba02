// The allele dictionary: for every locus, its distinct observed haplotypes
// numbered "1", "2", ... in the order they are first seen, reading the whole
// `<locus>_1` column and then the whole `<locus>_2` column. Missing cells get
// no code; the Colony writer uses "0" for them.

module LocusDict {
  import opened Text
  import opened Genotype

  /** The non-missing values, in order (pandas `dropna()`). */
  function NonMissing(cells: seq<Cell>): (r: seq<string>)
    ensures forall v :: v in r <==> Some(v) in cells
  {
    if |cells| == 0 then []
    else
      var r := NonMissing(cells[..|cells| - 1]);
      assert cells == cells[..|cells| - 1] + [cells[|cells| - 1]];
      match cells[|cells| - 1]
      case None => r
      case Some(v) => r + [v]
  }

  /** A missing cell contributes nothing and a present one its value. */
  lemma NonMissingCell(v: string)
    ensures NonMissing([None]) == []
    ensures NonMissing([Some(v)]) == [v]
  {
  }

  /** `dropna()` keeps the order of the cells: the values of a joined
      sequence are those of its first part followed by those of its second,
      so the `_1` column's values come before the `_2` column's. */
  lemma {:induction false} NonMissingAppend(a: seq<Cell>, b: seq<Cell>)
    ensures NonMissing(a + b) == NonMissing(a) + NonMissing(b)
    decreases |b|
  {
    if |b| == 0 {
      assert a + b == a;
    } else {
      var n := |b| - 1;
      NonMissingAppend(a, b[..n]);
      assert (a + b)[..|a + b| - 1] == a + b[..n];
      assert (a + b)[|a + b| - 1] == b[n];
    }
  }

  /** The position of the first occurrence of `x` in `s`. */
  function FirstIndex(s: seq<string>, x: string): (i: nat)
    requires x in s
    ensures i < |s| && s[i] == x
    ensures forall j :: 0 <= j < i ==> s[j] != x
  {
    if s[0] == x then 0 else 1 + FirstIndex(s[1..], x)
  }

  /** A value already present in a prefix is first seen at the same place in
      any extension of it. */
  lemma FirstIndexExtend(s: seq<string>, n: nat, x: string)
    requires n <= |s| && x in s[..n]
    ensures FirstIndex(s, x) == FirstIndex(s[..n], x)
  {
    var j := FirstIndex(s[..n], x);
    assert s[j] == x;
  }

  /** pandas `unique()`: every value once, in the order of first appearance
      (`UniqueOrder`). */
  function Unique(s: seq<string>): (r: seq<string>)
    ensures forall i, j :: 0 <= i < j < |r| ==> r[i] != r[j]
    ensures forall x :: x in r <==> x in s
  {
    if |s| == 0 then []
    else
      var r := Unique(s[..|s| - 1]);
      if s[|s| - 1] in r then r else r + [s[|s| - 1]]
  }

  /** `Unique` lists the values in the order they are first seen. */
  lemma {:induction false} UniqueOrder(s: seq<string>)
    ensures forall i, j :: 0 <= i < j < |Unique(s)| ==> FirstIndex(s, Unique(s)[i]) < FirstIndex(s, Unique(s)[j])
  {
    if |s| > 0 {
      var n := |s| - 1;
      var r := Unique(s[..n]);
      UniqueOrder(s[..n]);
      assert s == s[..n] + [s[n]];
      forall i | 0 <= i < |r| ensures FirstIndex(s, r[i]) == FirstIndex(s[..n], r[i]) < n {
        FirstIndexExtend(s, n, r[i]);
      }
      if s[n] !in r {
        assert FirstIndex(s, s[n]) == n;
        assert Unique(s) == r + [s[n]];
      }
    }
  }

  /** The position of the first column labelled `name` (pandas `df[name]`). */
  function IndexOf(cols: seq<string>, name: string): (r: Option<nat>)
    ensures r.None? <==> name !in cols
    ensures r.Some? ==> r.value < |cols| && cols[r.value] == name
  {
    if |cols| == 0 then None
    else if cols[0] == name then Some(0)
    else match IndexOf(cols[1..], name)
      case None => None
      case Some(j) => Some(j + 1)
  }

  /** The cells of the column labelled `name`; a KeyError when there is none. */
  function ColumnByName(m: Matrix, name: string): (r: Result<seq<Cell>>)
    requires m.WellFormed()
    ensures r.Fail? <==> name !in m.columns
    ensures r.Fail? ==> r.error == MissingColumn(name)
    ensures r.Ok? ==> |r.value| == |m.rows|
  {
    match IndexOf(m.columns, name)
    case None => Fail(MissingColumn(name))
    case Some(j) => Ok(ColumnCells(m.rows, j))
  }

  /** `concat([df[locus_1], df[locus_2]]).dropna().unique()`. */
  function LocusAlleles(m: Matrix, locus: string): Result<seq<string>>
    requires m.WellFormed()
  {
    match ColumnByName(m, locus + "_1")
    case Fail(e) => Fail(e)
    case Ok(c1) =>
      match ColumnByName(m, locus + "_2")
      case Fail(e) => Fail(e)
      case Ok(c2) => Ok(Unique(NonMissing(c1 + c2)))
  }

  /** `{value: str(key + 1) for key, value in enumerate(alleles)}`. */
  function Codes(alleles: seq<string>): (r: map<string, string>)
    ensures forall v {:trigger v in r} :: v in r <==> v in alleles
  {
    if |alleles| == 0 then map[]
    else
      var n := |alleles| - 1;
      assert alleles == alleles[..n] + [alleles[n]];
      Codes(alleles[..n])[alleles[n] := NatToString(|alleles|)]
  }

  /** The inverse of `Codes`: the haplotype a code stands for, if any. */
  function Decode(alleles: seq<string>, code: string): Option<string>
  {
    if (forall i :: 0 <= i < |code| ==> IsDigit(code[i])) && 1 <= ParseDecimal(code) <= |alleles|
    then Some(alleles[ParseDecimal(code) - 1])
    else None
  }

  /** The dictionary `getUnique` fills in for the loci `loci`, in order; it
      has one entry per listed locus. */
  function BuildCodec(m: Matrix, loci: seq<string>): (r: Result<map<string, map<string, string>>>)
    requires m.WellFormed()
    ensures r.Ok? ==> forall L :: L in r.value <==> L in loci
  {
    if |loci| == 0 then Ok(map[])
    else
      assert loci == loci[..|loci| - 1] + [loci[|loci| - 1]];
      match BuildCodec(m, loci[..|loci| - 1])
      case Fail(e) => Fail(e)
      case Ok(c) =>
        match LocusAlleles(m, loci[|loci| - 1])
        case Fail(e) => Fail(e)
        case Ok(alleles) => Ok(c[loci[|loci| - 1] := Codes(alleles)])
  }

  /** With distinct haplotypes there is one code per haplotype, and the
      haplotype at position i gets the code i + 1. */
  lemma {:induction false} CodesKeys(alleles: seq<string>)
    requires Distinct(alleles)
    ensures forall i :: 0 <= i < |alleles| ==> Codes(alleles)[alleles[i]] == NatToString(i + 1)
    ensures |Codes(alleles)| == |alleles|
  {
    if |alleles| > 0 {
      var n := |alleles| - 1;
      var prefix := alleles[..n];
      DistinctPrefix(alleles, n);
      CodesKeys(prefix);
      DistinctLast(alleles);
      assert alleles == prefix + [alleles[n]];
      NumberedSnoc(Codes(prefix), prefix, alleles[n]);
    }
  }

  /** Numbering one more new value after `xs` gives it the next code. */
  lemma NumberedSnoc(c: map<string, string>, xs: seq<string>, x: string)
    requires forall i :: 0 <= i < |xs| ==> xs[i] in c && c[xs[i]] == NatToString(i + 1)
    requires |c| == |xs| && x !in c
    ensures var c' := c[x := NatToString(|xs| + 1)];
      && (forall i :: 0 <= i < |xs + [x]| ==> (xs + [x])[i] in c' && c'[(xs + [x])[i]] == NatToString(i + 1))
      && |c'| == |xs + [x]|
  {
    var c' := c[x := NatToString(|xs| + 1)];
    forall i | 0 <= i < |xs + [x]|
      ensures (xs + [x])[i] in c' && c'[(xs + [x])[i]] == NatToString(i + 1)
    {
      if i < |xs| {
        assert (xs + [x])[i] == xs[i] != x;
      }
    }
  }

  lemma DistinctPrefix(s: seq<string>, n: nat)
    requires Distinct(s) && n <= |s|
    ensures Distinct(s[..n])
  {
    assert forall i :: 0 <= i < n ==> s[..n][i] == s[i];
  }

  lemma DistinctLast(s: seq<string>)
    requires Distinct(s) && |s| > 0
    ensures s[|s| - 1] !in s[..|s| - 1]
  {
  }

  /** The code "0", which the Colony file uses for a missing allele, is
      never given to a haplotype. */
  lemma CodesNoZero(alleles: seq<string>)
    requires Distinct(alleles)
    ensures forall v :: v in Codes(alleles) ==> Codes(alleles)[v] != "0"
  {
    CodesKeys(alleles);
    forall v | v in Codes(alleles) ensures Codes(alleles)[v] != "0" {
      var i :| 0 <= i < |alleles| && alleles[i] == v;
      assert Codes(alleles)[v] == NatToString(i + 1);
    }
  }

  /** Distinct haplotypes of a locus get distinct codes. */
  lemma CodesInjective(alleles: seq<string>)
    requires Distinct(alleles)
    ensures forall a, b :: a in Codes(alleles) && b in Codes(alleles) && a != b ==>
      Codes(alleles)[a] != Codes(alleles)[b]
  {
    CodesKeys(alleles);
    var c := Codes(alleles);
    forall a, b | a in c && b in c && a != b ensures c[a] != c[b] {
      var i :| 0 <= i < |alleles| && alleles[i] == a;
      var j :| 0 <= j < |alleles| && alleles[j] == b;
      if c[a] == c[b] {
        NatToStringInjective(i + 1, j + 1);
      }
    }
  }

  /** Decoding the code of a haplotype gives back the haplotype. */
  lemma CodesDecode(alleles: seq<string>)
    requires Distinct(alleles)
    ensures forall v :: v in Codes(alleles) ==> Decode(alleles, Codes(alleles)[v]) == Some(v)
  {
    CodesKeys(alleles);
    forall v | v in Codes(alleles) ensures Decode(alleles, Codes(alleles)[v]) == Some(v) {
      var i :| 0 <= i < |alleles| && alleles[i] == v;
      DecodeCode(alleles, i);
    }
  }

  /** The code written for position i decodes to the haplotype at i. */
  lemma DecodeCode(alleles: seq<string>, i: nat)
    requires i < |alleles|
    ensures Decode(alleles, NatToString(i + 1)) == Some(alleles[i])
  {
    ParseNatToString(i + 1);
  }

  /** A list without repetitions has as many elements as its set. */
  lemma {:induction false} DistinctCard(s: seq<string>)
    requires Distinct(s)
    ensures |set x | x in s| == |s|
  {
    if |s| > 0 {
      var n := |s| - 1;
      DistinctCard(s[..n]);
      assert (set x | x in s) == (set x | x in s[..n]) + {s[n]};
      assert s[n] !in s[..n];
    }
  }

  /** `unique()` keeps one element per distinct value. */
  lemma UniqueCount(s: seq<string>)
    ensures |Unique(s)| == |set x | x in s|
  {
    DistinctCard(Unique(s));
    assert (set x | x in s) == (set x | x in Unique(s));
  }

  /** The dictionary entry of one locus: its haplotypes are the unique
      non-missing values of the `_1` column followed by the `_2` column, so
      its keys are exactly the values present in either column, and there are
      as many codes as distinct values (`UniqueCount`, `CodesKeys`). */
  lemma LocusCodesKeys(m: Matrix, locus: string, c1: seq<Cell>, c2: seq<Cell>)
    requires m.WellFormed()
    requires ColumnByName(m, locus + "_1") == Ok(c1) && ColumnByName(m, locus + "_2") == Ok(c2)
    ensures LocusAlleles(m, locus) == Ok(Unique(NonMissing(c1 + c2)))
    ensures forall v :: v in Codes(Unique(NonMissing(c1 + c2))) <==> Some(v) in c1 || Some(v) in c2
    ensures |Codes(Unique(NonMissing(c1 + c2)))| == |set v | v in NonMissing(c1 + c2)|
  {
    var vals := NonMissing(c1 + c2);
    CodesKeys(Unique(vals));
    UniqueCount(vals);
    assert forall v :: Some(v) in c1 + c2 <==> Some(v) in c1 || Some(v) in c2;
  }

  /** One more locus: `BuildCodec` of a prefix extended by one locus. */
  lemma BuildCodecStep(m: Matrix, loci: seq<string>, i: nat)
    requires m.WellFormed()
    requires i < |loci|
    ensures BuildCodec(m, loci[..i + 1]) ==
      match BuildCodec(m, loci[..i])
      case Fail(e) => Fail(e)
      case Ok(c) =>
        match LocusAlleles(m, loci[i])
        case Fail(e) => Fail(e)
        case Ok(alleles) => Ok(c[loci[i] := Codes(alleles)])
  {
    assert loci[..i + 1][..i] == loci[..i];
  }

  /** A locus whose columns exist adds its codes to the dictionary so far. */
  lemma BuildCodecNext(m: Matrix, loci: seq<string>, i: nat, built: map<string, map<string, string>>)
    requires m.WellFormed()
    requires i < |loci| && BuildCodec(m, loci[..i]) == Ok(built) && LocusAlleles(m, loci[i]).Ok?
    ensures BuildCodec(m, loci[..i + 1]) == Ok(built[loci[i] := Codes(LocusAlleles(m, loci[i]).value)])
  {
    BuildCodecStep(m, loci, i);
  }

  /** A locus with a missing column makes the whole dictionary fail with its error. */
  lemma BuildCodecStop(m: Matrix, loci: seq<string>, i: nat)
    requires m.WellFormed()
    requires i < |loci| && BuildCodec(m, loci[..i]).Ok? && LocusAlleles(m, loci[i]).Fail?
    ensures BuildCodec(m, loci) == Fail(LocusAlleles(m, loci[i]).error)
  {
    BuildCodecStep(m, loci, i);
    BuildCodecFailExtends(m, loci, i + 1);
  }

  /** Overriding one key after a merge is overriding it in the right operand. */
  lemma MergeUpdate<K, V>(a: map<K, V>, b: map<K, V>, k: K, v: V)
    ensures (a + b)[k := v] == a + b[k := v]
  {
  }

  /** Merging into an empty dictionary gives the merged dictionary. */
  lemma MergeEmpty<K, V>(b: map<K, V>)
    ensures map[] + b == b
  {
  }

  /** Both allele columns of a locus are present. */
  predicate HasColumns(m: Matrix, locus: string)
  {
    locus + "_1" in m.columns && locus + "_2" in m.columns
  }

  /** A locus has haplotypes exactly when both its columns exist; otherwise
      the error names the first missing column. */
  lemma LocusAllelesOk(m: Matrix, locus: string)
    requires m.WellFormed()
    ensures LocusAlleles(m, locus).Ok? <==> HasColumns(m, locus)
    ensures locus + "_1" !in m.columns ==> LocusAlleles(m, locus) == Fail(MissingColumn(locus + "_1"))
    ensures locus + "_1" in m.columns && locus + "_2" !in m.columns ==>
      LocusAlleles(m, locus) == Fail(MissingColumn(locus + "_2"))
  {
  }

  /** One more locus succeeds exactly when the loci before it did and it has
      both its columns. */
  lemma BuildCodecOkStep(m: Matrix, loci: seq<string>)
    requires m.WellFormed()
    requires |loci| > 0
    ensures BuildCodec(m, loci).Ok? <==>
      BuildCodec(m, loci[..|loci| - 1]).Ok? && HasColumns(m, loci[|loci| - 1])
  {
    LocusAllelesOk(m, loci[|loci| - 1]);
  }

  /** The dictionary for a list of loci exists exactly when every locus has
      both its columns. */
  lemma {:induction false} BuildCodecOk(m: Matrix, loci: seq<string>)
    requires m.WellFormed()
    ensures BuildCodec(m, loci).Ok? <==> forall L :: L in loci ==> HasColumns(m, L)
  {
    if |loci| > 0 {
      var n := |loci| - 1;
      BuildCodecOk(m, loci[..n]);
      BuildCodecOkStep(m, loci);
      assert forall L :: L in loci <==> L in loci[..n] || L == loci[n] by {
        assert loci == loci[..n] + [loci[n]];
      }
    }
  }

  /** A dictionary that was built holds the one for all loci but the last,
      plus the codes of the last. */
  lemma BuildCodecLast(m: Matrix, loci: seq<string>)
    requires m.WellFormed()
    requires |loci| > 0 && BuildCodec(m, loci).Ok?
    ensures BuildCodec(m, loci[..|loci| - 1]).Ok? && LocusAlleles(m, loci[|loci| - 1]).Ok?
    ensures BuildCodec(m, loci).value ==
      BuildCodec(m, loci[..|loci| - 1]).value[loci[|loci| - 1] := Codes(LocusAlleles(m, loci[|loci| - 1]).value)]
  {
  }

  /** The entry of each locus holds the codes of that locus. */
  lemma {:induction false} BuildCodecEntries(m: Matrix, loci: seq<string>)
    requires m.WellFormed()
    requires BuildCodec(m, loci).Ok?
    ensures forall L :: L in BuildCodec(m, loci).value ==>
      LocusAlleles(m, L).Ok? && BuildCodec(m, loci).value[L] == Codes(LocusAlleles(m, L).value)
  {
    if |loci| > 0 {
      var n := |loci| - 1;
      BuildCodecLast(m, loci);
      BuildCodecEntries(m, loci[..n]);
    }
  }

  /** The per-locus recoding dictionary (Python class `LocusDict`). */
  class LocusDict {
    const df: Matrix
    var recodeAlleles: map<string, map<string, string>>

    constructor (df: Matrix)
      ensures this.df == df && recodeAlleles == map[]
    {
      this.df := df;
      recodeAlleles := map[];
    }

    /** Fill `recodeAlleles` with one entry per locus named by the odd-indexed
        columns, and return it; a locus with a missing column is a KeyError. */
    method GetUnique() returns (r: Result<map<string, map<string, string>>>)
      requires df.WellFormed()
      modifies this
      ensures match BuildCodec(df, LocusNames(df.columns))
        case Ok(c) => recodeAlleles == old(recodeAlleles) + c && r == Ok(recodeAlleles)
        case Fail(e) => r == Fail(e)
    {
      var singleLoci := LocusNames(df.columns);
      ghost var built: map<string, map<string, string>> := map[];
      var i := 0;
      while i < |singleLoci|
        invariant 0 <= i <= |singleLoci|
        invariant BuildCodec(df, singleLoci[..i]) == Ok(built)
        invariant recodeAlleles == old(recodeAlleles) + built
      {
        var locus := singleLoci[i];
        var alleles := LocusAlleles(df, locus);
        if alleles.Fail? {
          BuildCodecStop(df, singleLoci, i);
          return Fail(alleles.error);
        }
        var swap := Codes(alleles.value);
        BuildCodecNext(df, singleLoci, i, built);
        MergeUpdate(old(recodeAlleles), built, locus, swap);
        recodeAlleles := recodeAlleles[locus := swap];
        built := built[locus := swap];
        i := i + 1;
      }
      assert singleLoci[..i] == singleLoci;
      r := Ok(recodeAlleles);
    }
  }

  /** Once the loci so far have failed, the whole list fails the same way. */
  lemma {:induction false} BuildCodecFailExtends(m: Matrix, loci: seq<string>, n: nat)
    requires m.WellFormed()
    requires n <= |loci| && BuildCodec(m, loci[..n]).Fail?
    ensures BuildCodec(m, loci) == BuildCodec(m, loci[..n])
    decreases |loci| - n
  {
    if n < |loci| {
      BuildCodecStep(m, loci, n);
      BuildCodecFailExtends(m, loci, n + 1);
    } else {
      assert loci[..n] == loci;
    }
  }
}
