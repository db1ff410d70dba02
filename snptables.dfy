// The per-position character tables that `MHconvert.convSNP` builds: for
// every locus, for every position of its haplotypes and every character
// found there, the summed frequency of the haplotypes with that character
// at that position. The Python code keeps them in nested
// `defaultdict(int)`s: reading an absent entry gives 0, and an entry comes
// into being when a count is added to it.
//
// A locus's frequency table is given as the list of its `(haplotype,
// frequency)` items, in the order `dict.items()` yields them; the frequency
// is the value after `int(...)`.

module SnpTables {
  import opened Genotype

  type Items = seq<(string, int)>

  /** position -> character -> summed frequency */
  type Table = map<nat, map<char, int>>

  /** Reading `table[p][c]` through the default dictionaries. */
  function Get(t: Table, p: nat, c: char): int
  {
    if p in t && c in t[p] then t[p][c] else 0
  }

  /** Whether `table[p][c]` has come into being. */
  predicate Has(t: Table, p: nat, c: char)
  {
    p in t && c in t[p]
  }

  /** `table[p][c] += v`: the one entry grows by `v` and exists afterwards. */
  function Bump(t: Table, p: nat, c: char, v: int): (r: Table)
    ensures forall q, d :: Get(r, q, d) == Get(t, q, d) + (if q == p && d == c then v else 0)
    ensures forall q, d :: Has(r, q, d) <==> Has(t, q, d) || (q == p && d == c)
  {
    var row := if p in t then t[p] else map[];
    t[p := row[c := Get(t, p, c) + v]]
  }

  /** The first `n` characters of one haplotype added with frequency `v`
      (the innermost loop of `convSNP`). */
  function AddHap(t: Table, hap: string, v: int, n: nat): Table
    requires n <= |hap|
  {
    if n == 0 then t else Bump(AddHap(t, hap, v, n - 1), n - 1, hap[n - 1], v)
  }

  /** The table of the first `n` items of a locus: every entry, read with
      the defaults, is the summed frequency of the haplotypes with that
      character at that position. */
  function TableOf(items: Items, n: nat): (r: Table)
    requires n <= |items|
    ensures forall p, c :: Get(r, p, c) == CountAt(items, n, p, c)
  {
    if n == 0 then map[]
    else
      var h := items[n - 1].0;
      AddHapGet(TableOf(items, n - 1), h, items[n - 1].1, |h|);
      AddHap(TableOf(items, n - 1), h, items[n - 1].1, |h|)
  }

  /** One more item adds its haplotype to the table. */
  lemma TableOfNext(items: Items, i: nat)
    requires i < |items|
    ensures TableOf(items, i + 1) == AddHap(TableOf(items, i), items[i].0, items[i].1, |items[i].0|)
  {
  }

  // ---------------------------------------------------------------------
  // Reference definitions, by the items

  /** Whether haplotype `h` has character `c` at position `p`. */
  predicate CharAt(h: string, p: nat, c: char)
  {
    p < |h| && h[p] == c
  }

  /** The summed frequency of the first `n` items with `c` at position `p`. */
  function CountAt(items: Items, n: nat, p: nat, c: char): int
    requires n <= |items|
  {
    if n == 0 then 0
    else CountAt(items, n - 1, p, c) + (if CharAt(items[n - 1].0, p, c) then items[n - 1].1 else 0)
  }

  /** Some one of the first `n` items has `c` at position `p`. */
  predicate Occurs(items: Items, n: nat, p: nat, c: char)
    requires n <= |items|
  {
    exists i :: 0 <= i < n && CharAt(items[i].0, p, c)
  }

  /** The summed frequency of the first `n` items longer than `p`. */
  function LongerTotal(items: Items, n: nat, p: nat): int
    requires n <= |items|
  {
    if n == 0 then 0
    else LongerTotal(items, n - 1, p) + (if p < |items[n - 1].0| then items[n - 1].1 else 0)
  }

  /** The summed frequency of the first `n` items. */
  function Total(items: Items, n: nat): int
    requires n <= |items|
  {
    if n == 0 then 0 else Total(items, n - 1) + items[n - 1].1
  }

  // ---------------------------------------------------------------------
  // The table agrees with the reference definitions

  lemma {:induction false} AddHapGet(t: Table, hap: string, v: int, n: nat)
    requires n <= |hap|
    ensures forall q: nat, d: char ::
      Get(AddHap(t, hap, v, n), q, d) == Get(t, q, d) + (if q < n && hap[q] == d then v else 0)
  {
    if n > 0 {
      AddHapGet(t, hap, v, n - 1);
    }
  }

  lemma {:induction false} AddHapHas(t: Table, hap: string, v: int, n: nat)
    requires n <= |hap|
    ensures forall q: nat, d: char ::
      Has(AddHap(t, hap, v, n), q, d) <==> Has(t, q, d) || (q < n && hap[q] == d)
  {
    if n > 0 {
      AddHapHas(t, hap, v, n - 1);
    }
  }

  /** The table holds an entry exactly for the (position, character) pairs
      that occur in some haplotype. */
  lemma {:induction false} TableEntries(items: Items, n: nat)
    requires n <= |items|
    ensures forall p, c :: Has(TableOf(items, n), p, c) <==> Occurs(items, n, p, c)
  {
    if n > 0 {
      TableEntries(items, n - 1);
      var h := items[n - 1].0;
      AddHapHas(TableOf(items, n - 1), h, items[n - 1].1, |h|);
      forall p, c
        ensures Occurs(items, n, p, c) <==> Occurs(items, n - 1, p, c) || CharAt(h, p, c)
      {
        if Occurs(items, n, p, c) && !CharAt(h, p, c) {
          var i :| 0 <= i < n && CharAt(items[i].0, p, c);
          assert i < n - 1;
        }
      }
    }
  }

  // ---------------------------------------------------------------------
  // Sums over a position

  /** No character is listed twice. */
  predicate DistinctChars(cs: seq<char>)
  {
    forall i, j :: 0 <= i < j < |cs| ==> cs[i] != cs[j]
  }

  /** The counts at position `p` of the listed characters, added up. */
  function SumCounts(items: Items, n: nat, p: nat, cs: seq<char>): int
    requires n <= |items|
  {
    if |cs| == 0 then 0 else SumCounts(items, n, p, cs[..|cs| - 1]) + CountAt(items, n, p, cs[|cs| - 1])
  }

  /** The entries of one row of the table at the listed characters, added up. */
  function SumRow(row: map<char, int>, cs: seq<char>): int
  {
    if |cs| == 0 then 0
    else SumRow(row, cs[..|cs| - 1]) + (if cs[|cs| - 1] in row then row[cs[|cs| - 1]] else 0)
  }

  /** Adding item `n - 1` to the counts of distinct characters adds its
      frequency once, when its character at `p` is listed. */
  lemma {:induction false} SumCountsStep(items: Items, n: nat, p: nat, cs: seq<char>)
    requires 1 <= n <= |items| && DistinctChars(cs)
    ensures SumCounts(items, n, p, cs) == SumCounts(items, n - 1, p, cs)
      + (if p < |items[n - 1].0| && items[n - 1].0[p] in cs then items[n - 1].1 else 0)
  {
    if |cs| > 0 {
      var init := cs[..|cs| - 1];
      SumCountsStep(items, n, p, init);
      var h := items[n - 1].0;
      if p < |h| && h[p] == cs[|cs| - 1] {
        assert h[p] !in init;
      }
      assert p < |h| && h[p] in cs <==> (p < |h| && h[p] in init) || CharAt(h, p, cs[|cs| - 1]);
    }
  }

  /** Over a list of distinct characters that covers every character found
      at position `p`, the counts add up to the frequency of the haplotypes
      longer than `p`. */
  lemma {:induction false} PositionSum(items: Items, n: nat, p: nat, cs: seq<char>)
    requires n <= |items| && DistinctChars(cs)
    requires forall c :: Occurs(items, n, p, c) ==> c in cs
    ensures SumCounts(items, n, p, cs) == LongerTotal(items, n, p)
  {
    if n == 0 {
      SumCountsZero(items, p, cs);
    } else {
      forall c | Occurs(items, n - 1, p, c)
        ensures c in cs
      {
        var i :| 0 <= i < n - 1 && CharAt(items[i].0, p, c);
        assert Occurs(items, n, p, c);
      }
      PositionSum(items, n - 1, p, cs);
      SumCountsStep(items, n, p, cs);
      var h := items[n - 1].0;
      if p < |h| {
        assert CharAt(items[n - 1].0, p, h[p]);
        assert Occurs(items, n, p, h[p]);
      }
    }
  }

  lemma {:induction false} SumCountsZero(items: Items, p: nat, cs: seq<char>)
    ensures SumCounts(items, 0, p, cs) == 0
  {
    if |cs| > 0 {
      SumCountsZero(items, p, cs[..|cs| - 1]);
    }
  }

  /** A row of the table, added up over its characters, reads the counts. */
  lemma {:induction false} SumRowCounts(items: Items, p: nat, cs: seq<char>)
    requires p in TableOf(items, |items|)
    ensures SumRow(TableOf(items, |items|)[p], cs) == SumCounts(items, |items|, p, cs)
  {
    if |cs| > 0 {
      SumRowCounts(items, p, cs[..|cs| - 1]);
      assert Get(TableOf(items, |items|), p, cs[|cs| - 1]) == CountAt(items, |items|, p, cs[|cs| - 1]);
    }
  }

  /** The counts in the row of position `p`, over its characters, add up to
      the frequency of the haplotypes longer than `p`. */
  lemma TableRowSum(items: Items, p: nat, cs: seq<char>)
    requires p in TableOf(items, |items|) && DistinctChars(cs)
    requires forall c :: c in cs <==> c in TableOf(items, |items|)[p]
    ensures SumRow(TableOf(items, |items|)[p], cs) == LongerTotal(items, |items|, p)
  {
    TableEntries(items, |items|);
    SumRowCounts(items, p, cs);
    forall c | Occurs(items, |items|, p, c)
      ensures c in cs
    {
      assert Has(TableOf(items, |items|), p, c);
    }
    PositionSum(items, |items|, p, cs);
  }

  /** When every haplotype has length `len`, every position below `len`
      carries the whole frequency. */
  lemma {:induction false} SameLengthTotal(items: Items, n: nat, len: nat, p: nat)
    requires n <= |items| && p < len
    requires forall i :: 0 <= i < n ==> |items[i].0| == len
    ensures LongerTotal(items, n, p) == Total(items, n)
  {
    if n > 0 {
      SameLengthTotal(items, n - 1, len, p);
    }
  }

  // ---------------------------------------------------------------------
  // One table per locus

  /** `t` holds one table per locus of `loci`, and no other, each the table
      of that locus's frequencies. */
  ghost predicate TablesFor(loci: seq<string>, freqs: map<string, Items>, t: map<string, Table>)
  {
    && (forall L :: L in t <==> L in loci)
    && (forall L :: L in t ==> L in freqs && t[L] == TableOf(freqs[L], |freqs[L]|))
  }

  /** The tables of the first `n` loci; a locus missing from the frequency
      tables is a KeyError. The tables exist exactly when every locus has
      frequencies, and then they are one table per locus. */
  function TablesUpTo(loci: seq<string>, freqs: map<string, Items>, n: nat): (r: Result<map<string, Table>>)
    requires n <= |loci|
    ensures r.Ok? <==> forall k :: 0 <= k < n ==> loci[k] in freqs
    ensures r.Ok? ==> TablesFor(loci[..n], freqs, r.value)
  {
    if n == 0 then Ok(map[])
    else
      match TablesUpTo(loci, freqs, n - 1)
      case Fail(e) => Fail(e)
      case Ok(t) =>
        var locus := loci[n - 1];
        if locus !in freqs then Fail(MissingFrequencies(locus))
        else
          TablesForSnoc(loci, freqs, n, t);
          Ok(t[locus := TableOf(freqs[locus], |freqs[locus]|)])
  }

  lemma TablesForSnoc(loci: seq<string>, freqs: map<string, Items>, n: nat, t: map<string, Table>)
    requires 0 < n <= |loci| && TablesFor(loci[..n - 1], freqs, t) && loci[n - 1] in freqs
    ensures TablesFor(loci[..n], freqs, t[loci[n - 1] := TableOf(freqs[loci[n - 1]], |freqs[loci[n - 1]]|)])
  {
    assert loci[..n] == loci[..n - 1] + [loci[n - 1]];
  }

  /** One more locus with frequencies adds its table. */
  lemma TablesNext(loci: seq<string>, freqs: map<string, Items>, k: nat, t: map<string, Table>)
    requires k < |loci| && TablesUpTo(loci, freqs, k) == Ok(t) && loci[k] in freqs
    ensures TablesUpTo(loci, freqs, k + 1) == Ok(t[loci[k] := TableOf(freqs[loci[k]], |freqs[loci[k]]|)])
  {
  }

  /** Once a locus lacks frequencies, building fails with the first such
      locus, however many loci follow. */
  lemma {:induction false} TablesFailExtends(loci: seq<string>, freqs: map<string, Items>, n: nat, k: nat)
    requires 1 <= n <= k <= |loci|
    requires TablesUpTo(loci, freqs, n - 1).Ok? && loci[n - 1] !in freqs
    ensures TablesUpTo(loci, freqs, k) == Fail(MissingFrequencies(loci[n - 1]))
    decreases k - n
  {
    if k > n {
      TablesFailExtends(loci, freqs, n, k - 1);
    }
  }
}
