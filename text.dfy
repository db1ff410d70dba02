// String helpers shared by the converters: the Python `sep.join(...)`,
// `s.split(c)`, `str(n)` for natural numbers, `s.replace(a, b)` for single
// characters and `s.casefold()`.

module Text {

  /** Python's `sep.join(xs)`. */
  function Join(sep: string, xs: seq<string>): string
  {
    if |xs| == 0 then ""
    else if |xs| == 1 then xs[0]
    else xs[0] + sep + Join(sep, xs[1..])
  }

  /** The position of the first `d` in `s`, or `|s|` when there is none. */
  function SepIndex(s: string, d: char): (i: nat)
    ensures i <= |s|
    ensures i < |s| ==> s[i] == d
    ensures forall j :: 0 <= j < i ==> s[j] != d
  {
    if |s| == 0 || s[0] == d then 0 else 1 + SepIndex(s[1..], d)
  }

  /** Python's `s.split(d)` for a one-character separator: the text up to
      the first separator, then the split of the rest; never empty. */
  function Split(s: string, d: char): (r: seq<string>)
    ensures |r| >= 1
    ensures d !in r[0]
    decreases |s|
  {
    var i := SepIndex(s, d);
    if i == |s| then [s] else [s[..i]] + Split(s[i + 1..], d)
  }

  /** No piece of a split contains the separator. */
  lemma {:induction false} SplitPieces(s: string, d: char)
    ensures forall k :: 0 <= k < |Split(s, d)| ==> d !in Split(s, d)[k]
    decreases |s|
  {
    var i := SepIndex(s, d);
    if i < |s| {
      SplitPieces(s[i + 1..], d);
    }
  }

  /** `n` copies of `v` (Python's `[v] * n`). */
  function Repeat(v: string, n: nat): (r: seq<string>)
    ensures |r| == n
    ensures forall i :: 0 <= i < n ==> r[i] == v
  {
    if n == 0 then [] else Repeat(v, n - 1) + [v]
  }

  lemma JoinCons(sep: string, x: string, xs: seq<string>)
    requires |xs| >= 1
    ensures Join(sep, [x] + xs) == x + sep + Join(sep, xs)
  {
    assert ([x] + xs)[1..] == xs;
  }

  /** Appending one more piece adds the separator and the piece at the end. */
  lemma {:induction false} JoinSnoc(sep: string, xs: seq<string>, y: string)
    requires |xs| >= 1
    ensures Join(sep, xs + [y]) == Join(sep, xs) + sep + y
  {
    if |xs| == 1 {
      assert xs + [y] == [xs[0]] + [y];
      JoinCons(sep, xs[0], [y]);
    } else {
      JoinSnoc(sep, xs[1..], y);
      assert xs + [y] == [xs[0]] + (xs[1..] + [y]);
      JoinCons(sep, xs[0], xs[1..] + [y]);
      JoinCons(sep, xs[0], xs[1..]);
      assert xs == [xs[0]] + xs[1..];
    }
  }

  /** `s` ends with `t` (Python `s.endswith(t)`). */
  predicate EndsWith(s: string, t: string)
  {
    |t| <= |s| && s[|s| - |t|..] == t
  }

  /** A join ends with its last piece. */
  lemma JoinLast(sep: string, xs: seq<string>)
    requires |xs| >= 1
    ensures EndsWith(Join(sep, xs), xs[|xs| - 1])
  {
    var n := |xs| - 1;
    if n > 0 {
      assert xs == xs[..n] + [xs[n]];
      JoinSnoc(sep, xs[..n], xs[n]);
    }
  }

  /** Joining the pieces of a split with the same separator gives back the string. */
  lemma {:induction false} JoinSplit(s: string, d: char)
    ensures Join([d], Split(s, d)) == s
    decreases |s|
  {
    var i := SepIndex(s, d);
    if i < |s| {
      var rest := s[i + 1..];
      JoinSplit(rest, d);
      JoinCons([d], s[..i], Split(rest, d));
      assert s == s[..i] + [d] + rest;
    }
  }

  /** Splitting a join of separator-free pieces gives back the pieces. */
  lemma {:induction false} SplitJoin(xs: seq<string>, d: char)
    requires |xs| >= 1
    requires forall i :: 0 <= i < |xs| ==> d !in xs[i]
    ensures Split(Join([d], xs), d) == xs
  {
    if |xs| > 1 {
      SplitJoin(xs[1..], d);
      SplitAfter(xs[0], Join([d], xs[1..]), d);
      assert xs == [xs[0]] + xs[1..];
    }
  }

  /** A separator-free piece followed by the separator splits off as one piece. */
  lemma SplitAfter(p: string, q: string, d: char)
    requires d !in p
    ensures Split(p + [d] + q, d) == [p] + Split(q, d)
  {
    var s := p + [d] + q;
    SepIndexAfter(p, q, d);
    assert s[..|p|] == p;
    assert s[|p| + 1..] == q;
  }

  /** In `p + [d] + q` with no `d` in `p`, the first separator follows `p`. */
  lemma {:induction false} SepIndexAfter(p: string, q: string, d: char)
    requires d !in p
    ensures SepIndex(p + [d] + q, d) == |p|
  {
    if |p| > 0 {
      SepIndexAfter(p[1..], q, d);
      assert (p + [d] + q)[1..] == p[1..] + [d] + q;
    }
  }

  /** A string without the separator splits into itself alone. */
  lemma SplitNoSep(s: string, d: char)
    requires d !in s
    ensures Split(s, d) == [s]
  {
    assert SepIndex(s, d) == |s|;
  }

  /** Splitting at a separator splits the two sides independently. */
  lemma {:induction false} SplitConcat(a: string, b: string, d: char)
    ensures Split(a + [d] + b, d) == Split(a, d) + Split(b, d)
    decreases |a|
  {
    var i := SepIndex(a, d);
    if i == |a| {
      SplitAfterNoSep(a, b, d);
    } else {
      var a1, a2 := a[..i], a[i + 1..];
      calc {
        Split(a + [d] + b, d);
        { assert a + [d] + b == a + ([d] + b); }
        Split(a + ([d] + b), d);
        { SplitFirst(a, [d] + b, d); }
        [a1] + Split(a2 + ([d] + b), d);
        { assert a2 + ([d] + b) == a2 + [d] + b; SplitConcat(a2, b, d); }
        [a1] + (Split(a2, d) + Split(b, d));
        ([a1] + Split(a2, d)) + Split(b, d);
        { SplitFirst(a, [], d); assert a + [] == a; assert a2 + [] == a2; }
        Split(a, d) + Split(b, d);
      }
    }
  }

  /** A string without the separator splits off whole in front of one. */
  lemma SplitAfterNoSep(a: string, b: string, d: char)
    requires SepIndex(a, d) == |a|
    ensures Split(a + [d] + b, d) == Split(a, d) + Split(b, d)
  {
    SplitNoSep(a, d);
    SplitAfter(a, b, d);
  }

  /** Text after the first separator of `a` does not change the first piece. */
  lemma SplitFirst(a: string, t: string, d: char)
    requires SepIndex(a, d) < |a|
    ensures Split(a + t, d) == [a[..SepIndex(a, d)]] + Split(a[SepIndex(a, d) + 1..] + t, d)
  {
    var i := SepIndex(a, d);
    SepIndexPrefix(a, t, d);
    assert (a + t)[..i] == a[..i];
    assert (a + t)[i + 1..] == a[i + 1..] + t;
  }

  /** Text after the first separator does not move it. */
  lemma {:induction false} SepIndexPrefix(a: string, t: string, d: char)
    requires SepIndex(a, d) < |a|
    ensures SepIndex(a + t, d) == SepIndex(a, d)
  {
    if a[0] != d {
      SepIndexPrefix(a[1..], t, d);
      assert (a + t)[1..] == a[1..] + t;
    }
  }

  /** A character absent from a string is absent from every piece of its split. */
  lemma {:induction false} SplitAvoids(s: string, d: char, c: char)
    requires c !in s
    ensures forall k :: 0 <= k < |Split(s, d)| ==> c !in Split(s, d)[k]
    decreases |s|
  {
    var i := SepIndex(s, d);
    if i < |s| {
      SplitAvoids(s[i + 1..], d, c);
      assert forall j :: 0 <= j < i ==> s[..i][j] == s[j];
    }
  }

  /** A character absent from the separator and from every piece is absent
      from their join. */
  lemma {:induction false} JoinAvoids(sep: string, xs: seq<string>, c: char)
    requires c !in sep
    requires forall k :: 0 <= k < |xs| ==> c !in xs[k]
    ensures c !in Join(sep, xs)
  {
    if |xs| > 1 {
      JoinAvoids(sep, xs[1..], c);
      assert xs[0] + sep + Join(sep, xs[1..]) == Join(sep, xs);
    }
  }

  /** Python's `s.replace(a, b)` for single characters. */
  function ReplaceChar(s: string, a: char, b: char): (r: string)
    ensures |r| == |s|
    ensures forall i :: 0 <= i < |s| ==> r[i] == (if s[i] == a then b else s[i])
  {
    if |s| == 0 then "" else ReplaceChar(s[..|s| - 1], a, b) + [if s[|s| - 1] == a then b else s[|s| - 1]]
  }

  function DigitChar(d: nat): char
    requires d < 10
  {
    (48 + d) as char
  }

  predicate IsDigit(c: char)
  {
    48 <= c as int <= 57
  }

  /** Python's `str(n)` for a natural number: decimal digits, no leading zero. */
  function NatToString(n: nat): (r: string)
    ensures |r| >= 1
    ensures forall i :: 0 <= i < |r| ==> IsDigit(r[i])
    ensures r[0] == '0' <==> n == 0
    ensures n >= 10 ==> |r| >= 2
  {
    if n < 10 then [DigitChar(n)] else NatToString(n / 10) + [DigitChar(n % 10)]
  }

  /** The value of a string of decimal digits. */
  function ParseDecimal(s: string): nat
    requires forall i :: 0 <= i < |s| ==> IsDigit(s[i])
  {
    if |s| == 0 then 0
    else
      assert IsDigit(s[|s| - 1]);
      ParseDecimal(s[..|s| - 1]) * 10 + (s[|s| - 1] as int - 48)
  }

  /** Reading back a number written by `NatToString` gives the number. */
  lemma {:induction false} ParseNatToString(n: nat)
    ensures ParseDecimal(NatToString(n)) == n
  {
    var s := NatToString(n);
    if n >= 10 {
      ParseNatToString(n / 10);
      assert s[..|s| - 1] == NatToString(n / 10);
    }
  }

  /** Distinct numbers are written as distinct strings. */
  lemma NatToStringInjective(a: nat, b: nat)
    requires NatToString(a) == NatToString(b)
    ensures a == b
  {
    ParseNatToString(a);
    ParseNatToString(b);
  }

  /** Python's full case folding of one character, for the characters whose
      folded form is plain ASCII; every other character is kept as it is. */
  function FoldChar(c: char): string
  {
    if 'A' <= c <= 'Z' then [(c as int + 32) as char]
    else if c == '\U{017F}' then "s"      // LATIN SMALL LETTER LONG S
    else if c == '\U{212A}' then "k"      // KELVIN SIGN
    else if c == '\U{00DF}' || c == '\U{1E9E}' then "ss"   // sharp s, capital sharp s
    else if c == '\U{FB00}' then "ff"
    else if c == '\U{FB01}' then "fi"
    else if c == '\U{FB02}' then "fl"
    else if c == '\U{FB03}' then "ffi"
    else if c == '\U{FB04}' then "ffl"
    else if c == '\U{FB05}' || c == '\U{FB06}' then "st"
    else [c]
  }

  /** Python's `s.casefold()`, as far as `FoldChar` models it. */
  function CaseFold(s: string): (r: string)
    ensures |r| >= |s|
  {
    if |s| == 0 then "" else CaseFold(s[..|s| - 1]) + FoldChar(s[|s| - 1])
  }

  predicate IsAsciiLetter(c: char)
  {
    'A' <= c <= 'Z' || 'a' <= c <= 'z'
  }

  /** An ASCII letter in lower case. */
  function LowerChar(c: char): char
  {
    if 'A' <= c <= 'Z' then (c as int + 32) as char else c
  }

  /** On ASCII letters case folding is lower-casing, letter by letter. */
  lemma {:induction false} CaseFoldAscii(s: string)
    requires forall i :: 0 <= i < |s| ==> IsAsciiLetter(s[i])
    ensures |CaseFold(s)| == |s|
    ensures forall i :: 0 <= i < |s| ==> CaseFold(s)[i] == LowerChar(s[i])
  {
    if |s| > 0 {
      CaseFoldAscii(s[..|s| - 1]);
      assert FoldChar(s[|s| - 1]) == [LowerChar(s[|s| - 1])];
    }
  }
}
