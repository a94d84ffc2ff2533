/** The Python string operations the Q-table codecs rely on: `str.find`, `str.replace`,
 *  `str.split`, `str.join`, and the decimal renderings `str(int)` / `repr(float)` together
 *  with the parsers `int(...)` / `float(...)` that read them back. */
module PyText {
  import opened Wrappers

  /** `pat` occurs in `s` starting at index `i`. */
  predicate OccursAt(s: string, pat: string, i: nat)
  {
    i + |pat| <= |s| && s[i..i + |pat|] == pat
  }

  lemma OccursShift(s: string, pat: string)
    requires |s| > 0
    ensures forall j: nat :: j >= 1 ==> (OccursAt(s, pat, j) <==> OccursAt(s[1..], pat, j - 1))
  {
    forall j: nat | j >= 1
      ensures OccursAt(s, pat, j) <==> OccursAt(s[1..], pat, j - 1)
    {
      if j + |pat| <= |s| {
        assert s[1..][j - 1..j - 1 + |pat|] == s[j..j + |pat|];
      }
    }
  }

  /** First index at which `pat` occurs in `s` (Python's `str.find`), or None. */
  function Find(s: string, pat: string): (r: Option<nat>)
    requires |pat| > 0
    ensures r.Some? ==> r.value + |pat| <= |s|
    decreases |s|
  {
    if |s| < |pat| then None
    else if s[..|pat|] == pat then Some(0)
    else
      match Find(s[1..], pat)
      case None => None
      case Some(i) => Some(i + 1)
  }

  /** Find returns the first occurrence, and None exactly when there is none. */
  lemma {:induction false} FindSpec(s: string, pat: string)
    requires |pat| > 0
    ensures Find(s, pat).Some? ==> OccursAt(s, pat, Find(s, pat).value)
    ensures Find(s, pat).Some? ==> forall i: nat :: i < Find(s, pat).value ==> !OccursAt(s, pat, i)
    ensures Find(s, pat).None? ==> forall i: nat :: !OccursAt(s, pat, i)
    decreases |s|
  {
    if |s| >= |pat| && s[..|pat|] != pat {
      OccursShift(s, pat);
      assert !OccursAt(s, pat, 0) by { assert s[0..|pat|] == s[..|pat|]; }
      FindSpec(s[1..], pat);
    } else if |s| >= |pat| {
      assert s[0..|pat|] == s[..|pat|];
    }
  }

  /** The first occurrence is pinned down by where it is and that none comes earlier. */
  lemma FindIs(s: string, pat: string, k: nat)
    requires |pat| > 0
    requires OccursAt(s, pat, k)
    requires forall i: nat :: i < k ==> !OccursAt(s, pat, i)
    ensures Find(s, pat) == Some(k)
  {
    FindSpec(s, pat);
  }

  /** A string that lacks the first character of `pat` cannot contain `pat`. */
  lemma FindMissingHead(s: string, pat: string)
    requires |pat| > 0 && pat[0] !in s
    ensures Find(s, pat) == None
  {
    FindSpec(s, pat);
    forall i: nat
      ensures !OccursAt(s, pat, i)
    {
      if i + |pat| <= |s| {
        assert s[i..i + |pat|][0] == s[i];
      }
    }
  }

  /** Python's `s.replace(pat, rep)`: every non-overlapping occurrence, left to right. */
  function Replace(s: string, pat: string, rep: string): (r: string)
    requires |pat| > 0
    ensures Find(s, pat) == None ==> r == s
    decreases |s|
  {
    match Find(s, pat)
    case None => s
    case Some(i) => s[..i] + rep + Replace(s[i + |pat|..], pat, rep)
  }

  /** Python's `s.split(sep)` for a non-empty separator. */
  function Split(s: string, sep: string): (r: seq<string>)
    requires |sep| > 0
    ensures |r| >= 1
    decreases |s|
  {
    match Find(s, sep)
    case None => [s]
    case Some(i) => [s[..i]] + Split(s[i + |sep|..], sep)
  }

  /** Python's `sep.join(parts)`. */
  function Join(parts: seq<string>, sep: string): string
  {
    if |parts| == 0 then ""
    else if |parts| == 1 then parts[0]
    else parts[0] + sep + Join(parts[1..], sep)
  }

  /** Every character of `s` lies in `alphabet`. */
  predicate Within(s: string, alphabet: set<char>)
  {
    forall i :: 0 <= i < |s| ==> s[i] in alphabet
  }

  lemma SingleWithin(c: char, alphabet: set<char>)
    requires c in alphabet
    ensures Within([c], alphabet)
  {
  }

  lemma WithinWider(s: string, alphabet: set<char>, wider: set<char>)
    requires Within(s, alphabet) && alphabet <= wider
    ensures Within(s, wider)
  {
  }

  lemma WithinConcat(a: string, b: string, alphabet: set<char>)
    requires Within(a, alphabet) && Within(b, alphabet)
    ensures Within(a + b, alphabet)
  {
    forall i | 0 <= i < |a + b|
      ensures (a + b)[i] in alphabet
    {
      if i < |a| { assert (a + b)[i] == a[i]; } else { assert (a + b)[i] == b[i - |a|]; }
    }
  }

  lemma {:induction false} WithinJoin(parts: seq<string>, sep: string, alphabet: set<char>)
    requires forall k :: 0 <= k < |parts| ==> Within(parts[k], alphabet)
    requires Within(sep, alphabet)
    ensures Within(Join(parts, sep), alphabet)
    decreases |parts|
  {
    if |parts| > 1 {
      WithinJoin(parts[1..], sep, alphabet);
      WithinConcat(parts[0], sep, alphabet);
      WithinConcat(parts[0] + sep, Join(parts[1..], sep), alphabet);
    }
  }

  lemma NotWithin(s: string, alphabet: set<char>, c: char)
    requires Within(s, alphabet) && c !in alphabet
    ensures c !in s
  {
  }

  /** `sep` occurs in `p + sep` first right after `p`: `p` can be followed by `sep` and
   *  still be cut off exactly at its end. */
  predicate CleanPart(p: string, sep: string)
    requires |sep| > 0
  {
    Find(p + sep, sep) == Some(|p|)
  }

  lemma CleanPartIfHeadMissing(p: string, sep: string)
    requires |sep| > 0 && sep[0] !in p
    ensures CleanPart(p, sep)
  {
    var s := p + sep;
    forall i: nat | i < |p|
      ensures !OccursAt(s, sep, i)
    {
      if i + |sep| <= |s| {
        assert s[i..i + |sep|][0] == p[i];
      }
    }
    assert s[|p|..|p| + |sep|] == sep;
    FindIs(s, sep, |p|);
  }

  /** Two-character separators whose characters differ (such as ", ") only need the part
   *  itself to be free of the separator. */
  lemma CleanPartPair(p: string, sep: string)
    requires |sep| == 2 && sep[0] != sep[1]
    requires Find(p, sep) == None
    ensures CleanPart(p, sep)
  {
    FindSpec(p, sep);
    var s := p + sep;
    forall i: nat | i < |p|
      ensures !OccursAt(s, sep, i)
    {
      if i + 2 <= |p| {
        assert !OccursAt(p, sep, i);
        assert s[i..i + 2] == p[i..i + 2];
      } else {
        assert s[i..i + 2][1] == sep[0];
      }
    }
    assert s[|p|..|p| + |sep|] == sep;
    FindIs(s, sep, |p|);
  }

  /** Occurrences that end inside `a` do not see what follows `a`. */
  lemma OccursInPrefix(a: string, b: string, pat: string, i: nat)
    requires i + |pat| <= |a|
    ensures OccursAt(a + b, pat, i) == OccursAt(a, pat, i)
  {
    assert (a + b)[i..i + |pat|] == a[i..i + |pat|];
  }

  /** An occurrence found in a prefix stays the first occurrence after extending it. */
  lemma FindExtend(a: string, b: string, pat: string, k: nat)
    requires |pat| > 0 && Find(a, pat) == Some(k)
    ensures Find(a + b, pat) == Some(k)
  {
    FindSpec(a, pat);
    OccursInPrefix(a, b, pat, k);
    forall i: nat | i < k
      ensures !OccursAt(a + b, pat, i)
    {
      OccursInPrefix(a, b, pat, i);
    }
    FindIs(a + b, pat, k);
  }

  /** Splitting a join recovers the parts when every part but the last is cut off cleanly
   *  and the last part does not contain the separator. */
  lemma {:induction false} SplitJoin(parts: seq<string>, sep: string)
    requires |sep| > 0 && |parts| >= 1
    requires forall k :: 0 <= k < |parts| - 1 ==> CleanPart(parts[k], sep)
    requires Find(parts[|parts| - 1], sep) == None
    ensures Split(Join(parts, sep), sep) == parts
    decreases |parts|
  {
    if |parts| > 1 {
      var p := parts[0];
      var rest := Join(parts[1..], sep);
      assert CleanPart(p, sep);
      FindExtend(p + sep, rest, sep, |p|);
      assert Join(parts, sep) == (p + sep) + rest;
      var s := (p + sep) + rest;
      assert s[..|p|] == p;
      assert s[|p| + |sep|..] == rest;
      SplitJoin(parts[1..], sep);
      assert parts == [p] + parts[1..];
    }
  }

  /** A string whose head part lacks the first character of `pat`, followed by fewer
   *  characters than `pat` has, cannot contain `pat`. */
  lemma FindNoneBeforeTail(p: string, x: string, pat: string)
    requires |pat| > 0 && pat[0] !in p && |x| < |pat|
    ensures Find(p + x, pat) == None
  {
    var s := p + x;
    FindSpec(s, pat);
    forall i: nat
      ensures !OccursAt(s, pat, i)
    {
      if i + |pat| <= |s| {
        assert s[i..i + |pat|][0] == s[i] == p[i];
      }
    }
  }

  /** Joining two strings creates no occurrence of `pat` when the second one starts with a
   *  character `pat` lacks and never contains the first character of `pat`. */
  lemma FindNoneAcross(a: string, b: string, pat: string)
    requires |pat| > 0 && |b| > 0 && Find(a, pat) == None
    requires b[0] !in pat && pat[0] !in b
    ensures Find(a + b, pat) == None
  {
    var s := a + b;
    FindSpec(a, pat);
    FindSpec(s, pat);
    forall i: nat
      ensures !OccursAt(s, pat, i)
    {
      if i + |pat| <= |a| {
        OccursInPrefix(a, b, pat, i);
      } else if i < |a| && i + |pat| <= |s| {
        assert s[i..i + |pat|][|a| - i] == s[|a|] == b[0];
      } else if i + |pat| <= |s| {
        assert s[i..i + |pat|][0] == s[i] == b[i - |a|];
      }
    }
  }

  /** Suffixing every part with `e` is the same as joining with `e + sep` and adding `e`. */
  lemma {:induction false} JoinSuffixed(xs: seq<string>, ys: seq<string>, e: string, sep: string)
    requires |xs| == |ys| >= 1
    requires forall i :: 0 <= i < |xs| ==> ys[i] == xs[i] + e
    ensures Join(ys, sep) == Join(xs, e + sep) + e
    decreases |xs|
  {
    if |xs| > 1 {
      JoinSuffixed(xs[1..], ys[1..], e, sep);
      assert ys[0] + sep + Join(ys[1..], sep) == xs[0] + (e + sep) + (Join(xs[1..], e + sep) + e);
    }
  }

  /** Appending to a join is appending to its last part. */
  lemma {:induction false} JoinAppendLast(xs: seq<string>, e: string, sep: string)
    requires |xs| >= 1
    ensures Join(xs, sep) + e == Join(xs[..|xs| - 1] + [xs[|xs| - 1] + e], sep)
    decreases |xs|
  {
    var ys := xs[..|xs| - 1] + [xs[|xs| - 1] + e];
    if |xs| > 1 {
      JoinAppendLast(xs[1..], e, sep);
      assert ys[0] == xs[0];
      assert ys[1..] == xs[1..][..|xs[1..]| - 1] + [xs[1..][|xs[1..]| - 1] + e];
    }
  }

  /** Removing a leading `pat` (and nothing else) when the rest does not contain it. */
  lemma ReplaceLeading(pat: string, rest: string)
    requires |pat| > 0 && Find(rest, pat) == None
    ensures Replace(pat + rest, pat, "") == rest
  {
    var s := pat + rest;
    assert s[..|pat|] == pat;
    assert Find(s, pat) == Some(0);
    assert s[|pat|..] == rest;
  }

  lemma ReplaceAtHead(s: string, pat: string, rep: string)
    requires |pat| == 1 && |s| > 0 && s[0] == pat[0]
    ensures Replace(s, pat, rep) == rep + Replace(s[1..], pat, rep)
  {
    assert s[..1] == pat;
    assert Find(s, pat) == Some(0);
  }

  lemma ReplaceSkipHead(s: string, pat: string, rep: string)
    requires |pat| == 1 && |s| > 0 && s[0] != pat[0]
    ensures Replace(s, pat, rep) == [s[0]] + Replace(s[1..], pat, rep)
  {
    assert s[..1] != pat;
    match Find(s[1..], pat)
    case None =>
      assert Find(s, pat) == None;
    case Some(i) =>
      assert Find(s, pat) == Some(i + 1);
      assert s[..i + 1] == [s[0]] + s[1..][..i];
      assert s[i + 2..] == s[1..][i + 1..];
  }

  /** Replacing a single character, seen one character at a time. */
  lemma ReplaceCharHead(s: string, pat: string, rep: string)
    requires |pat| == 1 && |s| > 0
    ensures Replace(s, pat, rep)
         == (if s[0] == pat[0] then rep else [s[0]]) + Replace(s[1..], pat, rep)
  {
    if s[0] == pat[0] {
      ReplaceAtHead(s, pat, rep);
    } else {
      ReplaceSkipHead(s, pat, rep);
    }
  }

  /** Replacing every `c` by `rep`, one character at a time. */
  function ReplaceChar(s: string, c: char, rep: string): string
  {
    if |s| == 0 then "" else (if s[0] == c then rep else [s[0]]) + ReplaceChar(s[1..], c, rep)
  }

  /** For a one-character pattern, Python's replace is the character-wise replacement. */
  lemma {:induction false} ReplaceIsReplaceChar(s: string, pat: string, rep: string)
    requires |pat| == 1
    ensures Replace(s, pat, rep) == ReplaceChar(s, pat[0], rep)
    decreases |s|
  {
    if |s| == 0 {
      assert Find(s, pat) == None;
    } else {
      ReplaceCharHead(s, pat, rep);
      ReplaceIsReplaceChar(s[1..], pat, rep);
    }
  }

  lemma {:induction false} ReplaceCharConcat(a: string, b: string, c: char, rep: string)
    ensures ReplaceChar(a + b, c, rep) == ReplaceChar(a, c, rep) + ReplaceChar(b, c, rep)
    decreases |a|
  {
    if |a| == 0 {
      assert a + b == b;
    } else {
      assert (a + b)[0] == a[0];
      assert (a + b)[1..] == a[1..] + b;
      ReplaceCharConcat(a[1..], b, c, rep);
    }
  }

  /** Character replacement that leaves the separator alone works part by part. */
  lemma {:induction false} ReplaceCharJoin(ps: seq<string>, qs: seq<string>, sep: string, c: char, rep: string)
    requires |ps| == |qs|
    requires forall i :: 0 <= i < |ps| ==> ReplaceChar(ps[i], c, rep) == qs[i]
    requires ReplaceChar(sep, c, rep) == sep
    ensures ReplaceChar(Join(ps, sep), c, rep) == Join(qs, sep)
    decreases |ps|
  {
    if |ps| == 0 {
    } else if |ps| == 1 {
    } else {
      ReplaceCharJoin(ps[1..], qs[1..], sep, c, rep);
      ReplaceCharConcat(ps[0], sep, c, rep);
      ReplaceCharConcat(ps[0] + sep, Join(ps[1..], sep), c, rep);
    }
  }

  lemma {:induction false} ReplaceCharAbsent(s: string, c: char, rep: string)
    requires c !in s
    ensures ReplaceChar(s, c, rep) == s
    decreases |s|
  {
    if |s| > 0 {
      ReplaceCharAbsent(s[1..], c, rep);
    }
  }

  // ---------------------------------------------------------------------------
  // Integers: `str(n)` and `int(s)`.

  predicate IsDigit(c: char) { '0' <= c <= '9' }

  predicate AllDigits(s: string) { forall i :: 0 <= i < |s| ==> IsDigit(s[i]) }

  function DigitChar(d: nat): (c: char)
    requires d < 10
    ensures IsDigit(c)
  {
    ('0' as int + d) as char
  }

  function DigitValue(c: char): (d: nat)
    requires IsDigit(c)
    ensures d < 10 && DigitChar(d) == c
  {
    c as int - '0' as int
  }

  /** Decimal digits of a natural number, most significant first, without leading zeros. */
  function NatText(n: nat): (s: string)
    ensures |s| >= 1 && AllDigits(s)
  {
    if n < 10 then [DigitChar(n)] else NatText(n / 10) + [DigitChar(n % 10)]
  }

  /** Value of a string of decimal digits. */
  function DigitsValue(s: string): nat
    requires AllDigits(s)
  {
    if |s| == 0 then 0 else 10 * DigitsValue(s[..|s| - 1]) + DigitValue(s[|s| - 1])
  }

  lemma {:induction false} NatTextValue(n: nat)
    ensures DigitsValue(NatText(n)) == n
  {
    if n >= 10 {
      NatTextValue(n / 10);
      var s := NatText(n);
      assert s[..|s| - 1] == NatText(n / 10);
    }
  }

  /** Python's `str(n)` for an int. */
  function IntText(n: int): (s: string)
    ensures |s| >= 1
  {
    if n < 0 then "-" + NatText(-n) else NatText(n)
  }

  /** Python's `int(s)` restricted to an optional minus sign followed by at least one digit. */
  function ParseInt(s: string): Option<int>
  {
    if |s| >= 2 && s[0] == '-' && AllDigits(s[1..]) then Some(-(DigitsValue(s[1..]) as int))
    else if |s| >= 1 && AllDigits(s) then Some(DigitsValue(s))
    else None
  }

  lemma IntTextRoundTrip(n: int)
    ensures ParseInt(IntText(n)) == Some(n)
  {
    var s := IntText(n);
    if n < 0 {
      var t := NatText(-n);
      assert s == "-" + t && s[1..] == t;
      NatTextValue(-n);
    } else {
      assert IsDigit(s[0]);
      NatTextValue(n);
    }
  }

  const Digits: set<char> := {'0', '1', '2', '3', '4', '5', '6', '7', '8', '9'}

  /** Characters that can appear in `str(n)`. */
  const Numeral: set<char> := {'0', '1', '2', '3', '4', '5', '6', '7', '8', '9', '-'}

  lemma DigitsWithin(s: string, alphabet: set<char>)
    requires AllDigits(s) && Digits <= alphabet
    ensures Within(s, alphabet)
  {
    forall i | 0 <= i < |s| ensures s[i] in alphabet {
      var c := s[i];
      assert '0' <= c <= '9';
      assert c in Digits;
    }
  }

  lemma IntTextWithin(n: int, alphabet: set<char>)
    requires Numeral <= alphabet
    ensures Within(IntText(n), alphabet)
  {
    if n < 0 {
      DigitsWithin(NatText(-n), alphabet);
      SingleWithin('-', alphabet);
      WithinConcat("-", NatText(-n), alphabet);
    } else {
      DigitsWithin(NatText(n), alphabet);
    }
  }

  // ---------------------------------------------------------------------------
  // Floats: `repr(x)` and `float(s)`, positional notation.

  /** Every binary64 value has fewer fraction digits than this in its exact decimal
   *  expansion, so the rendering below never truncates one. */
  const MaxFractionDigits: nat := 1100

  function Pow10(k: nat): (p: nat)
    ensures p >= 1
  {
    if k == 0 then 1 else 10 * Pow10(k - 1)
  }

  /** `v` is the decimal `n` * 10^-k, so it has at most `k` decimal places. */
  predicate IsDecimal(v: real, n: int, k: nat)
  {
    v * Pow10(k) as real == n as real
  }

  /** Fraction digits of `f` in [0, 1), most significant first, stopping once nothing is
   *  left (so there are no trailing zeros) or after `fuel` digits. */
  function FractionDigits(f: real, fuel: nat): (s: string)
    requires 0.0 <= f < 1.0
    ensures AllDigits(s)
    decreases fuel
  {
    if f == 0.0 || fuel == 0 then ""
    else
      var d := (f * 10.0).Floor;
      [DigitChar(d)] + FractionDigits(f * 10.0 - d as real, fuel - 1)
  }

  /** Value of the digits after a decimal point. */
  function FractionValue(s: string): real
    requires AllDigits(s)
  {
    if |s| == 0 then 0.0 else (DigitValue(s[0]) as real + FractionValue(s[1..])) / 10.0
  }

  /** The digits after the point: at least one. */
  function FractionText(f: real): (s: string)
    requires 0.0 <= f < 1.0
    ensures |s| >= 1 && AllDigits(s)
  {
    var ds := FractionDigits(f, MaxFractionDigits);
    if ds == "" then "0" else ds
  }

  function UnsignedText(v: real): string
    requires v >= 0.0
  {
    NatText(v.Floor) + "." + FractionText(v - v.Floor as real)
  }

  /** Python's `repr` of a float in positional notation: the shortest decimal, with at least
   *  one fraction digit ("2.0", "-0.25"). */
  function RealText(v: real): (s: string)
    ensures |s| >= 1
  {
    if v < 0.0 then "-" + UnsignedText(-v) else UnsignedText(v)
  }

  /** The number written as digits `whole`, a point, and digits `fraction`. */
  function ParsePoint(whole: string, fraction: string): Option<real>
  {
    if |whole| >= 1 && |fraction| >= 1 && AllDigits(whole) && AllDigits(fraction)
    then Some(DigitsValue(whole) as real + FractionValue(fraction))
    else None
  }

  function ParseUnsigned(s: string): Option<real>
  {
    match Find(s, ".")
    case None => None
    case Some(i) => ParsePoint(s[..i], s[i + 1..])
  }

  /** Python's `float(s)` restricted to an optional minus sign, digits, a point and digits. */
  function ParseReal(s: string): Option<real>
  {
    if |s| >= 1 && s[0] == '-' then
      match ParseUnsigned(s[1..])
      case None => None
      case Some(v) => Some(-v)
    else ParseUnsigned(s)
  }

  lemma PlacesOfFraction(f: real, n: int, k: nat)
    requires 0.0 < f < 1.0 && IsDecimal(f, n, k)
    ensures k >= 1
  {
    assert Pow10(0) == 1;
  }

  /** One step of the digit expansion keeps a finite decimal finite, with one place fewer. */
  lemma FractionStep(f: real, n: int, k: nat)
    requires 0.0 < f < 1.0 && IsDecimal(f, n, k)
    ensures k >= 1
    ensures 0 <= (f * 10.0).Floor < 10
    ensures 0.0 <= f * 10.0 - (f * 10.0).Floor as real < 1.0
    ensures IsDecimal(f * 10.0 - (f * 10.0).Floor as real,
                      n - (f * 10.0).Floor * Pow10(k - 1), k - 1)
  {
    PlacesOfFraction(f, n, k);
    var d := (f * 10.0).Floor;
    var g := f * 10.0 - d as real;
    var q := Pow10(k - 1);
    var p := q as real;
    assert Pow10(k) == 10 * q;
    assert f * (10.0 * p) == n as real;
    assert g * p == f * (10.0 * p) - d as real * p;
    assert g * p == (n - d * q) as real;
  }

  lemma {:induction false} FractionDigitsValue(f: real, n: int, k: nat, fuel: nat)
    requires 0.0 <= f < 1.0 && k <= fuel && IsDecimal(f, n, k)
    ensures FractionValue(FractionDigits(f, fuel)) == f
    ensures FractionDigits(f, fuel) == "" <==> f == 0.0
    decreases fuel
  {
    if f != 0.0 {
      FractionStep(f, n, k);
      var d := (f * 10.0).Floor;
      var g := f * 10.0 - d as real;
      FractionDigitsValue(g, n - d * Pow10(k - 1), k - 1, fuel - 1);
      var s := FractionDigits(f, fuel);
      assert s == [DigitChar(d)] + FractionDigits(g, fuel - 1);
      assert s[1..] == FractionDigits(g, fuel - 1);
      assert DigitValue(s[0]) == d;
    }
  }

  lemma DecimalShift(v: real, n: int, k: nat, m: int)
    requires IsDecimal(v, n, k)
    ensures IsDecimal(v - m as real, n - m * Pow10(k), k)
    ensures IsDecimal(-v, -n, k)
  {
    var q := Pow10(k);
    var p := q as real;
    assert (v - m as real) * p == v * p - m as real * p;
  }

  lemma ParseUnsignedParts(whole: string, fraction: string)
    requires AllDigits(whole)
    ensures ParseUnsigned(whole + "." + fraction) == ParsePoint(whole, fraction)
  {
    var s := whole + "." + fraction;
    assert '.' !in whole by { assert !IsDigit('.'); }
    CleanPartIfHeadMissing(whole, ".");
    FindExtend(whole + ".", fraction, ".", |whole|);
    assert s[..|whole|] == whole;
    assert s[|whole| + 1..] == fraction;
  }

  lemma FractionTextValue(f: real, n: int, k: nat)
    requires 0.0 <= f < 1.0 && k <= MaxFractionDigits && IsDecimal(f, n, k)
    ensures FractionValue(FractionText(f)) == f
  {
    FractionDigitsValue(f, n, k, MaxFractionDigits);
    if FractionDigits(f, MaxFractionDigits) == "" {
      assert FractionText(f)[1..] == "";
    }
  }

  lemma UnsignedTextRoundTrip(v: real, n: int, k: nat)
    requires v >= 0.0 && k <= MaxFractionDigits && IsDecimal(v, n, k)
    ensures ParseUnsigned(UnsignedText(v)) == Some(v)
    ensures UnsignedText(v)[0] != '-'
  {
    var w := v.Floor;
    DecimalShift(v, n, k, w);
    FractionTextValue(v - w as real, n - w * Pow10(k), k);
    ParseUnsignedParts(NatText(w), FractionText(v - w as real));
    NatTextValue(w);
  }

  /** A float that is the decimal `n` * 10^-k reads back as itself. */
  lemma RealTextRoundTrip(v: real, n: int, k: nat)
    requires k <= MaxFractionDigits && IsDecimal(v, n, k)
    ensures ParseReal(RealText(v)) == Some(v)
  {
    if v < 0.0 {
      DecimalShift(v, n, k, 0);
      UnsignedTextRoundTrip(-v, -n, k);
      var s := RealText(v);
      assert s[1..] == UnsignedText(-v);
    } else {
      UnsignedTextRoundTrip(v, n, k);
    }
  }

  /** Characters that can appear in the rendering of a float. */
  const Decimal: set<char> := {'0', '1', '2', '3', '4', '5', '6', '7', '8', '9', '-', '.'}

  lemma UnsignedTextWithinDecimal(u: real)
    requires u >= 0.0
    ensures Within(UnsignedText(u), Decimal)
  {
    var whole, tail := NatText(u.Floor), FractionText(u - u.Floor as real);
    DigitsWithin(whole, Decimal);
    DigitsWithin(tail, Decimal);
    SingleWithin('.', Decimal);
    WithinConcat(whole, ".", Decimal);
    WithinConcat(whole + ".", tail, Decimal);
  }

  lemma RealTextWithinDecimal(v: real)
    ensures Within(RealText(v), Decimal)
  {
    if v < 0.0 {
      UnsignedTextWithinDecimal(-v);
      SingleWithin('-', Decimal);
      WithinConcat("-", UnsignedText(-v), Decimal);
    } else {
      UnsignedTextWithinDecimal(v);
    }
  }
}
