/** String operations with the exact semantics of the Python built-ins the
    scraper calls: `unicode.strip`, `str.replace`, `str.split`, `str.lower`,
    `str.upper`, `int()` and decimal formatting, and the character classes
    of Python 2 regular expressions compiled without `re.UNICODE`. */
module Text {
  import opened Py

  // ------------------------------------------------------------------
  // Character classes
  // ------------------------------------------------------------------

  /** Whitespace as Python 2's `unicode.isspace` sees it (Unicode 5.2):
      what `strip()` removes and what `int()` skips. */
  predicate IsSpace(c: char) {
    || c == ' '
    || ('\t' <= c <= '\r')
    || ('\U{1c}' <= c <= '\U{1f}')
    || c == '\U{85}' || c == '\U{a0}' || c == '\U{1680}' || c == '\U{180e}'
    || ('\U{2000}' <= c <= '\U{200a}')
    || c == '\U{2028}' || c == '\U{2029}' || c == '\U{202f}' || c == '\U{205f}' || c == '\U{3000}'
  }

  /** `\s` in a Python 2 regular expression without `re.UNICODE`. */
  predicate IsRegexSpace(c: char) {
    c == ' ' || ('\t' <= c <= '\r')
  }

  /** `\d` in a Python 2 regular expression without `re.UNICODE`. */
  predicate IsDigit(c: char) {
    '0' <= c <= '9'
  }

  predicate AllDigits(s: string) {
    forall k :: 0 <= k < |s| ==> IsDigit(s[k])
  }

  /** Every character is below U+0080, so the ASCII codec encodes it. */
  predicate Ascii(s: string) {
    forall k :: 0 <= k < |s| ==> s[k] < '\U{80}'
  }

  /** Concatenation is associative; stated once so that long proofs can
      regroup a log without unfolding it. */
  lemma AppendAssoc<T>(a: seq<T>, b: seq<T>, c: seq<T>)
    ensures (a + b) + c == a + (b + c)
  {
  }

  /** A slice of a slice is a slice of the whole. */
  lemma SliceOfSlice<T>(s: seq<T>, a: nat, b: nat, c: nat, d: nat)
    requires a <= b <= |s| && c <= d <= b - a
    ensures s[a..b][c..d] == s[a + c..a + d]
  {
    var x := s[a..b][c..d];
    var y := s[a + c..a + d];
    forall k | 0 <= k < |x| ensures x[k] == y[k] {
      assert x[k] == s[a + c + k];
    }
  }

  // ------------------------------------------------------------------
  // Prefixes and substrings
  // ------------------------------------------------------------------

  predicate StartsWith(s: string, p: string) {
    |p| <= |s| && s[..|p|] == p
  }

  /** Python's `p in s` for strings. */
  predicate Contains(s: string, p: string) {
    exists i :: 0 <= i <= |s| - |p| && StartsWith(s[i..], p)
  }

  /** A substring of a slice is a substring of the whole string. */
  lemma ContainsOfSlice(s: string, a: nat, b: nat, p: string)
    requires a <= b <= |s|
    requires Contains(s[a..b], p)
    ensures Contains(s, p)
  {
    var i :| 0 <= i <= |s[a..b]| - |p| && StartsWith(s[a..b][i..], p);
    assert s[a + i..][..|p|] == s[a..b][i..][..|p|];
    assert StartsWith(s[a + i..], p);
  }

  /** A string that starts with `p` contains `p`. */
  lemma ContainsOfPrefix(s: string, p: string)
    requires StartsWith(s, p)
    ensures Contains(s, p)
  {
    assert s[0..] == s;
  }

  /** An occurrence in the tail of `s` is an occurrence in `s`. */
  lemma ContainsOfTail(s: string, p: string)
    requires |s| > 0 && Contains(s[1..], p)
    ensures Contains(s, p)
  {
    assert s[1..|s|] == s[1..];
    ContainsOfSlice(s, 1, |s|, p);
  }

  /** An occurrence in `s` is at its head or in its tail. */
  lemma ContainsSplit(s: string, p: string)
    requires Contains(s, p)
    ensures StartsWith(s, p) || (|s| > 0 && Contains(s[1..], p))
  {
    var i :| 0 <= i <= |s| - |p| && StartsWith(s[i..], p);
    if i > 0 {
      assert s[1..][i - 1..] == s[i..];
    }
  }

  // ------------------------------------------------------------------
  // str.replace
  // ------------------------------------------------------------------

  /** `s.replace(pat, rep)`: every occurrence of `pat`, scanning left to
      right and without overlap, is replaced by `rep`. */
  function ReplaceAll(s: string, pat: string, rep: string): (r: string)
    requires |pat| > 0
    decreases |s|
  {
    if |s| < |pat| then s
    else if StartsWith(s, pat) then rep + ReplaceAll(s[|pat|..], pat, rep)
    else [s[0]] + ReplaceAll(s[1..], pat, rep)
  }

  /** Replacing a pattern that does not occur changes nothing. */
  lemma {:induction false} ReplaceAllAbsent(s: string, pat: string, rep: string)
    requires |pat| > 0 && !Contains(s, pat)
    ensures ReplaceAll(s, pat, rep) == s
    decreases |s|
  {
    if |s| >= |pat| {
      if StartsWith(s, pat) {
        ContainsOfPrefix(s, pat);
      }
      if Contains(s[1..], pat) {
        ContainsOfTail(s, pat);
      }
      ReplaceAllAbsent(s[1..], pat, rep);
    }
  }

  /** When the replacement is one character `sp`, a prefix `w` of the result
      that does not mention `sp` was already a prefix of the input. */
  lemma {:induction false} ReplacedPrefix(u: string, pat: string, sp: char, w: string)
    requires |pat| > 0 && sp !in w
    requires StartsWith(ReplaceAll(u, pat, [sp]), w)
    ensures StartsWith(u, w)
    decreases |u|
  {
    if |w| > 0 && |u| >= |pat| {
      if StartsWith(u, pat) {
        ReplaceAllHead(u, pat, sp);
        assert false;
      } else {
        var r := ReplaceAll(u, pat, [sp]);
        var r' := ReplaceAll(u[1..], pat, [sp]);
        assert r == [u[0]] + r';
        assert r[1..] == r';
        assert r'[..|w| - 1] == r[..|w|][1..] == w[1..];
        assert StartsWith(r', w[1..]);
        ReplacedPrefix(u[1..], pat, sp, w[1..]);
      }
    }
  }

  lemma ReplaceAllHead(u: string, pat: string, sp: char)
    requires |pat| > 0 && |u| >= |pat| && StartsWith(u, pat)
    ensures ReplaceAll(u, pat, [sp])[0] == sp
  {
  }

  /** When the replacement is one character that does not occur in the
      pattern, the pattern never occurs in the result. */
  lemma {:induction false} ReplaceAllRemoves(s: string, pat: string, sp: char)
    requires |pat| > 0 && sp !in pat
    ensures !Contains(ReplaceAll(s, pat, [sp]), pat)
    decreases |s|
  {
    var r := ReplaceAll(s, pat, [sp]);
    if |s| < |pat| {
      return;
    }
    if Contains(r, pat) {
      ContainsSplit(r, pat);
      if StartsWith(s, pat) {
        var rest := ReplaceAll(s[|pat|..], pat, [sp]);
        assert r == [sp] + rest;
        if StartsWith(r, pat) {
          assert false;
        }
        assert r[1..] == rest;
        ReplaceAllRemoves(s[|pat|..], pat, sp);
      } else {
        var rest := ReplaceAll(s[1..], pat, [sp]);
        assert r == [s[0]] + rest;
        if StartsWith(r, pat) {
          ReplacedPrefix(s, pat, sp, pat);
          assert false;
        }
        assert r[1..] == rest;
        ReplaceAllRemoves(s[1..], pat, sp);
      }
    }
  }

  /** A prefix that never holds the pattern's first character is copied
      unchanged, and the scan resumes on what follows it. */
  lemma {:induction false} ReplaceAllOfPlain(a: string, t: string, pat: string, rep: string)
    requires |pat| > 0 && pat[0] !in a
    ensures ReplaceAll(a + t, pat, rep) == a + ReplaceAll(t, pat, rep)
    decreases |a|
  {
    if |a| > 0 {
      var s := a + t;
      assert s[0] == a[0];
      assert s[1..] == a[1..] + t;
      ReplaceAllOfPlain(a[1..], t, pat, rep);
      if |s| < |pat| {
        assert |t| < |pat|;
      } else {
        assert !StartsWith(s, pat);
      }
      assert [a[0]] + a[1..] == a;
    } else {
      assert a + t == t;
    }
  }

  /** An occurrence at the head is replaced, and the scan resumes after it. */
  lemma ReplaceAllOfPattern(t: string, pat: string, rep: string)
    requires |pat| > 0
    ensures ReplaceAll(pat + t, pat, rep) == rep + ReplaceAll(t, pat, rep)
  {
    var s := pat + t;
    assert s[..|pat|] == pat;
    assert s[|pat|..] == t;
  }

  /** `sep.join(xs)` for a separator string. */
  function JoinWith(xs: seq<string>, sep: string): string
    requires |xs| >= 1
    decreases |xs|
  {
    if |xs| == 1 then xs[0] else xs[0] + sep + JoinWith(xs[1..], sep)
  }

  /** Replacing a separator in a join of pieces that never hold its first
      character swaps the separator and nothing else. */
  lemma {:induction false} ReplaceAllJoin(xs: seq<string>, pat: string, rep: string)
    requires |xs| >= 1 && |pat| > 0
    requires forall k :: 0 <= k < |xs| ==> pat[0] !in xs[k]
    ensures ReplaceAll(JoinWith(xs, pat), pat, rep) == JoinWith(xs, rep)
    decreases |xs|
  {
    if |xs| == 1 {
      ReplaceAllOfPlain(xs[0], "", pat, rep);
      assert xs[0] + "" == xs[0];
    } else {
      var rest := JoinWith(xs[1..], pat);
      assert JoinWith(xs, pat) == xs[0] + (pat + rest);
      ReplaceAllOfPlain(xs[0], pat + rest, pat, rep);
      ReplaceAllOfPattern(rest, pat, rep);
      ReplaceAllJoin(xs[1..], pat, rep);
      assert JoinWith(xs, rep) == xs[0] + (rep + JoinWith(xs[1..], rep));
    }
  }

  // ------------------------------------------------------------------
  // str.strip
  // ------------------------------------------------------------------

  /** Number of leading whitespace characters. */
  function LeadingSpaces(s: string): (n: nat)
    ensures n <= |s|
    ensures forall k :: 0 <= k < n ==> IsSpace(s[k])
    ensures n == |s| || !IsSpace(s[n])
    decreases |s|
  {
    if |s| > 0 && IsSpace(s[0]) then 1 + LeadingSpaces(s[1..]) else 0
  }

  /** Number of trailing whitespace characters. */
  function TrailingSpaces(s: string): (n: nat)
    ensures n <= |s|
    ensures forall k :: |s| - n <= k < |s| ==> IsSpace(s[k])
    ensures n == |s| || !IsSpace(s[|s| - n - 1])
    decreases |s|
  {
    if |s| > 0 && IsSpace(s[|s| - 1]) then 1 + TrailingSpaces(s[..|s| - 1]) else 0
  }

  /** No whitespace at either end. */
  predicate Trimmed(s: string) {
    |s| == 0 || (!IsSpace(s[0]) && !IsSpace(s[|s| - 1]))
  }

  /** `s.lstrip()`. */
  function StripLeft(s: string): (r: string)
    ensures |r| <= |s|
    ensures |r| == 0 || !IsSpace(r[0])
    ensures |s| == 0 || !IsSpace(s[0]) ==> r == s
    decreases |s|
  {
    if |s| > 0 && IsSpace(s[0]) then StripLeft(s[1..]) else s
  }

  /** `s.rstrip()`. */
  function StripRight(s: string): (r: string)
    ensures |r| <= |s|
    ensures |r| == 0 || !IsSpace(r[|r| - 1])
    ensures |r| > 0 ==> r[0] == s[0]
    ensures |s| == 0 || !IsSpace(s[|s| - 1]) ==> r == s
    decreases |s|
  {
    if |s| > 0 && IsSpace(s[|s| - 1]) then StripRight(s[..|s| - 1]) else s
  }

  /** `s.strip()`: surrounding whitespace removed. Where the result sits
      in `s` is stated by `StripSlice`. */
  function Strip(s: string): (r: string)
    ensures Trimmed(r)
    ensures |r| <= |s|
    ensures Trimmed(s) ==> r == s
  {
    StripRight(StripLeft(s))
  }

  lemma {:induction false} StripLeftSlice(s: string)
    ensures StripLeft(s) == s[LeadingSpaces(s)..]
    decreases |s|
  {
    if |s| > 0 && IsSpace(s[0]) {
      StripLeftSlice(s[1..]);
      assert s[1..][LeadingSpaces(s[1..])..] == s[LeadingSpaces(s)..];
    }
  }

  lemma {:induction false} StripRightSlice(s: string)
    ensures |StripRight(s)| + TrailingSpaces(s) == |s|
    ensures StripRight(s) == s[..|StripRight(s)|]
    decreases |s|
  {
    if |s| > 0 && IsSpace(s[|s| - 1]) {
      StripRightSlice(s[..|s| - 1]);
      assert s[..|s| - 1][..|StripRight(s)|] == s[..|StripRight(s)|];
    }
  }

  /** The stripped string is the slice of `s` that starts after its leading
      whitespace. */
  lemma StripSlice(s: string)
    ensures LeadingSpaces(s) + |Strip(s)| <= |s|
    ensures Strip(s) == s[LeadingSpaces(s)..LeadingSpaces(s) + |Strip(s)|]
  {
    var a := LeadingSpaces(s);
    var t := StripLeft(s);
    StripLeftSlice(s);
    StripRightSlice(t);
    var r := Strip(s);
    assert r == t[..|r|];
    assert t[..|r|] == s[a..a + |r|];
  }

  /** Only whitespace follows the stripped slice. */
  lemma StripTrailing(s: string)
    ensures forall k :: LeadingSpaces(s) + |Strip(s)| <= k < |s| ==> IsSpace(s[k])
  {
    var a := LeadingSpaces(s);
    var t := StripLeft(s);
    StripLeftSlice(s);
    StripRightSlice(t);
    var r := Strip(s);
    var n := TrailingSpaces(t);
    assert t == s[a..] && |r| + n == |t|;
    SpacesAfter(s, a, |r|);
  }

  /** Whitespace after position m of the tail from a is whitespace after
      position a + m of the whole string. */
  lemma SpacesAfter(s: string, a: nat, m: nat)
    requires a + m <= |s|
    requires forall j :: m <= j < |s| - a ==> IsSpace(s[a..][j])
    ensures forall k :: a + m <= k < |s| ==> IsSpace(s[k])
  {
    forall k | a + m <= k < |s|
      ensures IsSpace(s[k])
    {
      assert s[k] == s[a..][k - a];
    }
  }

  /** Stripping twice is stripping once. */
  lemma StripIdempotent(s: string)
    ensures Strip(Strip(s)) == Strip(s)
  {
  }

  /** Stripping keeps a string free of a pattern it was free of. */
  lemma StripKeepsAbsent(s: string, p: string)
    requires !Contains(s, p)
    ensures !Contains(Strip(s), p)
  {
    var r := Strip(s);
    var a := LeadingSpaces(s);
    StripSlice(s);
    if Contains(r, p) {
      ContainsOfSlice(s, a, a + |r|, p);
    }
  }

  // ------------------------------------------------------------------
  // Case mapping (ASCII letters only)
  // ------------------------------------------------------------------

  function LowerChar(c: char): char {
    if 'A' <= c <= 'Z' then (c as int + 32) as char else c
  }

  function UpperChar(c: char): char {
    if 'a' <= c <= 'z' then (c as int - 32) as char else c
  }

  function Lower(s: string): (r: string)
    ensures |r| == |s|
    ensures forall k :: 0 <= k < |s| ==> r[k] == LowerChar(s[k])
  {
    seq(|s|, k requires 0 <= k < |s| => LowerChar(s[k]))
  }

  function Upper(s: string): (r: string)
    ensures |r| == |s|
    ensures forall k :: 0 <= k < |s| ==> r[k] == UpperChar(s[k])
  {
    seq(|s|, k requires 0 <= k < |s| => UpperChar(s[k]))
  }

  // ------------------------------------------------------------------
  // Decimal numbers: str(n), "{:d}" and int(s)
  // ------------------------------------------------------------------

  function DigitChar(d: nat): (c: char)
    requires d < 10
    ensures IsDigit(c) && c as int - '0' as int == d
  {
    ('0' as int + d) as char
  }

  /** Decimal digits of `n`, without leading zeros. */
  function NatToString(n: nat): (r: string)
    ensures |r| >= 1 && AllDigits(r)
    ensures |r| > 1 ==> r[0] != '0'
    decreases n
  {
    if n < 10 then [DigitChar(n)] else NatToString(n / 10) + [DigitChar(n % 10)]
  }

  /** `str(i)` / `"{0}".format(i)` for an integer. */
  function IntToString(i: int): string {
    if i < 0 then "-" + NatToString(-i) else NatToString(i)
  }

  /** The value of a run of decimal digits. */
  function DigitsValue(s: string): nat
    requires AllDigits(s)
    decreases |s|
  {
    if |s| == 0 then 0 else 10 * DigitsValue(s[..|s| - 1]) + (s[|s| - 1] as int - '0' as int)
  }

  lemma {:induction false} DigitsValueOfNatToString(n: nat)
    ensures DigitsValue(NatToString(n)) == n
    decreases n
  {
    if n >= 10 {
      var r := NatToString(n);
      assert r[..|r| - 1] == NatToString(n / 10);
      DigitsValueOfNatToString(n / 10);
    }
  }

  /** `int(s)` on a string under Python 2: surrounding whitespace, an
      optional sign and whitespace after the sign are accepted; anything
      else that is not a non-empty run of digits raises ValueError. */
  function ParseInt(s: string): Option<int>
  {
    ParseStripped(Strip(s))
  }

  /** `int()` once surrounding whitespace is gone. */
  function ParseStripped(t: string): Option<int>
  {
    if |t| > 0 && (t[0] == '-' || t[0] == '+') then
      var d := t[1..][LeadingSpaces(t[1..])..];
      if |d| > 0 && AllDigits(d) then
        Some(if t[0] == '-' then -(DigitsValue(d) as int) else DigitsValue(d))
      else None
    else if |t| > 0 && AllDigits(t) then Some(DigitsValue(t))
    else None
  }

  /** `int(str(i)) == i`. */
  lemma ParseIntOfIntToString(i: int)
    ensures ParseInt(IntToString(i)) == Some(i)
  {
    var n: nat := if i < 0 then -i else i;
    DigitsValueOfNatToString(n);
    var d := NatToString(n);
    if i < 0 {
      ParseIntNegative(d);
    } else {
      ParseIntDigits(d);
    }
  }

  lemma ParseIntDigits(d: string)
    requires |d| > 0 && AllDigits(d)
    ensures ParseInt(d) == Some(DigitsValue(d))
  {
    assert IsDigit(d[0]) && IsDigit(d[|d| - 1]);
    assert Trimmed(d);
    assert d[0] != '-' && d[0] != '+';
    assert ParseStripped(d) == Some(DigitsValue(d));
  }

  lemma ParseIntNegative(d: string)
    requires |d| > 0 && AllDigits(d)
    ensures ParseInt("-" + d) == Some(-(DigitsValue(d) as int))
  {
    var s := "-" + d;
    assert s[|s| - 1] == d[|d| - 1];
    assert Trimmed(s);
    assert s[1..] == d;
    assert LeadingSpaces(d) == 0;
    assert d[0..] == d;
    assert ParseStripped(s) == Some(-(DigitsValue(d) as int));
  }

  /** Decimal formatting is injective. */
  lemma IntToStringInjective(i: int, j: int)
    requires IntToString(i) == IntToString(j)
    ensures i == j
  {
    ParseIntOfIntToString(i);
    ParseIntOfIntToString(j);
  }

  // ------------------------------------------------------------------
  // str.split and re.sub(r'\s+', ' ', s)
  // ------------------------------------------------------------------

  /** `s.split(sep)` for a one-character separator: always at least one
      piece, and no piece contains the separator. */
  function Split(s: string, sep: char): (r: seq<string>)
    ensures |r| >= 1
    ensures forall k :: 0 <= k < |r| ==> sep !in r[k]
    decreases |s|
  {
    if |s| == 0 then [""]
    else
      var rest := Split(s[1..], sep);
      if s[0] == sep then [""] + rest
      else [[s[0]] + rest[0]] + rest[1..]
  }

  /** `sep.join(xs)`. */
  function Join(xs: seq<string>, sep: char): string
    requires |xs| >= 1
    decreases |xs|
  {
    if |xs| == 1 then xs[0] else xs[0] + [sep] + Join(xs[1..], sep)
  }

  lemma {:induction false} SplitOfPiece(x: string, sep: char)
    requires sep !in x
    ensures Split(x, sep) == [x]
    decreases |x|
  {
    if |x| > 0 {
      SplitOfPiece(x[1..], sep);
      assert [x[0]] + x[1..] == x;
    }
  }

  lemma {:induction false} SplitOfPieceThenSep(x: string, sep: char, rest: string)
    requires sep !in x
    ensures Split(x + [sep] + rest, sep) == [x] + Split(rest, sep)
    decreases |x|
  {
    var s := x + [sep] + rest;
    if |x| == 0 {
      assert s[1..] == rest;
    } else {
      assert s[1..] == x[1..] + [sep] + rest;
      SplitOfPieceThenSep(x[1..], sep, rest);
      assert [x[0]] + x[1..] == x;
    }
  }

  /** Splitting a join of separator-free pieces gives the pieces back. */
  lemma {:induction false} SplitJoin(xs: seq<string>, sep: char)
    requires |xs| >= 1
    requires forall k :: 0 <= k < |xs| ==> sep !in xs[k]
    ensures Split(Join(xs, sep), sep) == xs
    decreases |xs|
  {
    if |xs| == 1 {
      SplitOfPiece(xs[0], sep);
    } else {
      SplitOfPieceThenSep(xs[0], sep, Join(xs[1..], sep));
      SplitJoin(xs[1..], sep);
    }
  }

  function DropRegexSpaces(s: string): (r: string)
    ensures |r| <= |s|
    decreases |s|
  {
    if |s| > 0 && IsRegexSpace(s[0]) then DropRegexSpaces(s[1..]) else s
  }

  /** `re.sub(r'\s+', ' ', s)`: each maximal run of regex whitespace becomes
      one space. */
  function CollapseSpaces(s: string): (r: string)
    ensures |r| <= |s|
    ensures (forall k :: 0 <= k < |s| ==> !IsRegexSpace(s[k])) ==> r == s
    ensures forall k :: 0 <= k < |r| && IsRegexSpace(r[k]) ==> r[k] == ' '
    decreases |s|
  {
    if |s| == 0 then ""
    else if IsRegexSpace(s[0]) then " " + CollapseSpaces(DropRegexSpaces(s[1..]))
    else [s[0]] + CollapseSpaces(s[1..])
  }

  // ------------------------------------------------------------------
  // "{0}".format(v)
  // ------------------------------------------------------------------

  /** How `"{0}".format(v)` renders a slot value: `None` prints as "None". */
  function FormatValue(v: Value): string {
    match v
    case PyNone => "None"
    case PyStr(s) => s
    case PyInt(i) => IntToString(i)
  }
}
