/** String operations with the meaning Python gives them: substring search,
    `str.split(sep)`, `sep.join(parts)`, `str.rstrip(chars)`, `str.strip(chars)`,
    ASCII lower-casing, and decimal rendering and parsing of integers. */
module Text {
  import opened Types

  /** `sub` occurs in `s` starting at index `i`. */
  predicate OccursAt(s: string, sub: string, i: int) {
    0 <= i && i + |sub| <= |s| && s[i..i + |sub|] == sub
  }

  /** Python's `sub in s`. */
  predicate Contains(s: string, sub: string) {
    exists i | 0 <= i <= |s| :: OccursAt(s, sub, i)
  }

  /** The first occurrence of `sub` in `s` at or after `k`. */
  function IndexFrom(s: string, sub: string, k: nat): (r: Option<nat>)
    requires k <= |s|
    ensures r.Some? ==> k <= r.value && OccursAt(s, sub, r.value)
    ensures r.Some? ==> forall j :: k <= j < r.value ==> !OccursAt(s, sub, j)
    ensures r.None? ==> forall j :: k <= j ==> !OccursAt(s, sub, j)
    decreases |s| - k
  {
    if k + |sub| > |s| then None
    else if OccursAt(s, sub, k) then Some(k)
    else IndexFrom(s, sub, k + 1)
  }

  /** Python's `s.find(sub)`, with `None` for -1. */
  function IndexOf(s: string, sub: string): (r: Option<nat>)
    ensures r.Some? ==> OccursAt(s, sub, r.value)
    ensures r.Some? ==> forall j :: 0 <= j < r.value ==> !OccursAt(s, sub, j)
    ensures r.None? <==> !Contains(s, sub)
  {
    IndexFrom(s, sub, 0)
  }

  /** An occurrence inside a prefix is an occurrence in the whole string. */
  lemma OccursInPrefix(s: string, sub: string, n: nat, j: int)
    requires n <= |s| && OccursAt(s[..n], sub, j)
    ensures OccursAt(s, sub, j)
  {
    assert s[..n][j..j + |sub|] == s[j..j + |sub|];
  }

  /** A one-character string occurs exactly where the character does. */
  lemma ContainsChar(s: string, c: char)
    ensures Contains(s, [c]) <==> c in s
  {
    if c in s {
      var i :| 0 <= i < |s| && s[i] == c;
      assert OccursAt(s, [c], i);
    }
    if Contains(s, [c]) {
      var i :| 0 <= i <= |s| && OccursAt(s, [c], i);
      assert s[i..i + 1][0] == s[i];
    }
  }

  /** A prefix of a string has no occurrence the string lacks. */
  lemma NotContainsPrefix(s: string, sub: string, n: nat)
    requires n <= |s| && !Contains(s, sub)
    ensures !Contains(s[..n], sub)
  {
    forall j | 0 <= j <= n ensures !OccursAt(s[..n], sub, j) {
      if OccursAt(s[..n], sub, j) { OccursInPrefix(s, sub, n, j); }
    }
  }

  /** Python's `sep.join(parts)`. */
  function Join(parts: seq<string>, sep: string): string
  {
    if |parts| == 0 then ""
    else if |parts| == 1 then parts[0]
    else parts[0] + sep + Join(parts[1..], sep)
  }

  /** Python's `s.split(sep)` for a non-empty separator: the pieces between
      the non-overlapping occurrences of `sep`, scanned from the left. */
  function Split(s: string, sep: string): (parts: seq<string>)
    requires |sep| > 0
    ensures |parts| >= 1
    decreases |s|
  {
    match IndexOf(s, sep)
    case None => [s]
    case Some(i) => [s[..i]] + Split(s[i + |sep|..], sep)
  }

  /** Splitting at the first occurrence at `i`: the text before it, then
      the pieces of the text after it. */
  lemma SplitAt(s: string, sep: string, i: nat)
    requires |sep| > 0 && IndexOf(s, sep) == Some(i)
    ensures Split(s, sep) == [s[..i]] + Split(s[i + |sep|..], sep)
  {
  }

  /** The string comes back whole exactly when the separator does not occur. */
  lemma SplitSingleIff(s: string, sep: string)
    requires |sep| > 0
    ensures |Split(s, sep)| == 1 <==> !Contains(s, sep)
  {
    match IndexOf(s, sep)
    case None =>
    case Some(i) =>
      SplitAt(s, sep, i);
  }

  /** A string is the text before, at and after a slice of it. */
  lemma Reassemble(s: string, i: nat, n: nat)
    requires i + n <= |s|
    ensures s == s[..i] + s[i..i + n] + s[i + n..]
  {
  }

  /** Joining the pieces with the separator gives back the string. */
  lemma {:induction false} SplitJoin(s: string, sep: string)
    requires |sep| > 0
    ensures Join(Split(s, sep), sep) == s
    decreases |s|
  {
    match IndexOf(s, sep)
    case None =>
    case Some(i) =>
      var head, rest := s[..i], s[i + |sep|..];
      SplitAt(s, sep, i);
      SplitJoin(rest, sep);
      var parts := [head] + Split(rest, sep);
      assert parts[0] == head && parts[1..] == Split(rest, sep);
      Reassemble(s, i, |sep|);
  }

  /** No piece contains the separator. */
  lemma {:induction false} SplitPiecesFree(s: string, sep: string)
    requires |sep| > 0
    ensures forall k :: 0 <= k < |Split(s, sep)| ==> !Contains(Split(s, sep)[k], sep)
    decreases |s|
  {
    match IndexOf(s, sep)
    case None =>
    case Some(i) =>
      SplitPiecesFree(s[i + |sep|..], sep);
      forall j | 0 <= j <= i ensures !OccursAt(s[..i], sep, j) {
        if OccursAt(s[..i], sep, j) { OccursInPrefix(s, sep, i, j); }
      }
  }

  /** A string of which `sep` is no part splits into itself alone. */
  lemma SplitNoSeparator(s: string, sep: string)
    requires |sep| > 0 && !Contains(s, sep)
    ensures Split(s, sep) == [s]
  {
  }

  /** Splitting at the first occurrence: what precedes it is the first piece,
      and the pieces of what follows it come after. */
  lemma SplitFirst(p: string, sep: string, q: string)
    requires |sep| > 0
    requires forall j :: 0 <= j < |p| ==> !OccursAt(p + sep + q, sep, j)
    ensures Split(p + sep + q, sep) == [p] + Split(q, sep)
  {
    var s := p + sep + q;
    assert OccursAt(s, sep, |p|) by { assert s[|p|..|p| + |sep|] == sep; }
    var i := IndexOf(s, sep);
    assert i == Some(|p|);
    assert s[..|p|] == p && s[|p| + |sep|..] == q;
  }

  /** The characters Python's `str.rstrip('.git')` removes. */
  function RStrip(s: string, cs: set<char>): (r: string)
    ensures |r| <= |s| && r == s[..|r|]
    ensures forall i :: |r| <= i < |s| ==> s[i] in cs
    ensures r == [] || r[|r| - 1] !in cs
    decreases |s|
  {
    if |s| > 0 && s[|s| - 1] in cs then
      var r := RStrip(s[..|s| - 1], cs);
      assert s[..|s| - 1][..|r|] == s[..|r|];
      r
    else s
  }

  /** Python's `s.lstrip(cs)`. */
  function LStrip(s: string, cs: set<char>): (r: string)
    ensures |r| <= |s| && r == s[|s| - |r|..]
    ensures forall i :: 0 <= i < |s| - |r| ==> s[i] in cs
    ensures r == [] || r[0] !in cs
    decreases |s|
  {
    if |s| > 0 && s[0] in cs then
      var r := LStrip(s[1..], cs);
      assert s[1..][|s| - 1 - |r|..] == s[|s| - |r|..];
      r
    else s
  }

  /** Python's `s.strip(cs)`: both ends. */
  function Strip(s: string, cs: set<char>): (r: string)
    ensures r == [] || (r[0] !in cs && r[|r| - 1] !in cs)
  {
    var t := RStrip(s, cs);
    var r := LStrip(t, cs);
    assert r != [] ==> r[|r| - 1] == t[|t| - 1];
    r
  }

  /** `rstrip` is determined by its three properties: when `s` is `x + y`, every
      character of `y` is in `cs` and `x` does not end in one, the result is `x`. */
  lemma {:induction false} RStripOfSuffix(x: string, y: string, cs: set<char>)
    requires forall i :: 0 <= i < |y| ==> y[i] in cs
    requires x == [] || x[|x| - 1] !in cs
    ensures RStrip(x + y, cs) == x
  {
    var s := x + y;
    var r := RStrip(s, cs);
    assert forall i :: |x| <= i < |s| ==> s[i] == y[i - |x|];
    assert x != [] ==> s[|x| - 1] == x[|x| - 1];
    assert |r| == |x|;
    assert r == s[..|x|] == x;
  }

  /** `lstrip` is determined the same way: when `s` is `x + y`, every
      character of `x` is in `cs` and `y` does not start with one, the result is `y`. */
  lemma {:induction false} LStripOfPrefix(x: string, y: string, cs: set<char>)
    requires forall i :: 0 <= i < |x| ==> x[i] in cs
    requires y == [] || y[0] !in cs
    ensures LStrip(x + y, cs) == y
  {
    var s := x + y;
    var r := LStrip(s, cs);
    assert forall i :: 0 <= i < |x| ==> s[i] == x[i];
    assert y != [] ==> s[|x|] == y[0];
    assert |r| == |y|;
    assert r == s[|x|..] == y;
  }

  /** ASCII lower-casing of one character. */
  function LowerChar(c: char): char
  {
    if 'A' <= c <= 'Z' then (c as int + 32) as char else c
  }

  /** ASCII lower-casing, character by character. */
  function ToLower(s: string): (r: string)
    ensures |r| == |s|
  {
    seq(|s|, i requires 0 <= i < |s| => LowerChar(s[i]))
  }

  /** An ASCII case-insensitive substring test. */
  predicate ContainsIgnoreCase(s: string, sub: string)
  {
    Contains(ToLower(s), ToLower(sub))
  }

  predicate IsDigit(c: char) { '0' <= c <= '9' }

  predicate AllDigits(s: string) { forall i :: 0 <= i < |s| ==> IsDigit(s[i]) }

  function DigitChar(d: nat): (c: char)
    requires d < 10
    ensures IsDigit(c)
  {
    (48 + d) as char
  }

  function DigitValue(c: char): (d: nat)
    requires IsDigit(c)
    ensures d < 10 && DigitChar(d) == c
  {
    c as int - 48
  }

  /** Python's `str(n)` for a natural number. */
  function NatToString(n: nat): (s: string)
    ensures |s| >= 1 && AllDigits(s)
    decreases n
  {
    if n < 10 then [DigitChar(n)] else NatToString(n / 10) + [DigitChar(n % 10)]
  }

  /** Python's `str(n)` for an integer. */
  function IntToString(n: int): string
  {
    if n < 0 then "-" + NatToString(-n) else NatToString(n)
  }

  /** The value of a string of decimal digits, most significant first. */
  function DigitsValue(s: string): nat
    requires AllDigits(s)
    decreases |s|
  {
    if s == [] then 0 else DigitsValue(s[..|s| - 1]) * 10 + DigitValue(s[|s| - 1])
  }

  /** A leading zero does not change the value of a digit string. */
  lemma {:induction false} DigitsValueLeadingZero(s: string)
    requires AllDigits(s)
    ensures AllDigits("0" + s) && DigitsValue("0" + s) == DigitsValue(s)
    decreases |s|
  {
    var z := "0" + s;
    assert IsDigit(z[0]);
    if s != [] {
      var init := s[..|s| - 1];
      assert z[..|z| - 1] == "0" + init;
      assert z[|z| - 1] == s[|s| - 1];
      DigitsValueLeadingZero(init);
    } else {
      assert z[..0] == [];
    }
  }

  /** The rendering of a number below 10, 100, 1000 or 10000 has at most
      1, 2, 3 or 4 digits. */
  lemma {:induction false} NatToStringShort(n: nat)
    ensures n < 10 ==> |NatToString(n)| == 1
    ensures n < 100 ==> |NatToString(n)| <= 2
    ensures n < 1000 ==> |NatToString(n)| <= 3
    ensures n < 10000 ==> |NatToString(n)| <= 4
    decreases n
  {
    if n >= 10 {
      NatToStringShort(n / 10);
    }
  }

  lemma {:induction false} DigitsValueOfNatToString(n: nat)
    ensures DigitsValue(NatToString(n)) == n
    decreases n
  {
    if n >= 10 {
      var p := NatToString(n / 10);
      var s := p + [DigitChar(n % 10)];
      assert s[..|s| - 1] == p;
      DigitsValueOfNatToString(n / 10);
    }
  }

  /** The whitespace `int` skips around the digits of ASCII text (C's
      `isspace`): space and tab to carriage return. */
  predicate IsSpace(c: char)
  {
    c == ' ' || '\t' <= c <= '\r'
  }

  /** The whitespace at both ends of the text removed, as `int` does before
      it reads the number. */
  function TrimSpace(s: string): (r: string)
    ensures |r| <= |s|
    ensures r == [] || (!IsSpace(r[0]) && !IsSpace(r[|r| - 1]))
    decreases |s|
  {
    if |s| > 0 && IsSpace(s[0]) then TrimSpace(s[1..])
    else if |s| > 0 && IsSpace(s[|s| - 1]) then TrimSpace(s[..|s| - 1])
    else s
  }

  /** Stripping text between whitespace gives the text, when it neither
      starts nor ends with whitespace itself. */
  lemma {:induction false} TrimSpacePadded(p: string, s: string, q: string)
    requires forall i :: 0 <= i < |p| ==> IsSpace(p[i])
    requires forall i :: 0 <= i < |q| ==> IsSpace(q[i])
    requires s != [] && !IsSpace(s[0]) && !IsSpace(s[|s| - 1])
    ensures TrimSpace(p + s + q) == s
    decreases |p| + |q|
  {
    var t := p + s + q;
    if p != [] {
      assert t[0] == p[0] && IsSpace(t[0]);
      assert t[1..] == p[1..] + s + q;
      assert TrimSpace(t) == TrimSpace(t[1..]);
      assert forall i :: 0 <= i < |p[1..]| ==> p[1..][i] == p[i + 1];
      TrimSpacePadded(p[1..], s, q);
    } else if q != [] {
      assert t[0] == s[0];
      assert t[|t| - 1] == q[|q| - 1] && IsSpace(t[|t| - 1]);
      assert t[..|t| - 1] == p + s + q[..|q| - 1];
      assert TrimSpace(t) == TrimSpace(t[..|t| - 1]);
      assert forall i :: 0 <= i < |q| - 1 ==> q[..|q| - 1][i] == q[i];
      TrimSpacePadded(p, s, q[..|q| - 1]);
    } else {
      assert t == s;
    }
  }

  /** A value read so far, extended by one more digit. */
  function Extend(m: Option<nat>, c: char): (r: Option<nat>)
    requires IsDigit(c)
    ensures r.Some? <==> m.Some?
  {
    if m.None? then None else Some(m.value * 10 + DigitValue(c))
  }

  /** The value of decimal digits in which a single `_` may stand between two
      digits, as Python's integer literals allow; `None` for any other text.
      The text is read from its last digit backwards. */
  function Magnitude(t: string): (r: Option<nat>)
    ensures r.Some? ==> |t| >= 1 && IsDigit(t[|t| - 1])
    decreases |t|
  {
    if |t| == 0 || !IsDigit(t[|t| - 1]) then None
    else
      var prev := t[..|t| - 1];
      if prev == [] then Some(DigitValue(t[0]))
      else if prev[|prev| - 1] == '_' then Extend(Magnitude(prev[..|prev| - 1]), t[|t| - 1])
      else Extend(Magnitude(prev), t[|t| - 1])
  }

  /** Whether a number starts with a minus sign, and the text after its sign. */
  function SplitSign(t: string): (r: (bool, string))
    ensures r.1 == t || (|t| >= 1 && (t[0] == '-' || t[0] == '+') && r.1 == t[1..])
    ensures r.0 <==> |t| >= 1 && t[0] == '-'
  {
    if |t| >= 1 && t[0] == '-' then (true, t[1..])
    else if |t| >= 1 && t[0] == '+' then (false, t[1..])
    else (false, t)
  }

  /** The number that text without surrounding whitespace denotes: an
      optional sign, then digits with single underscores between them. */
  function ParseDecimal(t: string): (r: Option<int>)
    ensures r.Some? ==> exists i | 0 <= i < |t| :: IsDigit(t[i])
  {
    var (negative, body) := SplitSign(t);
    var m := Magnitude(body);
    if m.None? then None
    else
      assert IsDigit(body[|body| - 1]) && (body == t || body[|body| - 1] == t[|t| - 1]);
      var v: int := m.value;
      Some(if negative then -v else v)
  }

  /** Python's `int(s)` in base 10: the number the text between the
      surrounding whitespace denotes; `None` where Python raises `ValueError`. */
  function ParseInt(s: string): Option<int>
  {
    ParseDecimal(TrimSpace(s))
  }

  /** Text without surrounding whitespace is parsed as it stands. */
  lemma ParseIntUnpadded(s: string)
    requires s != [] && !IsSpace(s[0]) && !IsSpace(s[|s| - 1])
    ensures ParseInt(s) == ParseDecimal(s)
  {
  }

  /** Plain digits denote their value. */
  lemma {:induction false} MagnitudeDigits(s: string)
    requires |s| >= 1 && AllDigits(s)
    ensures Magnitude(s) == Some(DigitsValue(s))
    decreases |s|
  {
    var prev := s[..|s| - 1];
    if prev != [] {
      assert prev[|prev| - 1] == s[|s| - 2];
      assert AllDigits(prev);
      MagnitudeDigits(prev);
    } else {
      assert s == [s[0]];
    }
  }

  /** Plain digits, unsigned, denote their value. */
  lemma ParseDecimalDigits(s: string)
    requires |s| >= 1 && AllDigits(s)
    ensures ParseDecimal(s) == Some(DigitsValue(s))
  {
    MagnitudeDigits(s);
    assert SplitSign(s) == (false, s) by { assert IsDigit(s[0]); }
  }

  /** A minus sign before plain digits negates their value. */
  lemma ParseDecimalNegative(s: string, d: string)
    requires |d| >= 1 && AllDigits(d) && s == "-" + d
    ensures ParseDecimal(s) == Some(-(DigitsValue(d) as int))
  {
    assert s[0] == '-' && s[1..] == d;
    assert SplitSign(s) == (true, d);
    MagnitudeDigits(d);
  }

  /** The decimal text of an integer starts with a digit or `-` and ends with a digit. */
  lemma IntToStringEnds(n: int)
    ensures var s := IntToString(n); s != [] && (s[0] == '-' || IsDigit(s[0])) && IsDigit(s[|s| - 1])
  {
    if n < 0 {
      var digits := NatToString(-n);
      assert IntToString(n) == "-" + digits;
      assert ("-" + digits)[|digits|] == digits[|digits| - 1];
    }
  }

  /** The decimal text of a negative integer denotes it. */
  lemma ParseDecimalOfNegative(n: int)
    requires n < 0
    ensures ParseDecimal(IntToString(n)) == Some(n)
  {
    var digits := NatToString(-n);
    DigitsValueOfNatToString(-n);
    ParseDecimalNegative(IntToString(n), digits);
  }

  /** The decimal text of an integer denotes the integer. */
  lemma ParseDecimalOfIntToString(n: int)
    ensures ParseDecimal(IntToString(n)) == Some(n)
  {
    if n < 0 {
      ParseDecimalOfNegative(n);
    } else {
      ParseDecimalDigits(NatToString(n));
      DigitsValueOfNatToString(n);
    }
  }

  /** Text that `int` need not strip is parsed as it stands. */
  lemma ParseIntOfDecimal(s: string, v: Option<int>)
    requires s != [] && !IsSpace(s[0]) && !IsSpace(s[|s| - 1])
    requires ParseDecimal(s) == v
    ensures ParseInt(s) == v
  {
  }

  /** Rendering an integer in decimal and parsing it back gives the integer. */
  lemma ParseIntOfIntToString(n: int)
    ensures ParseInt(IntToString(n)) == Some(n)
  {
    IntToStringEnds(n);
    ParseDecimalOfIntToString(n);
    ParseIntOfDecimal(IntToString(n), Some(n));
  }

  /** `int` ignores whitespace before and after the number. */
  lemma ParseIntIgnoresWhitespace(p: string, n: int, q: string)
    requires forall i :: 0 <= i < |p| ==> IsSpace(p[i])
    requires forall i :: 0 <= i < |q| ==> IsSpace(q[i])
    ensures ParseInt(p + IntToString(n) + q) == Some(n)
  {
    IntToStringEnds(n);
    TrimSpacePadded(p, IntToString(n), q);
    ParseDecimalOfIntToString(n);
  }

  /** A digit after a digit extends the value read so far. */
  lemma MagnitudeAppendDigit(p: string, c: char)
    requires IsDigit(c) && p != [] && p[|p| - 1] != '_'
    ensures Magnitude(p + [c]) == Extend(Magnitude(p), c)
  {
    var t := p + [c];
    assert t[..|t| - 1] == p && t[|t| - 1] == c;
  }

  /** A digit after a single `_` extends the value read before the `_`. */
  lemma MagnitudeAfterUnderscore(p: string, c: char)
    requires IsDigit(c) && p != []
    ensures Magnitude(p + "_" + [c]) == Extend(Magnitude(p), c)
  {
    var t := p + "_" + [c];
    var prev := p + "_";
    assert t[..|t| - 1] == prev && t[|t| - 1] == c;
    assert prev[..|prev| - 1] == p && prev[|prev| - 1] == '_';
  }

  /** A single `_` between two runs of digits leaves their value unchanged. */
  lemma {:induction false} MagnitudeSeparator(a: string, b: string)
    requires |a| >= 1 && |b| >= 1 && AllDigits(a) && AllDigits(b)
    ensures Magnitude(a + "_" + b) == Magnitude(a + b)
    decreases |b|
  {
    var c := b[|b| - 1];
    var b' := b[..|b| - 1];
    assert b == b' + [c];
    assert IsDigit(c) && IsDigit(a[|a| - 1]);
    if |b| == 1 {
      assert b == [c];
      MagnitudeAfterUnderscore(a, c);
      MagnitudeAppendDigit(a, c);
    } else {
      assert AllDigits(b') && IsDigit(b'[|b'| - 1]);
      var s', plain' := a + "_" + b', a + b';
      assert s'[|s'| - 1] == b'[|b'| - 1] && plain'[|plain'| - 1] == b'[|b'| - 1];
      assert a + "_" + b == s' + [c];
      assert a + b == plain' + [c];
      MagnitudeSeparator(a, b');
      MagnitudeAppendDigit(s', c);
      MagnitudeAppendDigit(plain', c);
    }
  }

  /** Grouped digits, unsigned, denote the value of their digits. */
  lemma ParseDecimalSeparated(a: string, b: string)
    requires |a| >= 1 && |b| >= 1 && AllDigits(a) && AllDigits(b)
    ensures ParseDecimal(a + "_" + b) == ParseDecimal(a + b) == Some(DigitsValue(a + b))
  {
    var s, plain := a + "_" + b, a + b;
    assert s[0] == a[0] && plain[0] == a[0] && IsDigit(a[0]);
    assert AllDigits(plain);
    MagnitudeSeparator(a, b);
    MagnitudeDigits(plain);
    assert SplitSign(s) == (false, s);
    assert SplitSign(plain) == (false, plain);
  }

  /** A single `_` between two runs of digits does not change the number. */
  lemma ParseIntSeparator(a: string, b: string)
    requires |a| >= 1 && |b| >= 1 && AllDigits(a) && AllDigits(b)
    ensures ParseInt(a + "_" + b) == ParseInt(a + b) == Some(DigitsValue(a + b))
  {
    ParseIntSeparatedText(a + "_" + b, a + b, a, b);
  }

  /** `ParseIntSeparator` for the two texts given by name. */
  lemma ParseIntSeparatedText(s: string, plain: string, a: string, b: string)
    requires |a| >= 1 && |b| >= 1 && AllDigits(a) && AllDigits(b)
    requires s == a + "_" + b && plain == a + b
    ensures ParseInt(s) == ParseInt(plain) == Some(DigitsValue(plain))
  {
    assert s[0] == a[0] && s[|s| - 1] == b[|b| - 1];
    assert plain[0] == a[0] && plain[|plain| - 1] == b[|b| - 1];
    assert IsDigit(a[0]) && IsDigit(b[|b| - 1]);
    ParseDecimalSeparated(a, b);
    ParseIntOfDecimal(s, Some(DigitsValue(plain)));
    ParseIntOfDecimal(plain, Some(DigitsValue(plain)));
  }

  /** `int` rejects text without digits, and a space between sign and digits. */
  lemma ParseIntRejectsNoNumber()
    ensures ParseInt("") == None && ParseInt(" ") == None && ParseInt("-") == None
    ensures ParseInt("- 3") == None
  {
    ParseIntUnpadded("-");
    ParseIntUnpadded("- 3");
  }

  /** `int` rejects two underscores in a row and an underscore at either end. */
  lemma ParseIntRejectsUnderscores()
    ensures ParseInt("3__600") == None && ParseInt("_3600") == None && ParseInt("3600_") == None
  {
    assert Magnitude("3__600") == None by { assert "3__600"[..5][..4][..3] == "3__"; assert Magnitude("3_") == None; }
    assert Magnitude("_3600") == None by {
      assert "_3600"[..4] == "_360" && "_360"[..3] == "_36" && "_36"[..2] == "_3" && "_3"[..1] == "_";
      assert Magnitude("_3") == None;
      assert Magnitude("_36") == None;
      assert Magnitude("_360") == None;
    }
    ParseIntOfDecimal("3__600", None);
    ParseIntOfDecimal("_3600", None);
    ParseIntOfDecimal("3600_", None);
  }

  /** An information separator such as U+001C counts as whitespace for
      `str.isspace` but not for `int`, which rejects it in front of the digits. */
  lemma ParseIntRejectsSeparatorChar()
    ensures ParseInt("\U{001C}3600") == None
  {
    var s := "\U{001C}3600";
    assert s[..4] == "\U{001C}360" && s[..3] == "\U{001C}36" && s[..2] == "\U{001C}3" && s[..1] == "\U{001C}";
    assert Magnitude("\U{001C}3") == None;
    assert Magnitude("\U{001C}36") == None;
    assert Magnitude("\U{001C}360") == None;
    assert Magnitude(s) == None;
    ParseIntOfDecimal(s, None);
  }
}
