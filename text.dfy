/**
 * The .NET string operations the controllers rely on (`char.IsWhiteSpace`,
 * `string.IsNullOrWhiteSpace`, `Trim`, `Split`, `Contains`, `int.ToString`),
 * stated over `seq<char>`.
 */
module Text {
  import opened Wrappers

  /** `char.IsWhiteSpace`: the characters of the Unicode White_Space property. */
  predicate IsWhiteSpace(c: char)
  {
    || ('\t' <= c <= '\r') || c == ' ' || c == '\U{0085}' || c == '\U{00A0}' || c == '\U{1680}'
    || ('\U{2000}' <= c <= '\U{200A}') || c == '\U{2028}' || c == '\U{2029}'
    || c == '\U{202F}' || c == '\U{205F}' || c == '\U{3000}'
  }

  predicate AllWhiteSpace(s: string)
  {
    forall i :: 0 <= i < |s| ==> IsWhiteSpace(s[i])
  }

  /** `string.IsNullOrWhiteSpace` */
  predicate IsNullOrWhiteSpace(s: Option<string>)
  {
    s.None? || AllWhiteSpace(s.value)
  }

  /** `string.TrimStart()`: drops the leading white space. */
  function TrimStart(s: string): (r: string)
    ensures |r| <= |s| && r == s[|s| - |r|..]
    ensures AllWhiteSpace(s[..|s| - |r|])
    ensures r == [] || !IsWhiteSpace(r[0])
  {
    if s != [] && IsWhiteSpace(s[0]) then
      var t := s[1..];
      var r := TrimStart(t);
      var m := |s| - |r|;
      assert r == s[m..] by { assert t[|t| - |r|..] == s[m..]; }
      assert AllWhiteSpace(s[..m]) by {
        forall i | 0 <= i < m ensures IsWhiteSpace(s[..m][i]) {
          if i > 0 { assert s[..m][i] == t[..m - 1][i - 1]; }
        }
      }
      r
    else s
  }

  /** `string.TrimEnd()`: drops the trailing white space. */
  function TrimEnd(s: string): (r: string)
    ensures |r| <= |s| && r == s[..|r|]
    ensures AllWhiteSpace(s[|r|..])
    ensures r == [] || !IsWhiteSpace(r[|r| - 1])
  {
    if s != [] && IsWhiteSpace(s[|s| - 1]) then
      var r := TrimEnd(s[..|s| - 1]);
      assert s[|r|..] == s[..|s| - 1][|r|..] + [s[|s| - 1]];
      r
    else s
  }

  /** `r` is `s` with a run of white space removed at each end. */
  ghost predicate TrimmedInfix(s: string, r: string)
  {
    exists i :: 0 <= i <= |s| - |r| && r == s[i..i + |r|]
                && AllWhiteSpace(s[..i]) && AllWhiteSpace(s[i + |r|..])
  }

  /** `string.Trim()`: the longest infix of `s` that neither starts nor ends with white space. */
  function Trim(s: string): (r: string)
    ensures TrimmedInfix(s, r)
    ensures r == [] || (!IsWhiteSpace(r[0]) && !IsWhiteSpace(r[|r| - 1]))
    ensures r == [] <==> AllWhiteSpace(s)
  {
    var t := TrimStart(s);
    TrimBounds(s, t, TrimEnd(t));
    TrimEnd(t)
  }

  lemma TrimBounds(s: string, t: string, r: string)
    requires |t| <= |s| && t == s[|s| - |t|..] && AllWhiteSpace(s[..|s| - |t|])
    requires t == [] || !IsWhiteSpace(t[0])
    requires |r| <= |t| && r == t[..|r|] && AllWhiteSpace(t[|r|..])
    requires r == [] || !IsWhiteSpace(r[|r| - 1])
    ensures TrimmedInfix(s, r)
    ensures r == [] || (!IsWhiteSpace(r[0]) && !IsWhiteSpace(r[|r| - 1]))
    ensures r == [] <==> AllWhiteSpace(s)
  {
    var i := |s| - |t|;
    assert s[i + |r|..] == t[|r|..];
    assert r == s[i..i + |r|];
    if r == [] {
      assert t == [];
      assert s == s[..i];
    } else {
      assert r[0] == t[0] == s[i];
    }
  }

  /** `s.Contains(sub)`: `sub` occurs in `s` as a contiguous block. */
  predicate Contains(s: string, sub: string)
  {
    exists i :: 0 <= i <= |s| - |sub| && OccursAt(s, sub, i)
  }

  predicate OccursAt(s: string, sub: string, i: int)
    requires 0 <= i <= |s| - |sub|
  {
    s[i..i + |sub|] == sub
  }

  /**
   * Ordinal lexicographic order on strings: a prefix comes first, otherwise
   * the first differing character decides.
   */
  predicate LexLe(a: string, b: string)
  {
    if a == [] then true
    else if b == [] then false
    else if a[0] != b[0] then a[0] < b[0]
    else LexLe(a[1..], b[1..])
  }

  lemma {:induction false} LexLeTotal(a: string, b: string)
    ensures LexLe(a, b) || LexLe(b, a)
  {
    if a != [] && b != [] && a[0] == b[0] {
      LexLeTotal(a[1..], b[1..]);
    }
  }

  lemma {:induction false} LexLeTransitive(a: string, b: string, c: string)
    requires LexLe(a, b) && LexLe(b, c)
    ensures LexLe(a, c)
  {
    if a != [] && b != [] && c != [] && a[0] == b[0] && b[0] == c[0] {
      LexLeTransitive(a[1..], b[1..], c[1..]);
    }
  }

  lemma {:induction false} LexLeAntisymmetric(a: string, b: string)
    requires LexLe(a, b) && LexLe(b, a)
    ensures a == b
  {
    if a != [] && b != [] {
      LexLeAntisymmetric(a[1..], b[1..]);
      assert a == [a[0]] + a[1..] && b == [b[0]] + b[1..];
    }
  }

  /** `string.Join(sep, parts)` */
  function Join(parts: seq<string>, sep: char): string
    requires |parts| >= 1
  {
    if |parts| == 1 then parts[0] else parts[0] + [sep] + Join(parts[1..], sep)
  }

  /**
   * `s.Split(sep)`: the pieces between separators, empty ones included;
   * joining them back with `sep` gives `s`.
   */
  function Split(s: string, sep: char): (parts: seq<string>)
    ensures |parts| >= 1
    ensures forall k :: 0 <= k < |parts| ==> sep !in parts[k]
    ensures Join(parts, sep) == s
  {
    if s == [] then [""]
    else
      var rest := Split(s[1..], sep);
      if s[0] == sep then
        [""] + rest
      else
        assert Join([[s[0]] + rest[0]] + rest[1..], sep) == [s[0]] + Join(rest, sep);
        [[s[0]] + rest[0]] + rest[1..]
  }

  lemma {:induction false} SplitWithoutSeparator(s: string, sep: char)
    requires sep !in s
    ensures Split(s, sep) == [s]
  {
    if s != [] {
      SplitWithoutSeparator(s[1..], sep);
    }
  }

  predicate IsDigit(c: char)
  {
    '0' <= c <= '9'
  }

  predicate AllDigits(s: string)
  {
    forall i :: 0 <= i < |s| ==> IsDigit(s[i])
  }

  function DigitChar(d: nat): (c: char)
    requires d < 10
    ensures IsDigit(c)
  {
    '0' + d as char
  }

  function DigitValue(c: char): (d: nat)
    requires IsDigit(c)
    ensures d < 10 && DigitChar(d) == c
  {
    (c - '0') as nat
  }

  /** The decimal rendering of a natural: `n.ToString()` in C#, `n.toString()` in JavaScript. */
  function DecimalDigits(n: nat): (s: string)
    ensures |s| >= 1 && AllDigits(s)
    ensures s[0] != '0' || n == 0
  {
    if n < 10 then [DigitChar(n)] else DecimalDigits(n / 10) + [DigitChar(n % 10)]
  }

  /** The value of a string of decimal digits, most significant first. */
  function DigitsValue(s: string): nat
    requires AllDigits(s)
  {
    if s == [] then 0 else 10 * DigitsValue(s[..|s| - 1]) + DigitValue(s[|s| - 1])
  }

  lemma {:induction false} DecimalDigitsValue(n: nat)
    ensures DigitsValue(DecimalDigits(n)) == n
  {
    if n >= 10 {
      var s := DecimalDigits(n);
      assert s[..|s| - 1] == DecimalDigits(n / 10);
      DecimalDigitsValue(n / 10);
    }
  }

  /** `int.ToString()` with the invariant culture: an optional '-' and the digits. */
  function IntToString(x: int): (s: string)
    ensures |s| >= 1
    ensures x < 0 <==> s[0] == '-'
  {
    if x < 0 then "-" + DecimalDigits(-x) else DecimalDigits(x)
  }
}
