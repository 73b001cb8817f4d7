/** String helpers with the meaning the .NET base library gives them. */
module Text {

  /** `char.IsWhiteSpace`: U+0009..U+000D, U+0085, and the Unicode space,
      line and paragraph separators. */
  predicate IsWhiteSpace(c: char) {
    || ('\t' <= c <= '\r')
    || c == ' '
    || c == '\U{0085}'
    || c == '\U{00A0}'
    || c == '\U{1680}'
    || ('\U{2000}' <= c <= '\U{200A}')
    || c == '\U{2028}'
    || c == '\U{2029}'
    || c == '\U{202F}'
    || c == '\U{205F}'
    || c == '\U{3000}'
  }

  predicate AllWhiteSpace(s: string) {
    forall i :: 0 <= i < |s| ==> IsWhiteSpace(s[i])
  }

  /** The text without its leading white space (`String.TrimStart()`). */
  function TrimStart(s: string): (r: string)
    ensures |r| <= |s| && r == s[|s| - |r|..]
    ensures AllWhiteSpace(s[..|s| - |r|])
    ensures r == [] || !IsWhiteSpace(r[0])
    decreases |s|
  {
    if s != [] && IsWhiteSpace(s[0]) then TrimStart(s[1..]) else s
  }

  /** `sub` occurs in `s` starting at index `i`. */
  predicate IsInfixAt(s: string, sub: string, i: int) {
    0 <= i && i + |sub| <= |s| && s[i..i + |sub|] == sub
  }

  /** Ordinal `String.Contains`. */
  predicate Contains(s: string, sub: string) {
    exists i | 0 <= i <= |s| :: IsInfixAt(s, sub, i)
  }

  lemma ContainsMiddle(p: string, sub: string, q: string)
    ensures Contains(p + sub + q, sub)
  {
    assert (p + sub + q)[|p|..|p| + |sub|] == sub;
    assert IsInfixAt(p + sub + q, sub, |p|);
  }

  /** The text with every character sent through a per-character case map:
      the key under which an ignore-case comparer files `s`. */
  function FoldCase(fold: char -> char, s: string): (r: string)
    ensures |r| == |s|
    ensures forall i :: 0 <= i < |s| ==> r[i] == fold(s[i])
  {
    seq(|s|, i requires 0 <= i < |s| => fold(s[i]))
  }

  /** `String.Equals(a, b, StringComparison.OrdinalIgnoreCase)`, given the
      invariant upper-casing map of the runtime. */
  predicate EqualsIgnoreCase(upper: char -> char, a: string, b: string) {
    FoldCase(upper, a) == FoldCase(upper, b)
  }

  /** `String.TrimStart(c)`. */
  function TrimStartChar(s: string, c: char): (r: string)
    ensures |r| <= |s| && r == s[|s| - |r|..]
    ensures forall i :: 0 <= i < |s| - |r| ==> s[i] == c
    ensures r == [] || r[0] != c
    decreases |s|
  {
    if s != [] && s[0] == c then TrimStartChar(s[1..], c) else s
  }

  /** `String.TrimEnd(c)`. */
  function TrimEndChar(s: string, c: char): (r: string)
    ensures |r| <= |s| && r == s[..|r|]
    ensures forall i :: |r| <= i < |s| ==> s[i] == c
    ensures r == [] || r[|r| - 1] != c
    decreases |s|
  {
    if s != [] && s[|s| - 1] == c then TrimEndChar(s[..|s| - 1], c) else s
  }

  /** `r` is `s` with `s[..i]` and `s[i + |r|..]` cut off, every cut
      character being `c`. */
  predicate TrimmedAt(s: string, r: string, c: char, i: int) {
    && IsInfixAt(s, r, i)
    && (forall k :: 0 <= k < i ==> s[k] == c)
    && (forall k :: i + |r| <= k < |s| ==> s[k] == c)
  }

  /** `String.Trim(c)`: every leading and trailing `c` removed, the rest kept. */
  function TrimChar(s: string, c: char): (r: string)
    ensures r == [] || (r[0] != c && r[|r| - 1] != c)
    ensures exists i | 0 <= i <= |s| - |r| :: TrimmedAt(s, r, c, i)
  {
    var front := TrimStartChar(s, c);
    var r := TrimEndChar(front, c);
    TrimBothEnds(s, front, r, c);
    r
  }

  /** Trimming the front and then the back of what is left cuts `c` only. */
  lemma TrimBothEnds(s: string, front: string, r: string, c: char)
    requires |front| <= |s| && front == s[|s| - |front|..]
    requires forall i :: 0 <= i < |s| - |front| ==> s[i] == c
    requires |r| <= |front| && r == front[..|r|]
    requires forall i :: |r| <= i < |front| ==> front[i] == c
    ensures TrimmedAt(s, r, c, |s| - |front|)
  {
    var i := |s| - |front|;
    assert s[i..i + |r|] == r;
    forall k | i + |r| <= k < |s|
      ensures s[k] == c
    {
      assert s[k] == front[k - i];
    }
  }

  function DigitChar(d: nat): char
    requires d < 10
  {
    "0123456789"[d]
  }

  /** Decimal digits of a natural number, most significant first. */
  function NatToDecimal(n: nat): (r: string)
    ensures |r| > 0
    ensures forall i :: 0 <= i < |r| ==> '0' <= r[i] <= '9'
  {
    if n < 10 then [DigitChar(n)] else NatToDecimal(n / 10) + [DigitChar(n % 10)]
  }

  /** `Int32.ToString()` with a '-' negative sign. */
  function IntToDecimal(i: int): (r: string)
    ensures |r| > 0
    ensures r[0] == '-' <==> i < 0
  {
    if i < 0 then "-" + NatToDecimal(-i) else NatToDecimal(i)
  }

  /** The value of a string of decimal digits, most significant first. */
  function DecimalValue(s: string): nat
    requires forall i :: 0 <= i < |s| ==> '0' <= s[i] <= '9'
  {
    if s == [] then 0 else 10 * DecimalValue(s[..|s| - 1]) + (s[|s| - 1] as int - '0' as int)
  }

  lemma DigitCharValue(d: nat)
    requires d < 10
    ensures DigitChar(d) as int - '0' as int == d
  {
  }

  /** Reading back the digits of a number gives the number. */
  lemma {:induction false} NatToDecimalValue(n: nat)
    ensures DecimalValue(NatToDecimal(n)) == n
  {
    DigitCharValue(n % 10);
    if n >= 10 {
      NatToDecimalValue(n / 10);
      var r := NatToDecimal(n);
      assert r[..|r| - 1] == NatToDecimal(n / 10);
    }
  }

  /** The digits of a number have no leading zero, unless the number is 0. */
  lemma {:induction false} NatToDecimalNoLeadingZero(n: nat)
    ensures NatToDecimal(n)[0] == '0' <==> n == 0
  {
    DigitCharValue(n % 10);
    if n >= 10 {
      NatToDecimalNoLeadingZero(n / 10);
    }
  }

  /** Different numbers have different decimal texts. */
  lemma IntToDecimalInjective(a: int, b: int)
    ensures IntToDecimal(a) == IntToDecimal(b) ==> a == b
  {
    if IntToDecimal(a) == IntToDecimal(b) {
      var x := if a < 0 then -a else a;
      var y := if b < 0 then -b else b;
      NatToDecimalValue(x);
      NatToDecimalValue(y);
      if a < 0 {
        assert b < 0;
        assert NatToDecimal(x) == IntToDecimal(a)[1..];
        assert NatToDecimal(y) == IntToDecimal(b)[1..];
      }
    }
  }
}
