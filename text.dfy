/**
 * Character and string primitives of JavaScript that the tracker relies on:
 * decimal rendering of numbers (`String(n)`), `padStart`, the decimal value of a
 * run of ASCII digits, and the whitespace set used by `String.prototype.trim`
 * and by the regular-expression class `\s`.
 */
module Text {

  /** `\d` in a JavaScript regular expression without the `u` flag: ASCII digits only. */
  predicate IsDigit(c: char) {
    '0' <= c <= '9'
  }

  predicate AllDigits(s: string) {
    forall i :: 0 <= i < |s| ==> IsDigit(s[i])
  }

  function DigitChar(d: nat): (c: char)
    requires d < 10
    ensures IsDigit(c) && DigitValue(c) == d
  {
    (('0' as int) + d) as char
  }

  function DigitValue(c: char): (d: nat)
    requires IsDigit(c)
    ensures d < 10
  {
    c as int - '0' as int
  }

  /** The number a string of decimal digits denotes (leading zeros allowed). */
  function DigitsValue(s: string): nat
    requires AllDigits(s)
  {
    if s == [] then 0 else DigitsValue(s[..|s| - 1]) * 10 + DigitValue(s[|s| - 1])
  }

  /** `String(n)` for a non-negative integer: its shortest decimal rendering. */
  function NatToString(n: nat): (s: string)
    ensures 1 <= |s| && AllDigits(s)
    ensures n < 10 <==> |s| == 1
    ensures 10 <= n < 100 ==> |s| == 2
    decreases n
  {
    if n < 10 then [DigitChar(n)] else NatToString(n / 10) + [DigitChar(n % 10)]
  }

  /** `String(i)` for any integer: a minus sign before the digits of a negative number. */
  function IntToString(i: int): (s: string)
    ensures 1 <= |s|
  {
    if i < 0 then "-" + NatToString(-i) else NatToString(i)
  }

  /** `s.padStart(width, c)` with a one-character pad string. */
  function PadStart(s: string, width: nat, c: char): (r: string)
    ensures |r| == if |s| >= width then |s| else width
    ensures r[|r| - |s|..] == s
    ensures forall i :: 0 <= i < |r| - |s| ==> r[i] == c
  {
    if |s| >= width then s else seq(width - |s|, _ => c) + s
  }

  /** `String(n).padStart(2, '0')`, the two-digit fields of times and dates. */
  function Pad2(n: nat): string {
    PadStart(NatToString(n), 2, '0')
  }

  /** `Math.trunc(a / b)` for a positive divisor: the quotient rounded toward zero. */
  function TruncQuot(a: int, b: int): int
    requires b > 0
  {
    if a >= 0 then a / b else -((-a) / b)
  }

  /**
   * JavaScript's `%` for a positive divisor: the remainder left by the quotient
   * rounded toward zero, so it takes the sign of the dividend (Dafny's own `%`
   * is Euclidean and never negative).
   */
  function JsRem(a: int, b: int): (r: int)
    requires b > 0
    ensures a == TruncQuot(a, b) * b + r
    ensures a >= 0 ==> 0 <= r < b
    ensures a < 0 ==> -b < r <= 0
  {
    if a >= 0 then a % b else -((-a) % b)
  }

  /** Reading the digits `String(n)` produces gives back n. */
  lemma {:induction false} NatToStringValue(n: nat)
    ensures DigitsValue(NatToString(n)) == n
    decreases n
  {
    var s := NatToString(n);
    if n >= 10 {
      assert s[..|s| - 1] == NatToString(n / 10);
      NatToStringValue(n / 10);
    } else {
      assert s[..|s| - 1] == [];
    }
  }

  /** Distinct numbers never render to the same string. */
  lemma NatToStringInjective(a: nat, b: nat)
    requires NatToString(a) == NatToString(b)
    ensures a == b
  {
    NatToStringValue(a);
    NatToStringValue(b);
  }

  /** `String` on integers is injective: a digit string never starts with a minus sign. */
  lemma IntToStringInjective(a: int, b: int)
    requires IntToString(a) == IntToString(b)
    ensures a == b
  {
    var s := IntToString(a);
    assert a < 0 ==> s[0] == '-';
    assert b < 0 ==> s[0] == '-';
    if a < 0 && b < 0 {
      assert NatToString(-a) == s[1..] == NatToString(-b);
      NatToStringInjective(-a, -b);
    } else if a >= 0 && b >= 0 {
      NatToStringInjective(a, b);
    }
  }

  /** A two-digit field pads below ten, gives exactly two digits and denotes its number. */
  lemma Pad2Value(n: nat)
    requires n < 100
    ensures |Pad2(n)| == 2 && AllDigits(Pad2(n)) && DigitsValue(Pad2(n)) == n
  {
    var s := NatToString(n);
    NatToStringValue(n);
    if n < 10 {
      assert Pad2(n) == ['0'] + s;
      assert Pad2(n)[..1] == ['0'];
    }
  }

  lemma Pad2Injective(a: nat, b: nat)
    requires a < 100 && b < 100 && Pad2(a) == Pad2(b)
    ensures a == b
  {
    Pad2Value(a);
    Pad2Value(b);
  }

  /** Two digits re-rendered as a padded two-digit field come back unchanged. */
  lemma Pad2OfDigits(s: string)
    requires |s| == 2 && AllDigits(s)
    ensures DigitsValue(s) < 100 && Pad2(DigitsValue(s)) == s
  {
    TwoDigitsValue(s);
    if s[0] == '0' {
      Pad2OfLow(s);
    } else {
      Pad2OfHigh(s);
    }
  }

  lemma Pad2OfLow(s: string)
    requires |s| == 2 && AllDigits(s) && s[0] == '0'
    requires DigitsValue(s) == DigitValue(s[1])
    ensures Pad2(DigitsValue(s)) == s
  {
    DigitCharOfValue(s[1]);
    assert NatToString(DigitValue(s[1])) == [s[1]];
    PadOne(s);
  }

  lemma Pad2OfHigh(s: string)
    requires |s| == 2 && AllDigits(s) && s[0] != '0'
    requires DigitsValue(s) == DigitValue(s[0]) * 10 + DigitValue(s[1])
    ensures Pad2(DigitsValue(s)) == s
  {
    var v := DigitsValue(s);
    DigitCharOfValue(s[0]);
    DigitCharOfValue(s[1]);
    assert v / 10 == DigitValue(s[0]) && v % 10 == DigitValue(s[1]);
    assert NatToString(v / 10) == [s[0]];
    assert NatToString(v) == [s[0]] + [s[1]] == s;
  }

  lemma TwoDigitsValue(s: string)
    requires |s| == 2 && AllDigits(s)
    ensures DigitsValue(s) == DigitValue(s[0]) * 10 + DigitValue(s[1])
  {
    assert s[..1][..0] == [];
    assert DigitsValue(s[..1]) == DigitValue(s[0]);
  }

  lemma DigitCharOfValue(c: char)
    requires IsDigit(c)
    ensures DigitChar(DigitValue(c)) == c
  {
  }

  lemma PadOne(s: string)
    requires |s| == 2 && s[0] == '0'
    ensures PadStart([s[1]], 2, '0') == s
  {
    var p := PadStart([s[1]], 2, '0');
    assert p[0] == s[0] && p[1] == s[1];
  }

  /**
   * The characters `trim()` strips and `\s` matches: ECMAScript WhiteSpace
   * (tab, vertical tab, form feed, space, no-break space, byte-order mark and the
   * Unicode space separators) and LineTerminator (LF, CR, LS, PS).
   */
  predicate IsSpace(c: char) {
    c == '\t' || c == '\n' || c == '\U{B}' || c == '\U{C}' || c == '\r' || c == ' '
    || c == '\U{A0}' || c == '\U{1680}' || ('\U{2000}' <= c <= '\U{200A}')
    || c == '\U{2028}' || c == '\U{2029}' || c == '\U{202F}' || c == '\U{205F}'
    || c == '\U{3000}' || c == '\U{FEFF}'
  }

  /** `trimStart()`: the input after its leading whitespace. */
  function TrimStart(s: string): (r: string)
    ensures |r| <= |s| && r == s[|s| - |r|..]
    ensures r == [] || !IsSpace(r[0])
  {
    if s != [] && IsSpace(s[0]) then TrimStart(s[1..]) else s
  }

  /** `trimEnd()`: the input before its trailing whitespace. */
  function TrimEnd(s: string): (r: string)
    ensures |r| <= |s| && r == s[..|r|]
    ensures r == [] || !IsSpace(r[|r| - 1])
  {
    if s != [] && IsSpace(s[|s| - 1]) then TrimEnd(s[..|s| - 1]) else s
  }

  /** What `trimStart` removes is whitespace only. */
  lemma {:induction false} TrimStartRemovesSpaces(s: string)
    ensures forall i :: 0 <= i < |s| - |TrimStart(s)| ==> IsSpace(s[i])
  {
    if s != [] && IsSpace(s[0]) {
      TrimStartRemovesSpaces(s[1..]);
      assert forall i :: 1 <= i < |s| ==> s[i] == s[1..][i - 1];
    }
  }

  /** What `trimEnd` removes is whitespace only. */
  lemma {:induction false} TrimEndRemovesSpaces(s: string)
    ensures forall i :: |TrimEnd(s)| <= i < |s| ==> IsSpace(s[i])
  {
    if s != [] && IsSpace(s[|s| - 1]) {
      TrimEndRemovesSpaces(s[..|s| - 1]);
    }
  }

  /** `String.prototype.trim`: the input without leading and trailing whitespace. */
  function Trim(s: string): (r: string)
    ensures |r| <= |s|
    ensures r == [] || (!IsSpace(r[0]) && !IsSpace(r[|r| - 1]))
  {
    var a := TrimStart(s);
    assert TrimEnd(a) != [] ==> TrimEnd(a)[0] == a[0];
    TrimEnd(a)
  }

  /**
   * `trim` removes whitespace and nothing else, and only at the two ends: its
   * result is the slice of the input between a run of leading whitespace and a
   * run of trailing whitespace.
   */
  lemma TrimSlice(s: string)
    ensures exists i, j :: (0 <= i <= j <= |s| && Trim(s) == s[i..j]
      && (forall k :: 0 <= k < i ==> IsSpace(s[k]))
      && (forall k :: j <= k < |s| ==> IsSpace(s[k])))
  {
    var a := TrimStart(s);
    var r := TrimEnd(a);
    TrimStartRemovesSpaces(s);
    TrimEndRemovesSpaces(a);
    SpacedSlice(s, a, r);
  }

  /** r, a prefix of a suffix a of s, is a slice of s with only whitespace around it. */
  lemma SpacedSlice(s: string, a: string, r: string)
    requires |a| <= |s| && a == s[|s| - |a|..] && |r| <= |a| && r == a[..|r|]
    requires forall k :: 0 <= k < |s| - |a| ==> IsSpace(s[k])
    requires forall k :: |r| <= k < |a| ==> IsSpace(a[k])
    ensures exists i, j :: (0 <= i <= j <= |s| && r == s[i..j]
      && (forall k :: 0 <= k < i ==> IsSpace(s[k]))
      && (forall k :: j <= k < |s| ==> IsSpace(s[k])))
  {
    var i := |s| - |a|;
    PrefixOfSuffix(s, a, r);
    SpacesAfter(s, i, |r|);
    var j := i + |r|;
    assert r == s[i..j];
  }

  /** A prefix r of a suffix a of s is the slice of s between them. */
  lemma PrefixOfSuffix(s: string, a: string, r: string)
    requires |a| <= |s| && a == s[|s| - |a|..] && |r| <= |a| && r == a[..|r|]
    ensures r == s[|s| - |a|..|s| - |a| + |r|]
  {
    SliceOfSlice(s, |s| - |a|, |r|);
  }

  lemma SliceOfSlice(s: string, i: nat, n: nat)
    requires i + n <= |s|
    ensures s[i..][..n] == s[i..i + n]
  {
  }

  /** Whitespace at the end of a suffix of s is whitespace at the end of s. */
  lemma SpacesAfter(s: string, i: nat, m: nat)
    requires i <= |s| && forall k :: m <= k < |s[i..]| ==> IsSpace(s[i..][k])
    ensures forall k :: i + m <= k < |s| ==> IsSpace(s[k])
  {
    forall k | i + m <= k < |s|
      ensures IsSpace(s[k])
    {
      assert s[k] == s[i..][k - i];
    }
  }

  lemma DigitNotSpace(c: char)
    requires IsDigit(c)
    ensures !IsSpace(c)
  {
  }

  /** A string that neither starts nor ends with whitespace is its own trim. */
  lemma TrimEdges(s: string)
    requires s != [] && !IsSpace(s[0]) && !IsSpace(s[|s| - 1])
    ensures Trim(s) == s
  {
    assert TrimStart(s) == s;
  }

  /** A string with no whitespace at all is its own trim. */
  lemma TrimNoSpace(s: string)
    requires forall i :: 0 <= i < |s| ==> !IsSpace(s[i])
    ensures Trim(s) == s
  {
  }
}
