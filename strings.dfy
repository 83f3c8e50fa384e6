/**
 * Character classes, stripping and decimal numerals, with Python's meaning:
 * whitespace is what `str.isspace()` accepts (which is also what `\s`
 * matches in a `str` pattern), digits are the ASCII digits.
 */
module Strings {

  /** Python's `str.isspace()`. */
  predicate IsSpace(c: char) {
    var n := c as int;
    n == 0x20 || 0x09 <= n <= 0x0D || 0x1C <= n <= 0x1F || n == 0x85 || n == 0xA0 ||
    n == 0x1680 || 0x2000 <= n <= 0x200A || n == 0x2028 || n == 0x2029 ||
    n == 0x202F || n == 0x205F || n == 0x3000
  }

  predicate IsDigit(c: char) {
    '0' <= c <= '9'
  }

  /** A character that `\b` counts as part of a word (ASCII letters, digits, underscore). */
  predicate IsWordChar(c: char) {
    IsDigit(c) || 'a' <= c <= 'z' || 'A' <= c <= 'Z' || c == '_'
  }

  predicate AllSpace(s: string) {
    forall i :: 0 <= i < |s| ==> IsSpace(s[i])
  }

  predicate AllDigits(s: string) {
    forall i :: 0 <= i < |s| ==> IsDigit(s[i])
  }

  /** `s.lstrip()`: the suffix of `s` left after dropping leading whitespace. */
  function LStrip(s: string): (r: string)
    ensures |r| <= |s|
    ensures r == [] || !IsSpace(r[0])
  {
    if s != [] && IsSpace(s[0]) then LStrip(s[1..]) else s
  }

  /** `s.rstrip()`: the prefix of `s` left after dropping trailing whitespace. */
  function RStrip(s: string): (r: string)
    ensures |r| <= |s|
    ensures r == [] || !IsSpace(r[|r| - 1])
  {
    if s != [] && IsSpace(s[|s| - 1]) then RStrip(s[..|s| - 1]) else s
  }

  /** `s.strip()`. */
  function Strip(s: string): string {
    RStrip(LStrip(s))
  }

  /** What `LStrip` drops is whitespace and what it keeps is the rest of the text. */
  lemma {:induction false} LStripSplit(s: string)
    ensures LStrip(s) == s[|s| - |LStrip(s)|..]
    ensures AllSpace(s[..|s| - |LStrip(s)|])
  {
    if s != [] && IsSpace(s[0]) {
      LStripSplit(s[1..]);
      assert s[1..][..|s| - 1 - |LStrip(s)|] == s[1..|s| - |LStrip(s)|];
    }
  }

  /** What `RStrip` drops is whitespace and what it keeps is the start of the text. */
  lemma {:induction false} RStripSplit(s: string)
    ensures RStrip(s) == s[..|RStrip(s)|]
    ensures AllSpace(s[|RStrip(s)|..])
  {
    if s != [] && IsSpace(s[|s| - 1]) {
      var p := s[..|s| - 1];
      RStripSplit(p);
      var k := |RStrip(p)|;
      assert RStrip(s) == RStrip(p);
      forall i | k <= i < |s|
        ensures IsSpace(s[i])
      {
        if i < |s| - 1 {
          assert s[i] == p[k..][i - k];
        }
      }
    }
  }

  /** A stripped text neither starts nor ends with whitespace. */
  lemma StripEnds(s: string)
    ensures Strip(s) == [] || (!IsSpace(Strip(s)[0]) && !IsSpace(Strip(s)[|Strip(s)| - 1]))
  {
    var l := LStrip(s);
    RStripSplit(l);
    if Strip(s) != [] {
      assert Strip(s)[0] == l[0];
    }
  }

  lemma {:induction false} LStripAllSpace(s: string)
    requires AllSpace(s)
    ensures LStrip(s) == []
  {
    if s != [] {
      LStripAllSpace(s[1..]);
    }
  }

  lemma {:induction false} LStripPastSpace(w: string, t: string)
    requires AllSpace(w)
    requires t == [] || !IsSpace(t[0])
    ensures LStrip(w + t) == t
  {
    if w != [] {
      assert (w + t)[1..] == w[1..] + t;
      LStripPastSpace(w[1..], t);
    } else {
      assert w + t == t;
    }
  }

  lemma {:induction false} RStripPastSpace(t: string, w: string)
    requires AllSpace(w)
    requires t == [] || !IsSpace(t[|t| - 1])
    ensures RStrip(t + w) == t
  {
    if w == [] {
      assert t + w == t;
    } else {
      assert (t + w)[..|t + w| - 1] == t + w[..|w| - 1];
      RStripPastSpace(t, w[..|w| - 1]);
    }
  }

  /** The whitespace `LStrip` removes. */
  lemma SpaceBefore(s: string, t: string) returns (w: string)
    requires t == LStrip(s)
    ensures AllSpace(w) && s == w + t
  {
    LStripSplit(s);
    w := s[..|s| - |t|];
    assert s == w + s[|s| - |t|..];
  }

  /** Concatenation regrouped. */
  lemma Assoc(a: string, b: string, c: string)
    ensures a + b + c == a + (b + c)
  {
  }

  /** Stripping removes exactly the surrounding whitespace, whatever is put around a
      text that neither starts nor ends with whitespace. */
  lemma {:induction false} StripSurrounded(w1: string, t: string, w2: string)
    requires AllSpace(w1) && AllSpace(w2)
    requires t == [] || (!IsSpace(t[0]) && !IsSpace(t[|t| - 1]))
    ensures Strip(w1 + t + w2) == t
  {
    var tw := t + w2;
    assert w1 + t + w2 == w1 + tw;
    if t == [] {
      assert tw == w2;
      LStripPastSpaceAll(w1, w2);
      LStripAllSpace(w2);
    } else {
      assert tw[0] == t[0];
      LStripPastSpace(w1, tw);
      RStripPastSpace(t, w2);
    }
  }

  lemma {:induction false} LStripPastSpaceAll(w: string, v: string)
    requires AllSpace(w)
    ensures LStrip(w + v) == LStrip(v)
  {
    if w != [] {
      assert (w + v)[1..] == w[1..] + v;
      LStripPastSpaceAll(w[1..], v);
    } else {
      assert w + v == v;
    }
  }

  /** The value of an ASCII digit. */
  function DigitValue(c: char): nat
    requires IsDigit(c)
  {
    (c as int) - ('0' as int)
  }

  function DigitChar(d: nat): (c: char)
    requires d < 10
    ensures IsDigit(c) && DigitValue(c) == d
  {
    (('0' as int) + d) as char
  }

  /** The number a run of decimal digits denotes (leading zeros allowed). */
  function DigitsValue(s: string): nat
    requires AllDigits(s)
  {
    if s == [] then 0 else DigitsValue(s[..|s| - 1]) * 10 + DigitValue(s[|s| - 1])
  }

  /** The decimal numeral of `n`, without leading zeros (Python's `str(n)`). */
  function NatToString(n: nat): string {
    if n < 10 then [DigitChar(n)] else NatToString(n / 10) + [DigitChar(n % 10)]
  }

  /** Python's `str(n)` on an integer. */
  function IntToString(n: int): string {
    if n < 0 then "-" + NatToString(-n) else NatToString(n)
  }

  /** Reading back the numeral of `n` gives `n`. */
  lemma {:induction false} NatToStringValue(n: nat)
    ensures |NatToString(n)| > 0 && AllDigits(NatToString(n))
    ensures DigitsValue(NatToString(n)) == n
  {
    if n >= 10 {
      NatToStringValue(n / 10);
      var s := NatToString(n);
      assert s[..|s| - 1] == NatToString(n / 10);
    }
  }

  /** Numerals of one or two digits. */
  lemma NatToStringShort(n: nat)
    requires n < 100
    ensures 1 <= |NatToString(n)| <= 2 && AllDigits(NatToString(n))
  {
    NatToStringValue(n);
    if n >= 10 {
      assert NatToString(n / 10) == [DigitChar(n / 10)];
    }
  }

  lemma NatToStringFour(n: nat)
    requires 1000 <= n <= 9999
    ensures |NatToString(n)| == 4 && AllDigits(NatToString(n))
  {
    NatToStringValue(n);
    var a := n / 10;
    var b := a / 10;
    assert 100 <= a <= 999 && 10 <= b <= 99 && b / 10 < 10;
    assert |NatToString(b)| == 2;
    assert |NatToString(a)| == 3;
  }

  /** The longest prefix of `s` made of digits. */
  function DigitPrefix(s: string): (r: string)
    ensures |r| <= |s| && r == s[..|r|] && AllDigits(r)
    ensures |r| == |s| || !IsDigit(s[|r|])
  {
    if s != [] && IsDigit(s[0]) then [s[0]] + DigitPrefix(s[1..]) else []
  }

  lemma {:induction false} DigitPrefixOf(d: string, t: string)
    requires AllDigits(d)
    requires t == [] || !IsDigit(t[0])
    ensures DigitPrefix(d + t) == d
  {
    if d != [] {
      assert (d + t)[1..] == d[1..] + t;
      DigitPrefixOf(d[1..], t);
    } else {
      assert d + t == t;
    }
  }

  /** ASCII lower-casing. */
  function LowerChar(c: char): char {
    if 'A' <= c <= 'Z' then ((c as int) + 32) as char else c
  }

  function LowerAscii(s: string): string {
    seq(|s|, i requires 0 <= i < |s| => LowerChar(s[i]))
  }

  /** The characters of `s` that are not whitespace, in order. */
  function NonSpace(s: string): string {
    if s == [] then [] else (if IsSpace(s[0]) then [] else [s[0]]) + NonSpace(s[1..])
  }

  lemma {:induction false} NonSpaceAppend(a: string, b: string)
    ensures NonSpace(a + b) == NonSpace(a) + NonSpace(b)
  {
    if a != [] {
      assert (a + b)[1..] == a[1..] + b;
      NonSpaceAppend(a[1..], b);
    } else {
      assert a + b == b;
    }
  }

  lemma {:induction false} NonSpaceOfSpace(w: string)
    requires AllSpace(w)
    ensures NonSpace(w) == []
  {
    if w != [] {
      NonSpaceOfSpace(w[1..]);
    }
  }

  lemma {:induction false} NonSpaceAroundSpace(w: string, t: string)
    requires AllSpace(w)
    ensures NonSpace(w + t) == NonSpace(t)
    ensures NonSpace(t + w) == NonSpace(t)
  {
    NonSpaceAppend(w, t);
    NonSpaceAppend(t, w);
    NonSpaceOfSpace(w);
  }

  /** Stripping only removes whitespace. */
  lemma {:induction false} StripKeepsNonSpace(s: string)
    ensures NonSpace(Strip(s)) == NonSpace(s)
  {
    var l := LStrip(s);
    LStripSplit(s);
    var w := s[..|s| - |l|];
    assert s == w + l;
    NonSpaceAroundSpace(w, l);
    var r := RStrip(l);
    RStripSplit(l);
    var w' := l[|r|..];
    assert l == r + w';
    NonSpaceAroundSpace(w', r);
  }
}
