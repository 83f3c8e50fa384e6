/**
 * Cells of the sheet and the normalisers applied to them: count coercion,
 * text cleaning, temperature reading and Python's `int()`.
 */
module Cells {
  import opened Strings
  import opened Results

  /** One cell as pandas hands it over: NaN (an empty cell), a whole number, or text. */
  datatype Cell = Missing | IntCell(n: int) | Text(s: string)

  /** Python's `str()` of a cell; `astype(str)` turns NaN into "nan". */
  function CellStr(c: Cell): string {
    match c
    case Missing => "nan"
    case IntCell(n) => IntToString(n)
    case Text(s) => s
  }

  /** `str(cell).strip()`, the form in which the scanners compare cells. */
  function Stripped(c: Cell): string {
    Strip(CellStr(c))
  }

  /** A numeral starts with '-' or a digit, ends with a digit, and reads back as its integer. */
  lemma IntToStringShape(n: int)
    ensures var t := IntToString(n);
      && |t| > 0 && !IsSpace(t[0]) && IsDigit(t[|t| - 1])
      && Unsigned(t) == NatToString(Abs(n))
      && |Unsigned(t)| > 0 && AllDigits(Unsigned(t))
      && WithSign(t, DigitsValue(Unsigned(t))) == n
  {
    NatToStringValue(Abs(n));
  }

  function Abs(n: int): nat {
    if n < 0 then -n else n
  }

  function Unsigned(t: string): string {
    if |t| > 0 && t[0] == '-' then t[1..] else t
  }

  function WithSign(t: string, v: nat): int {
    var i: int := v;
    if |t| > 0 && t[0] == '-' then -i else i
  }

  // ---------------------------------------------------------------- _parse_count

  /** The count-week marker "cw", in any case. */
  predicate IsCountWeek(t: string) {
    LowerAscii(t) == "cw"
  }

  /** `re.fullmatch(r"-?\d+", t)` */
  predicate IsIntegerText(t: string) {
    |Unsigned(t)| > 0 && AllDigits(Unsigned(t))
  }

  /** `re.fullmatch(r"-?\d+\.0+", t)` */
  predicate IsWholeDecimalText(t: string) {
    var u := Unsigned(t);
    var d := DigitPrefix(u);
    |d| > 0 && |u| >= |d| + 2 && u[|d|] == '.' &&
    forall i :: |d| < i < |u| ==> u[i] == '0'
  }

  /** The count a stripped text denotes. */
  function CountOfText(t: string): int {
    if t == "" then 0
    else if IsCountWeek(t) then 0
    else if IsIntegerText(t) then WithSign(t, DigitsValue(Unsigned(t)))
    else if IsWholeDecimalText(t) then WithSign(t, DigitsValue(DigitPrefix(Unsigned(t))))
    else 0
  }

  /** `_parse_count`: a total coercion of a count cell to an integer. Blanks, the
      count-week marker and every text that is not an integer numeral give 0. */
  function ParseCount(c: Cell): (r: int)
    ensures r != 0 ==> c.IntCell? || (c.Text? && (IsIntegerText(Strip(c.s)) || IsWholeDecimalText(Strip(c.s))))
  {
    match c
    case Missing => 0
    case IntCell(n) => n
    case Text(s) => CountOfText(Strip(s))
  }

  lemma NumeralIsNotCountWeek(t: string)
    requires |t| > 0 && IsDigit(t[|t| - 1])
    ensures !IsCountWeek(t)
  {
    assert LowerAscii(t)[|t| - 1] == t[|t| - 1];
  }

  /** `-` or nothing before a value. */
  function Signed(sign: string, v: nat): int {
    var i: int := v;
    if sign == "-" then -i else i
  }

  lemma SignedShape(sign: string, d: string)
    requires sign == "" || sign == "-"
    requires |d| > 0 && AllDigits(d)
    ensures var t := sign + d;
      && |t| > 0 && !IsSpace(t[0]) && IsDigit(t[|t| - 1])
      && Unsigned(t) == d && WithSign(t, DigitsValue(d)) == Signed(sign, DigitsValue(d))
  {
    var t := sign + d;
    assert t[|t| - 1] == d[|d| - 1];
    if sign == "" {
      assert t == d;
    } else {
      assert t[0] == '-' && t[1..] == d;
    }
  }

  /** A run of digits with an optional minus sign, leading zeros allowed ("007" counts 7),
      however padded with whitespace, is read back as its integer. */
  lemma ParseCountNumeral(sign: string, d: string, w1: string, w2: string)
    requires sign == "" || sign == "-"
    requires |d| > 0 && AllDigits(d) && AllSpace(w1) && AllSpace(w2)
    ensures ParseCount(Text(w1 + sign + d + w2)) == Signed(sign, DigitsValue(d))
  {
    var t := sign + d;
    SignedEnds(sign, d);
    var s := w1 + sign + d + w2;
    Assoc(w1, sign, d);
    assert s == w1 + t + w2;
    assert Strip(s) == t by { StripSurrounded(w1, t, w2); }
    assert ParseCount(Text(s)) == CountOfText(t) by { CountOfStripped(s, t); }
    assert CountOfText(t) == Signed(sign, DigitsValue(d)) by { CountOfInteger(sign, d); }
  }

  lemma SignedEnds(sign: string, d: string)
    requires sign == "" || sign == "-"
    requires |d| > 0 && AllDigits(d)
    ensures var t := sign + d; t == [] || (!IsSpace(t[0]) && !IsSpace(t[|t| - 1]))
  {
    SignedShape(sign, d);
  }

  lemma CountOfInteger(sign: string, d: string)
    requires sign == "" || sign == "-"
    requires |d| > 0 && AllDigits(d)
    ensures CountOfText(sign + d) == Signed(sign, DigitsValue(d))
  {
    SignedShape(sign, d);
    NumeralIsNotCountWeek(sign + d);
  }

  lemma CountOfStripped(s: string, t: string)
    requires Strip(s) == t
    ensures ParseCount(Text(s)) == CountOfText(t)
  {
  }

  lemma UnsignedAppend(s: string, rest: string)
    requires |s| > 0
    ensures Unsigned(s + rest) == Unsigned(s) + rest
  {
    if s[0] == '-' {
      assert (s + rest)[1..] == s[1..] + rest;
    }
  }

  lemma DecimalZerosShape(d: string, zeros: string)
    requires |d| > 0 && AllDigits(d)
    requires |zeros| > 0 && forall i :: 0 <= i < |zeros| ==> zeros[i] == '0'
    ensures var u := d + "." + zeros;
      && DigitPrefix(u) == d && |u| >= |d| + 2 && u[|d|] == '.'
      && (forall i :: |d| < i < |u| ==> u[i] == '0') && !AllDigits(u)
  {
    var u := d + "." + zeros;
    assert u == d + ("." + zeros);
    DigitPrefixOf(d, "." + zeros);
    assert u[|d|] == '.';
    forall i | |d| < i < |u|
      ensures u[i] == '0'
    {
      assert u[i] == zeros[i - |d| - 1];
    }
  }

  /** Digits with an optional minus sign, a point and one or more zeros, however padded, are
      read as the integer the digits spell. */
  lemma ParseCountWholeDecimal(sign: string, d: string, zeros: string, w1: string, w2: string)
    requires sign == "" || sign == "-"
    requires |d| > 0 && AllDigits(d) && AllSpace(w1) && AllSpace(w2)
    requires |zeros| > 0 && forall i :: 0 <= i < |zeros| ==> zeros[i] == '0'
    ensures ParseCount(Text(w1 + sign + d + "." + zeros + w2)) == Signed(sign, DigitsValue(d))
  {
    var t := sign + d + "." + zeros;
    WholeDecimalEnds(sign, d, zeros);
    var s := w1 + sign + d + "." + zeros + w2;
    Assoc(w1, sign, d);
    Assoc(w1, sign + d, ".");
    Assoc(w1, sign + d + ".", zeros);
    StripSurrounded(w1, t, w2);
    CountOfStripped(s, t);
    CountOfWholeDecimalText(sign, d, zeros);
  }

  lemma WholeDecimalEnds(sign: string, d: string, zeros: string)
    requires sign == "" || sign == "-"
    requires |d| > 0 && AllDigits(d)
    requires |zeros| > 0 && forall i :: 0 <= i < |zeros| ==> zeros[i] == '0'
    ensures var t := sign + d + "." + zeros; t == [] || (!IsSpace(t[0]) && !IsSpace(t[|t| - 1]))
  {
    WholeDecimalShape(sign, d, zeros);
  }

  lemma CountOfWholeDecimalText(sign: string, d: string, zeros: string)
    requires sign == "" || sign == "-"
    requires |d| > 0 && AllDigits(d)
    requires |zeros| > 0 && forall i :: 0 <= i < |zeros| ==> zeros[i] == '0'
    ensures CountOfText(sign + d + "." + zeros) == Signed(sign, DigitsValue(d))
  {
    var t := sign + d + "." + zeros;
    WholeDecimalShape(sign, d, zeros);
    NumeralIsNotCountWeek(t);
    CountOfWholeDecimal(t, d);
  }

  lemma CountOfWholeDecimal(t: string, d: string)
    requires t != "" && !IsCountWeek(t) && !IsIntegerText(t) && IsWholeDecimalText(t)
    requires DigitPrefix(Unsigned(t)) == d
    ensures CountOfText(t) == WithSign(t, DigitsValue(d))
  {
  }

  lemma WholeDecimalShape(sign: string, d: string, zeros: string)
    requires sign == "" || sign == "-"
    requires |d| > 0 && AllDigits(d)
    requires |zeros| > 0 && forall i :: 0 <= i < |zeros| ==> zeros[i] == '0'
    ensures var t := sign + d + "." + zeros;
      && |t| > 0 && !IsSpace(t[0]) && IsDigit(t[|t| - 1])
      && !IsIntegerText(t) && IsWholeDecimalText(t) && DigitPrefix(Unsigned(t)) == d
      && WithSign(t, DigitsValue(d)) == Signed(sign, DigitsValue(d))
  {
    var n := sign + d;
    SignedShape(sign, d);
    var t := n + "." + zeros;
    assert t == n + ("." + zeros);
    assert t[0] == n[0] && t[|t| - 1] == zeros[|zeros| - 1];
    UnsignedAppend(n, "." + zeros);
    assert Unsigned(t) == d + "." + zeros;
    DecimalZerosShape(d, zeros);
  }

  /** The count-week marker, in any case and however padded, counts as 0. */
  lemma ParseCountCountWeek(t: string, w1: string, w2: string)
    requires IsCountWeek(t) && AllSpace(w1) && AllSpace(w2)
    ensures ParseCount(Text(w1 + t + w2)) == 0
  {
    assert t[0] == 'c' || t[0] == 'C' by { assert LowerAscii(t)[0] == 'c'; }
    assert t[1] == 'w' || t[1] == 'W' by { assert LowerAscii(t)[1] == 'w'; }
    StripSurrounded(w1, t, w2);
  }

  // ---------------------------------------------------------------- _clean_text

  /** Every whitespace character is a plain space and no two whitespace characters are adjacent. */
  predicate SpacesCollapsed(r: string) {
    (forall i :: 0 <= i < |r| && IsSpace(r[i]) ==> r[i] == ' ') &&
    (forall i :: 0 <= i < |r| - 1 ==> !(IsSpace(r[i]) && IsSpace(r[i + 1])))
  }

  /** Neither the first nor the last character is whitespace. */
  predicate Trimmed(r: string) {
    r == [] || (!IsSpace(r[0]) && !IsSpace(r[|r| - 1]))
  }

  /** `s.replace("\n", " ")` */
  function ReplaceNewlines(s: string): string {
    seq(|s|, i requires 0 <= i < |s| => if s[i] == '\n' then ' ' else s[i])
  }

  /** `re.sub(r"\s+", " ", s)`: each maximal run of whitespace becomes one space. */
  function Collapse(s: string): (r: string)
    ensures |r| == 0 <==> |s| == 0
    ensures r != [] ==> (IsSpace(r[0]) <==> IsSpace(s[0]))
    ensures SpacesCollapsed(r)
    decreases |s|
  {
    if s == [] then []
    else if IsSpace(s[0]) then [' '] + Collapse(LStrip(s))
    else [s[0]] + Collapse(s[1..])
  }

  lemma StripOffset(s: string) returns (off: nat)
    ensures off + |Strip(s)| <= |s| && Strip(s) == s[off..off + |Strip(s)|]
  {
    var l := LStrip(s);
    LStripSplit(s);
    RStripSplit(l);
    off := |s| - |l|;
    assert Strip(s) == l[..|Strip(s)|];
  }

  lemma StripKeepsCollapsed(s: string)
    requires SpacesCollapsed(s)
    ensures SpacesCollapsed(Strip(s)) && Trimmed(Strip(s))
  {
    var off := StripOffset(s);
    var r := Strip(s);
    forall i | 0 <= i < |r|
      ensures r[i] == s[off + i]
    {
    }
    StripEnds(s);
  }

  /** The cleaning of a present cell's text. */
  function Clean(s: string): string {
    Strip(Collapse(ReplaceNewlines(s)))
  }

  /** `_clean_text`: "" for an empty cell; otherwise the text with newlines and whitespace
      runs collapsed to single spaces and the ends stripped. */
  function CleanText(c: Cell): (r: string)
    ensures c.Missing? ==> r == ""
    ensures Trimmed(r) && SpacesCollapsed(r)
    ensures forall i :: 0 <= i < |r| ==> r[i] != '\n'
  {
    if c.Missing? then ""
    else
      StripKeepsCollapsed(Collapse(ReplaceNewlines(CellStr(c))));
      Clean(CellStr(c))
  }

  lemma {:induction false} NonSpaceOfReplaceNewlines(s: string)
    ensures NonSpace(ReplaceNewlines(s)) == NonSpace(s)
  {
    if s != [] {
      assert ReplaceNewlines(s)[1..] == ReplaceNewlines(s[1..]);
      NonSpaceOfReplaceNewlines(s[1..]);
    }
  }

  lemma {:induction false} NonSpaceOfLStrip(s: string)
    ensures NonSpace(LStrip(s)) == NonSpace(s)
  {
    var l := LStrip(s);
    LStripSplit(s);
    assert s == s[..|s| - |l|] + l;
    NonSpaceAroundSpace(s[..|s| - |l|], l);
  }

  lemma {:induction false} NonSpaceOfCollapse(s: string)
    ensures NonSpace(Collapse(s)) == NonSpace(s)
    decreases |s|
  {
    if s != [] {
      if IsSpace(s[0]) {
        NonSpaceOfCollapse(LStrip(s));
        NonSpaceOfLStrip(s);
        assert ([' '] + Collapse(LStrip(s)))[1..] == Collapse(LStrip(s));
      } else {
        NonSpaceOfCollapse(s[1..]);
        assert ([s[0]] + Collapse(s[1..]))[1..] == Collapse(s[1..]);
      }
    }
  }

  lemma {:induction false} NonSpaceEmpty(s: string)
    ensures NonSpace(s) == [] <==> AllSpace(s)
  {
    if s != [] {
      NonSpaceEmpty(s[1..]);
      assert AllSpace(s) <==> IsSpace(s[0]) && AllSpace(s[1..]);
    }
  }

  lemma TrimmedNonSpace(r: string)
    requires Trimmed(r) && r != []
    ensures NonSpace(r) != []
  {
    assert NonSpace(r) == [r[0]] + NonSpace(r[1..]);
  }

  /** Cleaning changes only whitespace: the other characters of the cell's text are kept, in order. */
  lemma CleanTextKeepsText(c: Cell)
    requires !c.Missing?
    ensures NonSpace(CleanText(c)) == NonSpace(CellStr(c))
  {
    var s := CellStr(c);
    StripKeepsNonSpace(Collapse(ReplaceNewlines(s)));
    NonSpaceOfCollapse(ReplaceNewlines(s));
    NonSpaceOfReplaceNewlines(s);
  }

  /** A present cell cleans to "" exactly when its text is all whitespace. */
  lemma CleanTextBlank(c: Cell)
    requires !c.Missing?
    ensures CleanText(c) == "" <==> AllSpace(CellStr(c))
  {
    CleanTextKeepsText(c);
    NonSpaceEmpty(CellStr(c));
    if CleanText(c) != [] {
      TrimmedNonSpace(CleanText(c));
    }
  }

  /** An empty cell reads as "nan". */
  lemma StrippedMissing()
    ensures Stripped(Missing) == "nan"
  {
    StripSurrounded([], "nan", []);
    assert [] + "nan" + [] == "nan";
  }

  /** A cell strips to "" exactly when its text is all whitespace. */
  lemma StrippedBlank(c: Cell)
    ensures Stripped(c) == "" <==> AllSpace(CellStr(c))
  {
    var s := CellStr(c);
    StripKeepsNonSpace(s);
    NonSpaceEmpty(s);
    StripEnds(s);
    if Strip(s) != [] {
      TrimmedNonSpace(Strip(s));
    }
  }

  lemma {:induction false} CollapseKeepsCollapsed(s: string)
    requires SpacesCollapsed(s)
    ensures Collapse(s) == s
    decreases |s|
  {
    if s != [] {
      assert SpacesCollapsed(s[1..]);
      if IsSpace(s[0]) {
        assert LStrip(s) == s[1..] by {
          assert s == [s[0]] + s[1..];
          LStripPastSpace([s[0]], s[1..]);
        }
      }
      CollapseKeepsCollapsed(s[1..]);
    }
  }

  lemma CleanOfClean(x: string)
    requires Trimmed(x) && SpacesCollapsed(x)
    ensures Clean(x) == x
  {
    assert ReplaceNewlines(x) == x;
    CollapseKeepsCollapsed(x);
    StripSurrounded("", x, "");
    assert "" + x + "" == x;
  }

  /** Cleaning a cleaned text changes nothing. */
  lemma CleanTextIdempotent(c: Cell)
    ensures CleanText(Text(CleanText(c))) == CleanText(c)
  {
    CleanOfClean(CleanText(c));
  }

  /** Whitespace between two words becomes exactly one space, and whitespace around them goes:
      however long the runs are and whichever whitespace characters (newlines included) they
      hold, the cleaned text is the first word cleaned, one space, and the second word cleaned. */
  lemma CleanJoinsWords(w1: string, a: string, w: string, b: string, w2: string)
    requires AllSpace(w1) && AllSpace(w) && AllSpace(w2) && w != []
    requires a != [] && Trimmed(a) && b != [] && Trimmed(b)
    ensures CleanText(Text(w1 + a + w + b + w2)) == CleanText(Text(a)) + " " + CleanText(Text(b))
  {
    CleanJoin(w1, a, w, b, w2);
  }

  lemma CleanJoin(w1: string, a: string, w: string, b: string, w2: string)
    requires AllSpace(w1) && AllSpace(w) && AllSpace(w2) && w != []
    requires a != [] && Trimmed(a) && b != [] && Trimmed(b)
    ensures Clean(w1 + a + w + b + w2) == Clean(a) + " " + Clean(b)
  {
    ReplaceNewlinesJoin(w1, a, w, b, w2);
    ReplaceNewlinesShape(w1);
    ReplaceNewlinesShape(w);
    ReplaceNewlinesShape(w2);
    ReplaceNewlinesShape(a);
    ReplaceNewlinesShape(b);
    StripCollapseJoin(ReplaceNewlines(w1), ReplaceNewlines(a), ReplaceNewlines(w),
                      ReplaceNewlines(b), ReplaceNewlines(w2));
    CleanWord(a);
    CleanWord(b);
  }

  /** Collapsing, then stripping, two words with whitespace around and between them. */
  lemma StripCollapseJoin(W1: string, A: string, W: string, B: string, W2: string)
    requires AllSpace(W1) && AllSpace(W) && AllSpace(W2) && W != []
    requires A != [] && Trimmed(A) && B != [] && Trimmed(B)
    ensures Strip(Collapse(W1 + (A + (W + (B + W2))))) == Collapse(A) + " " + Collapse(B)
  {
    CollapseJoin(W1, A, W, B, W2);
    CollapseTrimmed(A);
    CollapseTrimmed(B);
    CollapseSpace(W1);
    CollapseSpace(W2);
    CleanWords(Collapse(W1), Collapse(A), Collapse(B), Collapse(W2));
  }

  /** Cleaning a word with no surrounding whitespace only collapses its inner runs. */
  lemma CleanWord(a: string)
    requires a != [] && Trimmed(a)
    ensures Clean(a) == Collapse(ReplaceNewlines(a))
    ensures Clean(a) != [] && Trimmed(Clean(a))
  {
    ReplaceNewlinesKeeps(a);
    var ca := Collapse(ReplaceNewlines(a));
    CollapseTrimmed(ReplaceNewlines(a));
    StripSurrounded("", ca, "");
    assert "" + ca + "" == ca;
  }

  /** Stripping two collapsed words with (collapsed) whitespace around them. */
  lemma CleanWords(lead: string, ca: string, cb: string, trail: string)
    requires AllSpace(lead) && AllSpace(trail)
    requires ca != [] && Trimmed(ca) && cb != [] && Trimmed(cb)
    ensures Strip(lead + (ca + " " + cb) + trail) == ca + " " + cb
  {
    var mid := ca + " " + cb;
    assert mid[0] == ca[0] && mid[|mid| - 1] == cb[|cb| - 1];
    StripSurrounded(lead, mid, trail);
  }

  /** `ReplaceNewlines` changes only newlines, into spaces: it keeps whitespace whitespace and
      leaves every other character in place. */
  lemma ReplaceNewlinesKeeps(x: string)
    ensures |ReplaceNewlines(x)| == |x|
    ensures forall i :: 0 <= i < |x| ==> (IsSpace(ReplaceNewlines(x)[i]) <==> IsSpace(x[i]))
    ensures forall i :: 0 <= i < |x| && !IsSpace(x[i]) ==> ReplaceNewlines(x)[i] == x[i]
    ensures AllSpace(x) ==> AllSpace(ReplaceNewlines(x))
    ensures Trimmed(x) ==> Trimmed(ReplaceNewlines(x))
  {
  }

  lemma ReplaceNewlinesShape(x: string)
    ensures |ReplaceNewlines(x)| == |x|
    ensures AllSpace(x) ==> AllSpace(ReplaceNewlines(x))
    ensures Trimmed(x) ==> Trimmed(ReplaceNewlines(x))
  {
    ReplaceNewlinesKeeps(x);
  }

  lemma ReplaceNewlinesAppend(x: string, y: string)
    ensures ReplaceNewlines(x + y) == ReplaceNewlines(x) + ReplaceNewlines(y)
  {
    assert forall i :: 0 <= i < |x| ==> (x + y)[i] == x[i];
    assert forall i :: |x| <= i < |x + y| ==> (x + y)[i] == y[i - |x|];
  }

  lemma ReplaceNewlinesJoin(a: string, b: string, c: string, d: string, e: string)
    ensures ReplaceNewlines(a + b + c + d + e) ==
      ReplaceNewlines(a) + (ReplaceNewlines(b) + (ReplaceNewlines(c) + (ReplaceNewlines(d) + ReplaceNewlines(e))))
  {
    assert a + b + c + d + e == a + (b + (c + (d + e)));
    ReplaceNewlinesAppend(a, b + (c + (d + e)));
    ReplaceNewlinesAppend(b, c + (d + e));
    ReplaceNewlinesAppend(c, d + e);
    ReplaceNewlinesAppend(d, e);
  }

  /** Collapsing a text that ends in a non-whitespace character does not reach past it. */
  lemma {:induction false} CollapseAppend(x: string, y: string)
    requires x == [] || !IsSpace(x[|x| - 1])
    ensures Collapse(x + y) == Collapse(x) + Collapse(y)
    decreases |x|
  {
    if x == [] {
      assert x + y == y;
    } else {
      assert (x + y)[0] == x[0];
      if IsSpace(x[0]) {
        var l := LStrip(x);
        LStripAppend(x, y);
        assert |l| < |x| && l != [] && l[|l| - 1] == x[|x| - 1] by { LStripSplit(x); }
        CollapseAppend(l, y);
        assert Collapse(x + y) == [' '] + Collapse(l + y);
        Assoc([' '], Collapse(l), Collapse(y));
      } else {
        var t := x[1..];
        assert (x + y)[1..] == t + y;
        CollapseAppend(t, y);
        assert Collapse(x + y) == [x[0]] + Collapse(t + y);
        Assoc([x[0]], Collapse(t), Collapse(y));
      }
    }
  }

  /** The whitespace `LStrip` removes lies before the last, non-whitespace, character. */
  lemma {:induction false} LStripAppend(x: string, y: string)
    requires x != [] && !IsSpace(x[|x| - 1])
    ensures LStrip(x + y) == LStrip(x) + y
    decreases |x|
  {
    if IsSpace(x[0]) {
      assert (x + y)[1..] == x[1..] + y;
      LStripAppend(x[1..], y);
    }
  }

  /** A non-empty run of whitespace collapses to one space, an empty one to nothing. */
  lemma CollapseSpace(w: string)
    requires AllSpace(w)
    ensures Collapse(w) == if w == [] then [] else [' ']
  {
    if w != [] {
      LStripPastSpace(w, []);
      assert w + [] == w;
    }
  }

  /** Collapsing keeps a text's first and last characters when they are not whitespace. */
  lemma CollapseTrimmed(x: string)
    requires x != [] && Trimmed(x)
    ensures Collapse(x) != [] && Trimmed(Collapse(x))
    ensures Collapse(x)[0] == x[0] && Collapse(x)[|Collapse(x)| - 1] == x[|x| - 1]
  {
    CollapseLast(x);
  }

  lemma {:induction false} CollapseLast(x: string)
    requires x != [] && !IsSpace(x[|x| - 1])
    ensures Collapse(x) != [] && Collapse(x)[|Collapse(x)| - 1] == x[|x| - 1]
    ensures !IsSpace(x[0]) ==> Collapse(x)[0] == x[0]
    decreases |x|
  {
    if IsSpace(x[0]) {
      var l := LStrip(x);
      assert |l| < |x| && l != [] && l[|l| - 1] == x[|x| - 1] by { LStripSplit(x); }
      CollapseLast(l);
      var cl := Collapse(l);
      assert Collapse(x) == [' '] + cl;
      assert Collapse(x)[|Collapse(x)| - 1] == cl[|cl| - 1];
    } else if |x| > 1 {
      var t := x[1..];
      assert t[|t| - 1] == x[|x| - 1];
      CollapseLast(t);
      var ct := Collapse(t);
      assert Collapse(x) == [x[0]] + ct;
      assert Collapse(x)[|Collapse(x)| - 1] == ct[|ct| - 1];
    } else {
      assert x[1..] == [];
      assert Collapse(x) == [x[0]];
    }
  }

  /** Collapsing two words with whitespace around and between them. */
  lemma CollapseJoin(W1: string, A: string, W: string, B: string, W2: string)
    requires AllSpace(W1) && AllSpace(W) && AllSpace(W2) && W != []
    requires A != [] && Trimmed(A) && B != [] && Trimmed(B)
    ensures Collapse(W1 + (A + (W + (B + W2)))) == Collapse(W1) + (Collapse(A) + " " + Collapse(B)) + Collapse(W2)
  {
    var r3 := B + W2;
    var r2 := W + r3;
    var r := A + r2;
    CollapseAfterSpace(W1, r);
    CollapseAppend(A, r2);
    CollapseAfterSpace(W, r3);
    CollapseSpace(W);
    CollapseAppend(B, W2);
    Regroup(Collapse(W1), Collapse(A), " ", Collapse(B), Collapse(W2));
  }

  lemma Regroup(p: string, q: string, s: string, t: string, u: string)
    ensures p + (q + (s + (t + u))) == p + (q + s + t) + u
  {
  }

  /** A run of whitespace collapses apart from the word after it. */
  lemma CollapseAfterSpace(w: string, t: string)
    requires AllSpace(w)
    requires t == [] || !IsSpace(t[0])
    ensures Collapse(w + t) == Collapse(w) + Collapse(t)
  {
    if w == [] {
      assert w + t == t;
    } else {
      LStripPastSpace(w, t);
      CollapseSpace(w);
    }
  }

  // ---------------------------------------------------------------- _parse_temp_f

  datatype TempUnit = Celsius | Fahrenheit

  /** A decimal numeral as read from the text: its sign, integer digits and fraction digits. */
  datatype Decimal = Decimal(negative: bool, whole: string, fraction: string)

  /** The integer part is one or more digits and the fraction is digits (none without a point). */
  predicate IsNumeral(d: Decimal) {
    |d.whole| > 0 && AllDigits(d.whole) && AllDigits(d.fraction)
  }

  function Pow10(k: nat): (p: nat)
    ensures p > 0
  {
    if k == 0 then 1 else 10 * Pow10(k - 1)
  }

  /** The value of the digits after a decimal point ("" has value 0). */
  function FractionValue(f: string): real
    requires AllDigits(f)
  {
    (DigitsValue(f) as real) / (Pow10(|f|) as real)
  }

  /** The number a decimal numeral denotes. */
  function DecimalValue(d: Decimal): real
    requires IsNumeral(d)
  {
    var v := (DigitsValue(d.whole) as real) + FractionValue(d.fraction);
    if d.negative then -v else v
  }

  /** Whether `t` starts with a minus sign, and the text after it. */
  function SignOf(t: string): (bool, string) {
    if |t| > 0 && t[0] == '-' then (true, t[1..]) else (false, t)
  }

  /** The optional fraction `(\.\d+)?` at the start of `rest`: its digits and the text after it. */
  function ReadFraction(rest: string): (r: (string, string))
    ensures AllDigits(r.0)
  {
    if |rest| >= 2 && rest[0] == '.' && IsDigit(rest[1]) then
      var f := DigitPrefix(rest[1..]);
      (f, rest[1 + |f|..])
    else ("", rest)
  }

  /** The numeral `-?\d+(\.\d+)?` at the start of `t`, and the text after it. */
  function LeadingNumber(t: string): (r: Option<(Decimal, string)>)
    ensures r.Some? ==> IsNumeral(r.value.0)
  {
    var (neg, u) := SignOf(t);
    var d := DigitPrefix(u);
    if |d| == 0 then None
    else
      var (f, tail) := ReadFraction(u[|d|..]);
      Some((Decimal(neg, d, f), tail))
  }

  /** The unit named by a text: "Celsius" or "Fahrenheit" in any case. */
  function UnitOf(u: string): Option<TempUnit> {
    if LowerAscii(u) == "celsius" then Some(Celsius)
    else if LowerAscii(u) == "fahrenheit" then Some(Fahrenheit)
    else None
  }

  /** The numeral and unit of a stripped text of the form numeral, optional whitespace, unit. */
  function ReadTemperature(t: string): (r: Option<(Decimal, TempUnit)>)
    ensures r.Some? ==> IsNumeral(r.value.0)
  {
    match LeadingNumber(t)
    case None => None
    case Some((v, tail)) =>
      match UnitOf(LStrip(tail))
      case None => None
      case Some(unit) => Some((v, unit))
  }

  /** A temperature in degrees Fahrenheit. */
  function ToFahrenheit(v: real, unit: TempUnit): real {
    if unit == Fahrenheit then v else v * 9.0 / 5.0 + 32.0
  }

  /** `_parse_temp_f`: a temperature in degrees Fahrenheit, or None when the cell is empty,
      has no unit or does not have the numeral-then-unit form. */
  function ParseTempF(c: Cell): Option<real> {
    if c.Missing? then None
    else
      var t := Strip(CellStr(c));
      if t == "" then None
      else match ReadTemperature(t)
        case None => None
        case Some((v, unit)) => Some(ToFahrenheit(DecimalValue(v), unit))
  }

  /** The text of a decimal numeral: optional '-', the integer part, and '.' and the fraction
      digits when there are any. */
  function NumberText(d: Decimal): string {
    (if d.negative then "-" else "") + d.whole + FractionText(d.fraction)
  }

  function FractionText(f: string): string {
    if f == "" then "" else "." + f
  }

  lemma ReadFractionOf(f: string, tail: string)
    requires AllDigits(f)
    requires tail == [] || (!IsDigit(tail[0]) && tail[0] != '.')
    ensures ReadFraction(FractionText(f) + tail) == (f, tail)
  {
    if f == "" {
      assert FractionText(f) + tail == tail;
    } else {
      var rest := "." + f + tail;
      assert rest[1..] == f + tail;
      DigitPrefixOf(f, tail);
      assert rest[1 + |f|..] == tail;
    }
  }

  lemma LeadingNumberParts(t: string, neg: bool, d: string, rest: string)
    requires |d| > 0 && AllDigits(d)
    requires SignOf(t) == (neg, d + rest)
    requires DigitPrefix(d + rest) == d
    requires (d + rest)[|d|..] == rest
    ensures LeadingNumber(t) == Some((Decimal(neg, d, ReadFraction(rest).0), ReadFraction(rest).1))
  {
  }

  lemma LeadingNumberSplit(t: string, neg: bool, d: string, rest: string)
    requires |d| > 0 && AllDigits(d)
    requires rest == [] || !IsDigit(rest[0])
    requires t == (if neg then "-" else "") + d + rest
    ensures SignOf(t) == (neg, d + rest)
    ensures DigitPrefix(d + rest) == d
    ensures (d + rest)[|d|..] == rest
  {
    var u := d + rest;
    assert t == (if neg then "-" else "") + u;
    assert u[0] == d[0];
    if neg {
      SignNeg(u);
    } else {
      assert "" + u == u;
      SignPos(u);
    }
    DigitPrefixOf(d, rest);
    assert u[|d|..] == rest;
  }

  lemma SignNeg(u: string)
    ensures SignOf("-" + u) == (true, u)
  {
    assert ("-" + u)[1..] == u;
  }

  lemma SignPos(u: string)
    requires |u| > 0 && IsDigit(u[0])
    ensures SignOf(u) == (false, u)
  {
  }

  /** A numeral followed by text that does not continue it is read back as that numeral. */
  lemma LeadingNumberOf(v: Decimal, tail: string)
    requires IsNumeral(v)
    requires tail == [] || (!IsDigit(tail[0]) && tail[0] != '.')
    ensures LeadingNumber(NumberText(v) + tail) == Some((v, tail))
  {
    var d := v.whole;
    var rest := FractionText(v.fraction) + tail;
    assert NumberText(v) + tail == (if v.negative then "-" else "") + d + rest;
    assert rest == [] || !IsDigit(rest[0]);
    LeadingNumberSplit(NumberText(v) + tail, v.negative, d, rest);
    LeadingNumberParts(NumberText(v) + tail, v.negative, d, rest);
    ReadFractionOf(v.fraction, tail);
  }

  lemma UnitOfShape(u: string)
    requires UnitOf(u).Some?
    ensures |u| > 0 && !IsSpace(u[0]) && !IsSpace(u[|u| - 1]) && !IsDigit(u[0]) && u[0] != '.'
  {
    assert LowerAscii(u)[0] == 'c' || LowerAscii(u)[0] == 'f';
    assert LowerAscii(u)[|u| - 1] == 's' || LowerAscii(u)[|u| - 1] == 't';
  }

  lemma NumberTextStart(v: Decimal)
    requires IsNumeral(v)
    ensures var t := NumberText(v); |t| > 0 && !IsSpace(t[0])
  {
    var t := NumberText(v);
    assert t[0] == if v.negative then '-' else v.whole[0];
  }

  /** A numeral, optional whitespace and a unit word is read as that numeral and unit. */
  lemma ReadTemperatureOf(v: Decimal, w: string, u: string)
    requires IsNumeral(v) && AllSpace(w)
    requires UnitOf(u).Some?
    ensures ReadTemperature(NumberText(v) + (w + u)) == Some((v, UnitOf(u).value))
  {
    UnitOfShape(u);
    var tail := w + u;
    assert tail[0] == if w == [] then u[0] else w[0];
    LeadingNumberOf(v, tail);
    LStripPastSpace(w, u);
  }

  lemma ParseTempFOf(s: string, t: string, v: Decimal, unit: TempUnit)
    requires Strip(s) == t && t != ""
    requires ReadTemperature(t) == Some((v, unit))
    ensures ParseTempF(Text(s)) == Some(ToFahrenheit(DecimalValue(v), unit))
  {
  }

  /** A numeral, optional whitespace and a unit word (in any case) is read as that temperature,
      converted from Celsius when the unit is Celsius; padding around it is ignored. */
  lemma ParseTempFReads(v: Decimal, w: string, u: string, w1: string, w2: string)
    requires IsNumeral(v) && AllSpace(w) && AllSpace(w1) && AllSpace(w2)
    requires UnitOf(u).Some?
    ensures var x := DecimalValue(v);
            ParseTempF(Text(w1 + NumberText(v) + w + u + w2)) ==
            Some(if UnitOf(u) == Some(Fahrenheit) then x else x * 9.0 / 5.0 + 32.0)
  {
    var num := NumberText(v);
    var t := num + (w + u);
    UnitOfShape(u);
    NumberTextStart(v);
    assert t[0] == num[0] && t[|t| - 1] == u[|u| - 1];
    var s := w1 + num + w + u + w2;
    assert s == w1 + t + w2;
    StripSurrounded(w1, t, w2);
    ReadTemperatureOf(v, w, u);
    ParseTempFOf(s, t, v, UnitOf(u).value);
  }

  /** A bare number without a unit, such as "42" or "42.5" however padded, or an integer cell,
      gives no temperature. */
  lemma ParseTempFBareNumber(v: Decimal, w1: string, w2: string, n: int)
    requires IsNumeral(v) && AllSpace(w1) && AllSpace(w2)
    ensures ParseTempF(Text(w1 + NumberText(v) + w2)) == None
    ensures ParseTempF(IntCell(n)) == None
  {
    var t := NumberText(v);
    NumberTextEnds(v);
    StripSurrounded(w1, t, w2);
    assert t + "" == t;
    LeadingNumberOf(v, "");
    UnitlessText(Text(w1 + t + w2), t, v);
    IntCellNumber(n);
  }

  lemma IntCellNumber(n: int)
    ensures ParseTempF(IntCell(n)) == None
  {
    var t := IntToString(n);
    IntToStringShape(n);
    StripSurrounded("", t, "");
    assert "" + t + "" == t;
    NatToStringValue(Abs(n));
    var v := Decimal(n < 0, NatToString(Abs(n)), "");
    assert t == NumberText(v) + "";
    LeadingNumberOf(v, "");
    UnitlessText(IntCell(n), t, v);
  }

  /** A numeral starts with a sign or a digit and ends with a digit. */
  lemma NumberTextEnds(v: Decimal)
    requires IsNumeral(v)
    ensures var t := NumberText(v); |t| > 0 && !IsSpace(t[0]) && IsDigit(t[|t| - 1])
  {
    NumberTextStart(v);
    var t := NumberText(v);
    var w := v.whole;
    if v.fraction == "" {
      assert t[|t| - 1] == w[|w| - 1];
    } else {
      assert t[|t| - 1] == v.fraction[|v.fraction| - 1];
    }
  }

  /** A cell whose stripped text is a numeral with nothing after it has no unit. */
  lemma UnitlessText(c: Cell, t: string, v: Decimal)
    requires !c.Missing? && t != "" && Strip(CellStr(c)) == t
    requires LeadingNumber(t) == Some((v, ""))
    ensures ParseTempF(c) == None
  {
    assert LowerAscii(LStrip("")) == "";
  }

  /** The Celsius conversion is strictly increasing, and is undone by `(f - 32) * 5 / 9`. */
  lemma ToFahrenheitIncreasing(x: real, y: real, unit: TempUnit)
    ensures x < y ==> ToFahrenheit(x, unit) < ToFahrenheit(y, unit)
    ensures (ToFahrenheit(x, Celsius) - 32.0) * 5.0 / 9.0 == x
  {
  }

  // ---------------------------------------------------------------- float()

  /** The exponent `[eE][+-]?\d+`, or nothing. */
  predicate IsExponent(x: string) {
    || x == []
    || (&& |x| >= 2 && (x[0] == 'e' || x[0] == 'E')
        && var y := if x[1] == '+' || x[1] == '-' then x[2..] else x[1..];
           |y| > 0 && AllDigits(y))
  }

  /** The length of the mantissa `\d+(\.\d*)?` or `\.\d+` at the start of `u`; 0 when there is none. */
  function MantissaLen(u: string): (n: nat)
    ensures n <= |u|
  {
    var d := DigitPrefix(u);
    if |d| < |u| && u[|d|] == '.' then
      var f := DigitPrefix(u[|d| + 1..]);
      if |d| + |f| > 0 then |d| + 1 + |f| else 0
    else |d|
  }

  /** Python's `float()` accepts the text: after stripping whitespace, an optional sign and
      then "inf", "infinity" or "nan" in any case, or a mantissa with an optional exponent. */
  predicate IsFloatText(s: string) {
    IsFloatLiteral(Strip(s))
  }

  predicate IsFloatLiteral(t: string) {
    var u := if |t| > 0 && (t[0] == '-' || t[0] == '+') then t[1..] else t;
    var l := LowerAscii(u);
    || l == "inf" || l == "infinity" || l == "nan"
    || (MantissaLen(u) > 0 && IsExponent(u[MantissaLen(u)..]))
  }

  /** Python's `float()` on a cell value, as a check: the cell when it is accepted. A number
      cell and NaN are always accepted. */
  function FloatOf(c: Cell): (r: Result<Cell>)
    ensures r.Ok? ==> r.value == c
    ensures r.Err? <==> c.Text? && !IsFloatText(c.s)
  {
    match c
    case Text(s) => if IsFloatText(s) then Ok(c) else Err(NotAFloat(s))
    case _ => Ok(c)
  }

  /** `float()` accepts a decimal numeral however padded, such as " 12.5 " or "-3". */
  lemma FloatOfNumber(v: Decimal, w1: string, w2: string)
    requires IsNumeral(v) && AllSpace(w1) && AllSpace(w2)
    ensures IsFloatText(w1 + NumberText(v) + w2)
  {
    var t := NumberText(v);
    NumberTextEnds(v);
    StripSurrounded(w1, t, w2);
    NumberIsFloatLiteral(v);
  }

  lemma NumberIsFloatLiteral(v: Decimal)
    requires IsNumeral(v)
    ensures IsFloatLiteral(NumberText(v))
  {
    var t := NumberText(v);
    var u := v.whole + FractionText(v.fraction);
    assert t == (if v.negative then "-" else "") + u;
    assert u[0] == v.whole[0];
    MantissaOfNumber(v.whole, v.fraction);
    if v.negative {
      assert t[1..] == u;
    } else {
      assert t == u;
    }
    MantissaLiteral(t, u);
  }

  lemma MantissaLiteral(t: string, u: string)
    requires u == if |t| > 0 && (t[0] == '-' || t[0] == '+') then t[1..] else t
    requires MantissaLen(u) == |u| && |u| > 0
    ensures IsFloatLiteral(t)
  {
    assert u[|u|..] == [];
  }

  lemma MantissaOfNumber(d: string, f: string)
    requires |d| > 0 && AllDigits(d) && AllDigits(f)
    ensures MantissaLen(d + FractionText(f)) == |d + FractionText(f)|
  {
    var u := d + FractionText(f);
    if f == "" {
      assert u == d + [];
      DigitPrefixOf(d, []);
    } else {
      assert u == d + ("." + f);
      DigitPrefixOf(d, "." + f);
      assert u[|d|..] == "." + f;
      assert f + [] == f;
      DigitPrefixOf(f, []);
      MantissaWithPoint(u, d, f);
    }
  }

  lemma MantissaWithPoint(u: string, d: string, f: string)
    requires DigitPrefix(u) == d && |d| < |u| && u[|d|..] == "." + f && DigitPrefix(f) == f && |d| > 0
    ensures MantissaLen(u) == |d| + 1 + |f|
  {
    assert u[|d|] == '.';
    assert u[|d| + 1..] == f;
  }

  /** `float()` refuses a word that is not a number, such as "n/a hrs": a text that does not
      start with a sign, a digit or a point and is not "inf", "infinity" or "nan". */
  lemma FloatRefusesWord(t: string, w1: string, w2: string)
    requires AllSpace(w1) && AllSpace(w2)
    requires |t| > 0 && !IsSpace(t[0]) && !IsSpace(t[|t| - 1])
    requires !IsDigit(t[0]) && t[0] != '.' && t[0] != '-' && t[0] != '+'
    requires LowerAscii(t) != "inf" && LowerAscii(t) != "infinity" && LowerAscii(t) != "nan"
    ensures !IsFloatText(w1 + t + w2)
  {
    StripSurrounded(w1, t, w2);
    assert DigitPrefix(t) == [];
  }

  lemma HoursNotANumber()
    ensures !IsFloatText("n/a hrs")
  {
    var t := "n/a hrs";
    assert |LowerAscii(t)| == 7;
    FloatRefusesWord(t, "", "");
    assert "" + t + "" == t;
  }

  // ---------------------------------------------------------------- int()

  /** Python's `int()` on a string: surrounding whitespace, an optional sign, then digits. */
  function PyIntText(s: string): (r: Result<int>)
    ensures r.Err? ==> r.error == NotAnInteger(s)
  {
    var t := Strip(s);
    var u := if |t| > 0 && (t[0] == '-' || t[0] == '+') then t[1..] else t;
    var v: int := if |u| > 0 && AllDigits(u) then DigitsValue(u) else 0;
    if |u| > 0 && AllDigits(u) then Ok(if t[0] == '-' then -v else v)
    else Err(NotAnInteger(s))
  }

  /** Python's `int()` on a cell value. */
  function IntOf(c: Cell): (r: Result<int>)
    ensures r.Err? ==> r.error.NotAnInteger?
  {
    match c
    case Missing => Err(NotAnInteger("nan"))
    case IntCell(n) => Ok(n)
    case Text(s) => PyIntText(s)
  }

  /** `int()` reads back a padded numeral, and refuses a blank text. */
  lemma PyIntTextNumeral(n: int, w1: string, w2: string)
    requires AllSpace(w1) && AllSpace(w2)
    ensures PyIntText(w1 + IntToString(n) + w2) == Ok(n)
    ensures PyIntText(w1 + w2).Err?
  {
    IntToStringShape(n);
    StripSurrounded(w1, IntToString(n), w2);
    StripSurrounded(w1, "", w2);
    assert w1 + "" + w2 == w1 + w2;
  }
}
