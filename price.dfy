/**
 * The price text the display shows: a dollar sign and the whole-dollar amount
 * in decimal, its digits grouped in threes by commas ("$67,845").
 */
module PriceFormat {
  import opened Glyphs

  predicate IsDigit(ch: char) {
    '0' <= ch <= '9'
  }

  predicate AllDigits(s: string) {
    forall k :: 0 <= k < |s| ==> IsDigit(s[k])
  }

  function DigitChar(d: nat): (ch: char)
    requires d < 10
    ensures IsDigit(ch)
  {
    ('0' as int + d) as char
  }

  function DigitValue(ch: char): (d: nat)
    requires IsDigit(ch)
    ensures d < 10 && DigitChar(d) == ch
  {
    ch as int - '0' as int
  }

  /** The decimal representation of `v`: most significant digit first, no leading zero. */
  function DecimalDigits(v: nat): (s: string)
    ensures 1 <= |s| && AllDigits(s)
    ensures s[0] == '0' <==> v == 0
    ensures v == 0 ==> s == "0"
    decreases v
  {
    if v < 10 then [DigitChar(v)] else DecimalDigits(v / 10) + [DigitChar(v % 10)]
  }

  /** The number a string of decimal digits denotes, most significant digit first. */
  function ValueOf(s: string): nat
    requires AllDigits(s)
  {
    if s == [] then 0 else ValueOf(s[..|s| - 1]) * 10 + DigitValue(s[|s| - 1])
  }

  /** Reading the decimal representation back gives the number. */
  lemma {:induction false} DecimalDigitsRoundTrip(v: nat)
    ensures ValueOf(DecimalDigits(v)) == v
    decreases v
  {
    var s := DecimalDigits(v);
    if v >= 10 {
      DecimalDigitsRoundTrip(v / 10);
      assert s[..|s| - 1] == DecimalDigits(v / 10);
    }
  }

  /** A digit string that does not start with '0' denotes a positive number. */
  lemma {:induction false} LeadingDigitPositive(s: string)
    requires AllDigits(s) && |s| >= 1 && s[0] != '0'
    ensures ValueOf(s) >= 1
  {
    if |s| > 1 {
      LeadingDigitPositive(s[..|s| - 1]);
    }
  }

  /** Every digit string without a leading zero is the decimal representation of its value. */
  lemma {:induction false} DecimalDigitsCanonical(s: string)
    requires AllDigits(s) && |s| >= 1 && (s[0] == '0' ==> |s| == 1)
    ensures DecimalDigits(ValueOf(s)) == s
  {
    if |s| > 1 {
      var front := s[..|s| - 1];
      LeadingDigitPositive(front);
      DecimalDigitsCanonical(front);
      var v := ValueOf(s);
      assert v / 10 == ValueOf(front) && v % 10 == DigitValue(s[|s| - 1]);
    }
  }

  /** `s` with every comma removed. */
  function StripCommas(s: string): (t: string)
    ensures |t| <= |s| && ',' !in t
  {
    if s == [] then []
    else StripCommas(s[..|s| - 1]) + (if s[|s| - 1] == ',' then [] else [s[|s| - 1]])
  }

  /** A comma before every group of three digits counted from the right. */
  function GroupThousands(s: string): (g: string)
    ensures |g| >= |s|
    ensures |s| >= 1 ==> g[0] == s[0]
    ensures |s| >= 1 ==> g[|g| - 1] == s[|s| - 1]
  {
    if |s| <= 3 then s else GroupThousands(s[..|s| - 3]) + [','] + s[|s| - 3..]
  }

  /** The display text for a non-negative whole-dollar amount. */
  function FormatPriceInt(v: nat): (out: string)
    ensures |out| >= 2 && out[0] == '$'
    ensures IsDigit(out[1]) && IsDigit(out[|out| - 1])
    ensures out[1] == '0' <==> v == 0
  {
    "$" + GroupThousands(DecimalDigits(v))
  }

  /** Removing commas works piece by piece. */
  lemma {:induction false} StripCommasAppend(a: string, b: string)
    ensures StripCommas(a + b) == StripCommas(a) + StripCommas(b)
  {
    if b == [] {
      assert a + b == a;
    } else {
      var n := |b| - 1;
      var last := if b[n] == ',' then [] else [b[n]];
      assert (a + b)[..|a + b| - 1] == a + b[..n];
      assert (a + b)[|a + b| - 1] == b[n];
      assert StripCommas(a + b) == StripCommas(a + b[..n]) + last;
      assert StripCommas(b) == StripCommas(b[..n]) + last;
      StripCommasAppend(a, b[..n]);
    }
  }

  lemma {:induction false} StripCommasOfDigits(s: string)
    requires AllDigits(s)
    ensures StripCommas(s) == s
  {
    if s != [] {
      StripCommasOfDigits(s[..|s| - 1]);
    }
  }

  /** Grouping adds one comma per full group of three after the first group. */
  lemma {:induction false} GroupThousandsLength(s: string)
    requires |s| >= 1
    ensures |GroupThousands(s)| == |s| + (|s| - 1) / 3
  {
    if |s| > 3 {
      GroupThousandsLength(s[..|s| - 3]);
    }
  }

  /** Counted from the end of `g`, every fourth position is a comma and every other one a digit. */
  predicate CommasFromEnd(g: string) {
    forall k :: 0 <= k < |g| ==> (g[k] == ',' <==> (|g| - k) % 4 == 0) && (g[k] != ',' ==> IsDigit(g[k]))
  }

  /**
   * Read from the start, `g` is a first group of one to three digits, then
   * groups of a comma and exactly three digits.
   */
  predicate GroupedFromStart(g: string) {
    var first := |g| % 4;
    1 <= first <= 3 &&
    (forall k :: 0 <= k < first ==> IsDigit(g[k])) &&
    (forall k :: first <= k < |g| ==> (g[k] == ',' <==> (k - first) % 4 == 0)) &&
    (forall k :: 0 <= k < |g| && g[k] != ',' ==> IsDigit(g[k]))
  }

  /** Prepending a group of a comma and three digits keeps the pattern counted from the end. */
  lemma CommasFromEndExtend(h: string, back: string)
    requires CommasFromEnd(h) && |back| == 3 && AllDigits(back)
    ensures CommasFromEnd(h + [','] + back)
  {
    var g := h + [','] + back;
    forall k | 0 <= k < |g|
      ensures (g[k] == ',' <==> (|g| - k) % 4 == 0) && (g[k] != ',' ==> IsDigit(g[k]))
    {
      if k < |h| {
        assert g[k] == h[k];
        assert |g| - k == (|h| - k) + 4;
      } else if k == |h| {
        assert g[k] == ',';
      } else {
        assert g[k] == back[k - |h| - 1];
      }
    }
  }

  /** Grouping a run of digits puts a comma exactly where the distance to the end is a multiple of four. */
  lemma {:induction false} GroupThousandsCommas(s: string)
    requires AllDigits(s)
    ensures CommasFromEnd(GroupThousands(s))
  {
    if |s| > 3 {
      var front, back := s[..|s| - 3], s[|s| - 3..];
      AllDigitsSplit(s, |s| - 3);
      GroupThousandsCommas(front);
      CommasFromEndExtend(GroupThousands(front), back);
    }
  }

  /** Removing the commas from a grouped run of digits gives the digits back. */
  lemma {:induction false} GroupThousandsStrip(s: string)
    requires AllDigits(s)
    ensures StripCommas(GroupThousands(s)) == s
  {
    if |s| <= 3 {
      StripCommasOfDigits(s);
    } else {
      var front, back := s[..|s| - 3], s[|s| - 3..];
      AllDigitsSplit(s, |s| - 3);
      GroupThousandsStrip(front);
      StripCommasAroundComma(GroupThousands(front), back);
      assert s == front + back;
    }
  }

  /** A comma between a string and a run of digits disappears when the commas are removed. */
  lemma StripCommasAroundComma(h: string, back: string)
    requires AllDigits(back)
    ensures StripCommas(h + [','] + back) == StripCommas(h) + back
  {
    var hc := h + [','];
    assert StripCommas([',']) == [] by {
      assert [','][..0] == [];
    }
    StripCommasAppend(h, [',']);
    assert StripCommas(hc) == StripCommas(h);
    StripCommasOfDigits(back);
    StripCommasAppend(hc, back);
  }

  /** Both pieces of a run of digits are runs of digits. */
  lemma AllDigitsSplit(s: string, i: nat)
    requires AllDigits(s) && i <= |s|
    ensures AllDigits(s[..i]) && AllDigits(s[i..])
  {
    forall k | 0 <= k < |s[i..]| ensures IsDigit(s[i..][k]) {
      assert s[i..][k] == s[i + k];
    }
  }

  /** A grouped run of `n >= 1` digits never has a length that is a multiple of four. */
  lemma GroupedLengthNotMultipleOfFour(n: nat, len: nat)
    requires n >= 1 && len == n + (n - 1) / 3
    ensures len % 4 != 0
  {
    var q, r := (n - 1) / 3, (n - 1) % 3;
    assert len == 4 * q + r + 1;
  }

  /**
   * In a string of length `len` whose commas sit at the multiples of four from
   * the end, position `k` holds a comma exactly when it is past the first group
   * (of `len % 4` characters) and a multiple of four past its end.
   */
  lemma GroupPosition(len: nat, k: nat)
    requires k < len && len % 4 != 0
    ensures (len - k) % 4 == 0 <==> (k >= len % 4 && (k - len % 4) % 4 == 0)
  {
    var q, f := len / 4, len % 4;
    assert len == 4 * q + f;
    if k < f {
      assert len - k == 4 * q + (f - k);
    } else {
      var a, b := (k - f) / 4, (k - f) % 4;
      assert k - f == 4 * a + b;
      assert len - k == 4 * (q - a - 1) + (4 - b);
    }
  }

  /** The pattern counted from the end, read from the start, when the length is not a multiple of four. */
  lemma CommasFromStart(g: string)
    requires CommasFromEnd(g) && |g| % 4 != 0
    ensures GroupedFromStart(g)
  {
    forall k | 0 <= k < |g|
      ensures (g[k] == ',') <==> (k >= |g| % 4 && (k - |g| % 4) % 4 == 0)
    {
      GroupPosition(|g|, k);
    }
  }

  /**
   * A grouped run of digits is a first group of one to three digits, then
   * groups of a comma and exactly three digits, and the digits come back when
   * the commas are removed.
   */
  lemma GroupThousandsShape(s: string)
    requires AllDigits(s) && |s| >= 1
    ensures GroupedFromStart(GroupThousands(s))
    ensures StripCommas(GroupThousands(s)) == s
  {
    var g := GroupThousands(s);
    GroupThousandsLength(s);
    GroupedLengthNotMultipleOfFour(|s|, |g|);
    GroupThousandsCommas(s);
    CommasFromStart(g);
    GroupThousandsStrip(s);
  }

  /**
   * The price text is "$" followed by a first group of one to three digits and
   * then groups of a comma and three digits; without the "$" and the commas it
   * is the decimal representation of `v`, and reads back as `v`.
   */
  lemma FormatPriceIntShape(v: nat)
    ensures GroupedFromStart(FormatPriceInt(v)[1..])
    ensures StripCommas(FormatPriceInt(v)[1..]) == DecimalDigits(v)
    ensures AllDigits(StripCommas(FormatPriceInt(v)[1..]))
    ensures ValueOf(StripCommas(FormatPriceInt(v)[1..])) == v
  {
    var s := DecimalDigits(v);
    assert FormatPriceInt(v)[1..] == GroupThousands(s);
    GroupThousandsShape(s);
    DecimalDigitsRoundTrip(v);
  }

  /** A decimal digit is one of the characters the font draws. */
  lemma DigitSupported(ch: char)
    requires IsDigit(ch)
    ensures ch in Supported
  {
    var d := DigitValue(ch);
    assert ch == DigitChar(d);
    assert d == 0 || d == 1 || d == 2 || d == 3 || d == 4 || d == 5 || d == 6 || d == 7 || d == 8 || d == 9;
  }

  /** Every character of a price text has a glyph of its own: the renderer never falls back to '0' on it. */
  lemma FormatPriceIntDrawable(v: nat)
    ensures forall k :: 0 <= k < |FormatPriceInt(v)| ==> FormatPriceInt(v)[k] in Supported
  {
    var out := FormatPriceInt(v);
    var g := out[1..];
    FormatPriceIntShape(v);
    forall k | 0 <= k < |out|
      ensures out[k] in Supported
    {
      if k > 0 {
        assert out[k] == g[k - 1];
        if g[k - 1] != ',' {
          DigitSupported(g[k - 1]);
        }
      }
    }
  }

  /** The display text of a five-digit amount, and of zero. */
  lemma FormatPriceIntExamples()
    ensures FormatPriceInt(67845) == "$67,845"
    ensures FormatPriceInt(0) == "$0"
  {
    assert DecimalDigits(6) == "6";
    assert DecimalDigits(67) == "67";
    assert DecimalDigits(678) == "678";
    assert DecimalDigits(6784) == "6784";
    assert DecimalDigits(67845) == "67845";
    assert "67845"[..2] == "67" && "67845"[2..] == "845";
  }

  /** The decimal representation of 1234. */
  lemma DecimalDigitsOf1234()
    ensures DecimalDigits(1234) == "1234"
  {
    assert DecimalDigits(1) == "1";
    assert DecimalDigits(12) == "12";
    assert DecimalDigits(123) == "123";
  }

  /** The decimal representation of 1234568. */
  lemma DecimalDigitsOf1234568()
    ensures DecimalDigits(1234568) == "1234568"
  {
    DecimalDigitsOf1234();
    assert DecimalDigits(12345) == "12345";
    assert DecimalDigits(123456) == "123456";
  }

  /** Grouping "1234568" puts a separator after the millions and after the thousands. */
  lemma GroupThousandsOf1234568()
    ensures GroupThousands("1234568") == "1,234,568"
  {
    assert "1234568"[..4] == "1234" && "1234568"[4..] == "568";
    assert "1234"[..1] == "1" && "1234"[1..] == "234";
    assert GroupThousands("1234") == "1,234";
  }

  /** A seven-digit amount gets two separators. */
  lemma FormatPriceIntMillions()
    ensures FormatPriceInt(1234568) == "$1,234,568"
  {
    DecimalDigitsOf1234568();
    GroupThousandsOf1234568();
  }
}
