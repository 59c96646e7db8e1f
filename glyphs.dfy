/** The 3x5 block font of the price display and its lookup, which never fails. */
module Glyphs {

  /** A glyph: rows of cells, where a cell that is not 0 is drawn as a filled square. */
  type Pattern = seq<seq<int>>

  /** Rows and columns of every glyph grid. */
  const Rows: nat := 5
  const Cols: nat := 3

  /** Exactly `Rows` rows of exactly `Cols` cells, each cell 0 or 1. */
  predicate WellFormed(p: Pattern) {
    |p| == Rows &&
    forall r :: 0 <= r < Rows ==>
      |p[r]| == Cols && forall c :: 0 <= c < Cols ==> p[r][c] == 0 || p[r][c] == 1
  }

  /** The characters the font draws: the ten digits, the thousands separator and the dollar sign. */
  const Supported: set<char> := {'0', '1', '2', '3', '4', '5', '6', '7', '8', '9', ',', '$'}

  /** The font table, one grid per supported character, top row first. */
  const Digits: map<char, Pattern> := map[
    '0' := [[1,1,1],
            [1,0,1],
            [1,0,1],
            [1,0,1],
            [1,1,1]],
    '1' := [[0,1,0],
            [1,1,0],
            [0,1,0],
            [0,1,0],
            [1,1,1]],
    '2' := [[1,1,1],
            [0,0,1],
            [1,1,1],
            [1,0,0],
            [1,1,1]],
    '3' := [[1,1,1],
            [0,0,1],
            [0,1,1],
            [0,0,1],
            [1,1,1]],
    '4' := [[1,0,1],
            [1,0,1],
            [1,1,1],
            [0,0,1],
            [0,0,1]],
    '5' := [[1,1,1],
            [1,0,0],
            [1,1,1],
            [0,0,1],
            [1,1,1]],
    '6' := [[1,1,1],
            [1,0,0],
            [1,1,1],
            [1,0,1],
            [1,1,1]],
    '7' := [[1,1,1],
            [0,0,1],
            [0,1,0],
            [0,1,0],
            [0,1,0]],
    '8' := [[1,1,1],
            [1,0,1],
            [1,1,1],
            [1,0,1],
            [1,1,1]],
    '9' := [[1,1,1],
            [1,0,1],
            [1,1,1],
            [0,0,1],
            [1,1,1]],
    // the separator is a small stroke in the bottom right corner
    ',' := [[0,0,0],
            [0,0,0],
            [0,0,0],
            [0,0,1],
            [0,1,0]],
    '$' := [[0,1,0],
            [1,1,1],
            [0,1,0],
            [1,1,1],
            [0,1,0]]
  ]

  /** A font: '0' has a grid, and every grid is a 5x3 grid of 0/1 cells. */
  predicate ValidFont(font: map<char, Pattern>) {
    '0' in font && forall ch :: ch in font ==> WellFormed(font[ch])
  }

  /** The table covers exactly the supported characters, and it is a valid font. */
  lemma TableShape()
    ensures Digits.Keys == Supported
    ensures ValidFont(Digits)
  {
    forall ch | ch in Digits
      ensures WellFormed(Digits[ch])
    {
      var p := Digits[ch];
      assert |p| == Rows;
      forall r | 0 <= r < Rows
        ensures |p[r]| == Cols && forall c :: 0 <= c < Cols ==> p[r][c] == 0 || p[r][c] == 1
      {
      }
    }
  }

  /**
   * The grid drawn for `ch`: its own entry, or the '0' grid for a character the
   * font lacks. Never fails, and always yields a 5x3 grid.
   */
  function Lookup(font: map<char, Pattern>, ch: char): (p: Pattern)
    requires ValidFont(font)
    ensures WellFormed(p) && p in font.Values
    ensures ch in font ==> p == font[ch]
    ensures ch !in font ==> p == font['0']
  {
    if ch in font then font[ch] else font['0']
  }

  /** With the display's own table, an unsupported character is drawn exactly as '0' is. */
  lemma LookupFallback(ch: char)
    ensures ValidFont(Digits)
    ensures ch !in Supported ==> Lookup(Digits, ch) == Lookup(Digits, '0')
    ensures ch in Supported ==> Lookup(Digits, ch) == Digits[ch]
  {
    TableShape();
  }

  /** Two supported characters never share a grid, so only unsupported ones are drawn as '0'. */
  lemma LookupDistinguishes(a: char, b: char)
    requires a in Supported && b in Supported && a != b
    ensures ValidFont(Digits)
    ensures Lookup(Digits, a) != Lookup(Digits, b)
  {
    TableShape();
  }
}
