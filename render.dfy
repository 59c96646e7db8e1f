/**
 * The block-glyph renderer: lays a string out as one square per lit cell of
 * each character's 3x5 grid, characters left to right.
 */
module Render {
  import opened Glyphs

  /** One emitted square: its top-left corner and its side. */
  datatype Rect = Rect(x: int, y: int, size: int)

  /** A lit cell: the index of its character in the text, its row and its column. */
  datatype Cell = Cell(i: nat, r: nat, c: nat)

  // Layout quantities, as the renderer derives them from `block`, `gap` and `margin`.

  function CharWidth(block: int, gap: int): int { Cols * block + (Cols - 1) * gap }

  function CharHeight(block: int, gap: int): int { Rows * block + (Rows - 1) * gap }

  /** The space between two characters is one block wide. */
  function CharGap(block: int): int { block }

  function Width(n: nat, block: int, gap: int, margin: int): int {
    margin * 2 + n * CharWidth(block, gap) + (n - 1) * CharGap(block)
  }

  function Height(block: int, gap: int, margin: int): int {
    margin * 2 + CharHeight(block, gap)
  }

  /** The renderer's default square side, in-glyph spacing and page margin, in pixels. */
  const DefaultBlock: int := 28
  const DefaultGap: int := 8
  const DefaultMargin: int := 20

  /** With the defaults, a text of `n` characters gets a 212-pixel-high canvas, 128 pixels wider per character. */
  lemma DefaultCanvas(n: nat)
    ensures Height(DefaultBlock, DefaultGap, DefaultMargin) == 212
    ensures Width(n, DefaultBlock, DefaultGap, DefaultMargin) == 12 + 128 * n
    ensures n == 7 ==> Width(n, DefaultBlock, DefaultGap, DefaultMargin) == 908
  {
  }

  /** Where the square of `cell` goes: closed-form position of character `i`, row `r`, column `c`. */
  function Place(cell: Cell, block: int, gap: int, margin: int): Rect {
    Rect(margin + cell.i * (CharWidth(block, gap) + CharGap(block)) + cell.c * (block + gap),
         margin + cell.r * (block + gap),
         block)
  }

  /** The cells of `text` that `font` lights up. */
  predicate IsLit(font: map<char, Pattern>, text: string, cell: Cell)
    requires ValidFont(font)
  {
    cell.i < |text| && cell.r < Rows && cell.c < Cols && Lookup(font, text[cell.i])[cell.r][cell.c] != 0
  }

  // The lit cells in the order the renderer visits them: character, then row, then column.

  /** Lit cells of row `r` of `p` among its first `c` columns. */
  function RowCells(p: Pattern, i: nat, r: nat, c: nat): seq<Cell>
    requires WellFormed(p) && r < Rows && c <= Cols
  {
    if c == 0 then []
    else RowCells(p, i, r, c - 1) + (if p[r][c - 1] != 0 then [Cell(i, r, c - 1)] else [])
  }

  /** Lit cells of the first `r` rows of `p`, drawn as character `i`. */
  function GlyphCells(p: Pattern, i: nat, r: nat): seq<Cell>
    requires WellFormed(p) && r <= Rows
  {
    if r == 0 then [] else GlyphCells(p, i, r - 1) + RowCells(p, i, r - 1, Cols)
  }

  function LitCells(font: map<char, Pattern>, text: string): seq<Cell>
    requires ValidFont(font)
  {
    if text == [] then []
    else LitCells(font, text[..|text| - 1]) + GlyphCells(Lookup(font, text[|text| - 1]), |text| - 1, Rows)
  }

  /** The squares of `text`, in emission order: one per lit cell, placed where that cell goes. */
  function Layout(font: map<char, Pattern>, text: string, block: int, gap: int, margin: int): seq<Rect>
    requires ValidFont(font)
  {
    var cells := LitCells(font, text);
    seq(|cells|, k requires 0 <= k < |cells| => Place(cells[k], block, gap, margin))
  }

  /** The interiors of `a` and `b` do not meet. */
  predicate Disjoint(a: Rect, b: Rect) {
    a.x + a.size <= b.x || b.x + b.size <= a.x || a.y + a.size <= b.y || b.y + b.size <= a.y
  }

  /** `rect` lies within the canvas minus its margin on every side. */
  predicate InCanvas(rect: Rect, width: int, height: int, margin: int) {
    margin <= rect.x && rect.x + rect.size <= width - margin &&
    margin <= rect.y && rect.y + rect.size <= height - margin
  }

  /**
   * Renders `text` as squares of side `block`, `gap` apart within a character,
   * inside a border of `margin`; returns the squares and the canvas size.
   * A character the font lacks is drawn as '0'.
   */
  method RenderSvgForText(font: map<char, Pattern>, text: string, block: int, gap: int, margin: int)
    returns (rects: seq<Rect>, width: int, height: int)
    requires ValidFont(font)
    ensures width == Width(|text|, block, gap, margin) && height == Height(block, gap, margin)
    ensures rects == Layout(font, text, block, gap, margin)
    ensures block > 0 && gap >= 0 ==>
      forall k :: 0 <= k < |rects| ==> InCanvas(rects[k], width, height, margin)
    ensures block > 0 && gap >= 0 ==>
      forall k, l :: 0 <= k < l < |rects| ==> Disjoint(rects[k], rects[l])
  {
    var charWidth := Cols * block + (Cols - 1) * gap;
    var charHeight := Rows * block + (Rows - 1) * gap;
    var charGap := block;
    width := margin * 2 + |text| * charWidth + (|text| - 1) * charGap;
    height := margin * 2 + charHeight;

    rects := [];
    var xCursor := margin;
    ghost var cells: seq<Cell> := [];
    for i := 0 to |text|
      invariant xCursor == margin + i * (CharWidth(block, gap) + CharGap(block))
      invariant cells == LitCells(font, text[..i])
      invariant |rects| == |cells|
      invariant forall k :: 0 <= k < |rects| ==> rects[k] == Place(cells[k], block, gap, margin)
    {
      var pattern := Lookup(font, text[i]);
      var squares := EmitGlyph(pattern, xCursor, block, gap, margin, i);
      assert text[..i + 1][..i] == text[..i];
      rects := rects + squares;
      cells := cells + GlyphCells(pattern, i, Rows);
      NextCharacter(i, CharWidth(block, gap) + CharGap(block));
      xCursor := xCursor + charWidth + charGap;
    }
    assert text[..|text|] == text;
    if block > 0 && gap >= 0 {
      LayoutInCanvas(font, text, block, gap, margin);
      LayoutNoOverlap(font, text, block, gap, margin);
    }
  }

  /**
   * The squares of one character drawn with its left edge at `xCursor`, which is
   * where character `i` starts: one per lit cell of `pattern`, row by row.
   */
  method EmitGlyph(pattern: Pattern, xCursor: int, block: int, gap: int, margin: int, ghost i: nat)
    returns (squares: seq<Rect>)
    requires WellFormed(pattern)
    requires xCursor == margin + i * (CharWidth(block, gap) + CharGap(block))
    ensures |squares| == |GlyphCells(pattern, i, Rows)|
    ensures forall k :: 0 <= k < |squares| ==> squares[k] == Place(GlyphCells(pattern, i, Rows)[k], block, gap, margin)
  {
    squares := [];
    ghost var cells: seq<Cell> := [];
    for r := 0 to Rows
      invariant cells == GlyphCells(pattern, i, r)
      invariant |squares| == |cells|
      invariant forall k :: 0 <= k < |squares| ==> squares[k] == Place(cells[k], block, gap, margin)
    {
      for c := 0 to Cols
        invariant cells == GlyphCells(pattern, i, r) + RowCells(pattern, i, r, c)
        invariant |squares| == |cells|
        invariant forall k :: 0 <= k < |squares| ==> squares[k] == Place(cells[k], block, gap, margin)
      {
        if pattern[r][c] != 0 {
          var x := xCursor + c * (block + gap);
          var y := margin + r * (block + gap);
          assert Rect(x, y, block) == Place(Cell(i, r, c), block, gap, margin);
          squares := squares + [Rect(x, y, block)];
          cells := cells + [Cell(i, r, c)];
        }
        assert RowCells(pattern, i, r, c + 1) ==
          RowCells(pattern, i, r, c) + (if pattern[r][c] != 0 then [Cell(i, r, c)] else []);
      }
      assert GlyphCells(pattern, i, r + 1) == GlyphCells(pattern, i, r) + RowCells(pattern, i, r, Cols);
    }
  }

  /** The cursor of character `i + 1` is one character advance past that of character `i`. */
  lemma NextCharacter(i: int, advance: int)
    ensures (i + 1) * advance == i * advance + advance
  {
  }

  // Which cells are lit.

  lemma {:induction false} RowCellsMembers(p: Pattern, i: nat, r: nat, c: nat, x: Cell)
    requires WellFormed(p) && r < Rows && c <= Cols
    ensures x in RowCells(p, i, r, c) <==> x.i == i && x.r == r && x.c < c && p[r][x.c] != 0
  {
    if c > 0 {
      RowCellsMembers(p, i, r, c - 1, x);
    }
  }

  lemma {:induction false} GlyphCellsMembers(p: Pattern, i: nat, r: nat, x: Cell)
    requires WellFormed(p) && r <= Rows
    ensures x in GlyphCells(p, i, r) <==> x.i == i && x.r < r && x.c < Cols && p[x.r][x.c] != 0
  {
    if r > 0 {
      GlyphCellsMembers(p, i, r - 1, x);
      RowCellsMembers(p, i, r - 1, Cols, x);
    }
  }

  /** A cell is emitted if and only if it is a 1-cell of its character's (fallback-resolved) grid. */
  lemma {:induction false} LitCellsMembers(font: map<char, Pattern>, text: string, x: Cell)
    requires ValidFont(font)
    ensures x in LitCells(font, text) <==> IsLit(font, text, x)
  {
    if text != [] {
      var n := |text| - 1;
      var front, p := text[..n], Lookup(font, text[n]);
      assert LitCells(font, text) == LitCells(font, front) + GlyphCells(p, n, Rows);
      LitCellsMembers(font, front, x);
      GlyphCellsMembers(p, n, Rows, x);
      if x.i < n {
        assert front[x.i] == text[x.i];
        assert IsLit(font, text, x) == IsLit(font, front, x);
      } else if x.i == n {
        assert !IsLit(font, front, x);
      } else {
        assert !IsLit(font, front, x) && !IsLit(font, text, x);
      }
    }
  }

  // The order of emission.

  /** `a` comes before `b` in character-major, then row-major order. */
  predicate Precedes(a: Cell, b: Cell) {
    a.i < b.i || (a.i == b.i && (a.r < b.r || (a.r == b.r && a.c < b.c)))
  }

  predicate InEmitOrder(cells: seq<Cell>) {
    forall k, l :: 0 <= k < l < |cells| ==> Precedes(cells[k], cells[l])
  }

  lemma AppendInEmitOrder(a: seq<Cell>, b: seq<Cell>)
    requires InEmitOrder(a) && InEmitOrder(b)
    requires forall k, l :: 0 <= k < |a| && 0 <= l < |b| ==> Precedes(a[k], b[l])
    ensures InEmitOrder(a + b)
  {
    forall k, l | 0 <= k < l < |a + b|
      ensures Precedes((a + b)[k], (a + b)[l])
    {
      if l < |a| {
      } else if k >= |a| {
        assert (a + b)[k] == b[k - |a|] && (a + b)[l] == b[l - |a|];
      } else {
        assert (a + b)[k] == a[k] && (a + b)[l] == b[l - |a|];
      }
    }
  }

  lemma {:induction false} RowCellsInEmitOrder(p: Pattern, i: nat, r: nat, c: nat)
    requires WellFormed(p) && r < Rows && c <= Cols
    ensures InEmitOrder(RowCells(p, i, r, c))
  {
    if c > 0 {
      RowCellsInEmitOrder(p, i, r, c - 1);
      var front := RowCells(p, i, r, c - 1);
      forall k | 0 <= k < |front|
        ensures Precedes(front[k], Cell(i, r, c - 1))
      {
        RowCellsMembers(p, i, r, c - 1, front[k]);
      }
      AppendInEmitOrder(RowCells(p, i, r, c - 1), if p[r][c - 1] != 0 then [Cell(i, r, c - 1)] else []);
    }
  }

  lemma {:induction false} GlyphCellsInEmitOrder(p: Pattern, i: nat, r: nat)
    requires WellFormed(p) && r <= Rows
    ensures InEmitOrder(GlyphCells(p, i, r))
  {
    if r > 0 {
      GlyphCellsInEmitOrder(p, i, r - 1);
      RowCellsInEmitOrder(p, i, r - 1, Cols);
      var front, back := GlyphCells(p, i, r - 1), RowCells(p, i, r - 1, Cols);
      forall k, l | 0 <= k < |front| && 0 <= l < |back|
        ensures Precedes(front[k], back[l])
      {
        GlyphCellsMembers(p, i, r - 1, front[k]);
        RowCellsMembers(p, i, r - 1, Cols, back[l]);
      }
      AppendInEmitOrder(GlyphCells(p, i, r - 1), RowCells(p, i, r - 1, Cols));
    }
  }

  /** Cells come out strictly in character order, then row-major within a character (so none twice). */
  lemma {:induction false} LitCellsInEmitOrder(font: map<char, Pattern>, text: string)
    requires ValidFont(font)
    ensures InEmitOrder(LitCells(font, text))
  {
    if text != [] {
      var n := |text| - 1;
      LitCellsInEmitOrder(font, text[..n]);
      GlyphCellsInEmitOrder(Lookup(font, text[n]), n, Rows);
      var front, back := LitCells(font, text[..n]), GlyphCells(Lookup(font, text[n]), n, Rows);
      forall k, l | 0 <= k < |front| && 0 <= l < |back|
        ensures Precedes(front[k], back[l])
      {
        LitCellsMembers(font, text[..n], front[k]);
        GlyphCellsMembers(Lookup(font, text[n]), n, Rows, back[l]);
      }
      AppendInEmitOrder(LitCells(font, text[..n]), GlyphCells(Lookup(font, text[n]), n, Rows));
    }
  }

  // How many squares.

  function RowWeight(row: seq<int>): int
    requires |row| == Cols
  {
    row[0] + row[1] + row[2]
  }

  /** The sum of the cells of `p`: for a 0/1 grid, the number of its 1-cells. */
  function PatternWeight(p: Pattern): int
    requires WellFormed(p)
  {
    RowWeight(p[0]) + RowWeight(p[1]) + RowWeight(p[2]) + RowWeight(p[3]) + RowWeight(p[4])
  }

  /** The 1-cells of all the characters of `text`, each with its fallback-resolved grid. */
  function TextWeight(font: map<char, Pattern>, text: string): int
    requires ValidFont(font)
  {
    if text == [] then 0 else PatternWeight(Lookup(font, text[0])) + TextWeight(font, text[1..])
  }

  lemma RowCellsCount(p: Pattern, i: nat, r: nat)
    requires WellFormed(p) && r < Rows
    ensures |RowCells(p, i, r, Cols)| == RowWeight(p[r])
  {
    var row := p[r];
    assert row[0] == 0 || row[0] == 1;
    assert row[1] == 0 || row[1] == 1;
    assert row[2] == 0 || row[2] == 1;
    assert |RowCells(p, i, r, 1)| == row[0];
    assert |RowCells(p, i, r, 2)| == row[0] + row[1];
  }

  lemma GlyphCellsCount(p: Pattern, i: nat)
    requires WellFormed(p)
    ensures |GlyphCells(p, i, Rows)| == PatternWeight(p)
  {
    RowCellsCount(p, i, 0);
    RowCellsCount(p, i, 1);
    RowCellsCount(p, i, 2);
    RowCellsCount(p, i, 3);
    RowCellsCount(p, i, 4);
    assert |GlyphCells(p, i, 1)| == RowWeight(p[0]);
    assert |GlyphCells(p, i, 2)| == RowWeight(p[0]) + RowWeight(p[1]);
    assert |GlyphCells(p, i, 3)| == RowWeight(p[0]) + RowWeight(p[1]) + RowWeight(p[2]);
    assert |GlyphCells(p, i, 4)| == RowWeight(p[0]) + RowWeight(p[1]) + RowWeight(p[2]) + RowWeight(p[3]);
  }

  /** The weight of a text is that of all but its last character plus that of the last one. */
  lemma {:induction false} TextWeightLast(font: map<char, Pattern>, text: string)
    requires ValidFont(font) && text != []
    ensures TextWeight(font, text) == TextWeight(font, text[..|text| - 1]) + PatternWeight(Lookup(font, text[|text| - 1]))
  {
    if |text| > 1 {
      var tail := text[1..];
      TextWeightLast(font, tail);
      assert tail[..|tail| - 1] == text[..|text| - 1][1..];
      assert tail[|tail| - 1] == text[|text| - 1];
    }
  }

  lemma {:induction false} LitCellsCount(font: map<char, Pattern>, text: string)
    requires ValidFont(font)
    ensures |LitCells(font, text)| == TextWeight(font, text)
  {
    if text != [] {
      var n := |text| - 1;
      LitCellsCount(font, text[..n]);
      GlyphCellsCount(Lookup(font, text[n]), n);
      TextWeightLast(font, text);
    }
  }

  /** One square per 1-cell of every character's grid, and no other. */
  lemma LayoutCount(font: map<char, Pattern>, text: string, block: int, gap: int, margin: int)
    requires ValidFont(font)
    ensures |Layout(font, text, block, gap, margin)| == TextWeight(font, text)
  {
    LitCellsCount(font, text);
  }

  // Where the squares go.

  lemma PlaceInCanvas(cell: Cell, n: nat, block: int, gap: int, margin: int)
    requires block > 0 && gap >= 0
    requires cell.i < n && cell.r < Rows && cell.c < Cols
    ensures InCanvas(Place(cell, block, gap, margin), Width(n, block, gap, margin), Height(block, gap, margin), margin)
  {
    var step, advance := block + gap, CharWidth(block, gap) + CharGap(block);
    var p := Place(cell, block, gap, margin);
    assert p.x == margin + cell.i * advance + cell.c * step && p.y == margin + cell.r * step && p.size == block;
    WidthByAdvance(n, block, gap, margin);
    MulMonotone(cell.i, n - 1, advance);
    MulMonotone(cell.c, 2, step);
    MulMonotone(cell.r, 4, step);
    MulMonotone(0, cell.i, advance);
    MulMonotone(0, cell.c, step);
    MulMonotone(0, cell.r, step);
  }

  /** The canvas is the margins, `n - 1` character advances, and one last character cell. */
  lemma WidthByAdvance(n: nat, block: int, gap: int, margin: int)
    requires n >= 1
    ensures Width(n, block, gap, margin) == margin * 2 + (n - 1) * (CharWidth(block, gap) + CharGap(block)) + CharWidth(block, gap)
  {
    var cw := CharWidth(block, gap);
    assert (n - 1) * (cw + block) == (n - 1) * cw + (n - 1) * block;
    assert n * cw == (n - 1) * cw + cw;
  }

  /** With a positive block and no negative gap, every square lies inside the canvas minus its margin. */
  lemma LayoutInCanvas(font: map<char, Pattern>, text: string, block: int, gap: int, margin: int)
    requires ValidFont(font)
    requires block > 0 && gap >= 0
    ensures forall k :: 0 <= k < |Layout(font, text, block, gap, margin)| ==>
      InCanvas(Layout(font, text, block, gap, margin)[k], Width(|text|, block, gap, margin), Height(block, gap, margin), margin)
  {
    var cells := LitCells(font, text);
    forall k | 0 <= k < |cells|
      ensures InCanvas(Place(cells[k], block, gap, margin), Width(|text|, block, gap, margin), Height(block, gap, margin), margin)
    {
      LitCellsMembers(font, text, cells[k]);
      PlaceInCanvas(cells[k], |text|, block, gap, margin);
    }
  }

  /** Slot `a` of a run spaced `step` apart ends before slot `b > a` begins, when a slot is no wider than the step. */
  lemma SlotBefore(a: int, b: int, step: int, size: int)
    requires a < b && 0 <= size <= step
    ensures a * step + size <= b * step
  {
    MulMonotone(a + 1, b, step);
    assert (a + 1) * step == a * step + step;
  }

  /** Any square of an earlier character ends left of every square of a later one. */
  lemma CharacterBefore(ai: nat, bi: nat, ac: nat, bc: nat, block: int, gap: int)
    requires ai < bi && ac < Cols && block > 0 && gap >= 0
    ensures ai * (CharWidth(block, gap) + CharGap(block)) + ac * (block + gap) + block
      <= bi * (CharWidth(block, gap) + CharGap(block)) + bc * (block + gap)
  {
    var step, advance := block + gap, CharWidth(block, gap) + CharGap(block);
    MulMonotone(ac, 2, step);
    MulMonotone(0, bc, step);
    SlotBefore(ai, bi, advance, advance);
  }

  lemma PlaceDisjoint(a: Cell, b: Cell, block: int, gap: int, margin: int)
    requires block > 0 && gap >= 0
    requires a.r < Rows && a.c < Cols && b.r < Rows && b.c < Cols
    requires Precedes(a, b)
    ensures Disjoint(Place(a, block, gap, margin), Place(b, block, gap, margin))
  {
    if a.i < b.i {
      CharacterBefore(a.i, b.i, a.c, b.c, block, gap);
    } else if a.r < b.r {
      SlotBefore(a.r, b.r, block + gap, block);
    } else {
      SlotBefore(a.c, b.c, block + gap, block);
    }
  }

  /** With a positive block and no negative gap, no two squares' interiors overlap. */
  lemma LayoutNoOverlap(font: map<char, Pattern>, text: string, block: int, gap: int, margin: int)
    requires ValidFont(font)
    requires block > 0 && gap >= 0
    ensures forall k, l :: 0 <= k < l < |Layout(font, text, block, gap, margin)| ==>
      Disjoint(Layout(font, text, block, gap, margin)[k], Layout(font, text, block, gap, margin)[l])
  {
    var cells := LitCells(font, text);
    LitCellsInEmitOrder(font, text);
    forall k, l | 0 <= k < l < |cells|
      ensures Disjoint(Place(cells[k], block, gap, margin), Place(cells[l], block, gap, margin))
    {
      LitCellsMembers(font, text, cells[k]);
      LitCellsMembers(font, text, cells[l]);
      PlaceDisjoint(cells[k], cells[l], block, gap, margin);
    }
  }

  lemma MulMonotone(a: int, b: int, k: int)
    requires a <= b && k >= 0
    ensures a * k <= b * k
  {
  }

  /** The canvas grows, never shrinks, with the block, the gap, the margin and the length of the text. */
  lemma CanvasMonotone(n: nat, n': nat, block: int, block': int, gap: int, gap': int, margin: int, margin': int)
    requires 1 <= n <= n' && 0 <= block <= block' && 0 <= gap <= gap' && margin <= margin'
    ensures Width(n, block, gap, margin) <= Width(n', block', gap', margin')
    ensures Height(block, gap, margin) <= Height(block', gap', margin')
  {
    var a, a' := 4 * block + 2 * gap, 4 * block' + 2 * gap';
    WidthByCharacter(n, block, gap, margin);
    WidthByCharacter(n', block', gap', margin');
    MulMonotone(n, n', a);
    Distribute(n', a, a' - a);
    MulMonotone(1, n', a' - a);
  }

  /** The width is the two margins and `n` character-plus-gap advances, less the gap after the last one. */
  lemma WidthByCharacter(n: nat, block: int, gap: int, margin: int)
    ensures Width(n, block, gap, margin) == margin * 2 + n * (4 * block + 2 * gap) - block
  {
    Distribute(n, CharWidth(block, gap), block);
  }

  lemma Distribute(n: int, x: int, y: int)
    ensures n * (x + y) == n * x + n * y
  {
  }

  // The error text.

  /** Texts whose characters resolve to the same grids, position by position, light the same cells. */
  lemma {:induction false} SameGlyphsSameCells(font: map<char, Pattern>, t: string, u: string)
    requires ValidFont(font)
    requires |t| == |u|
    requires forall i :: 0 <= i < |t| ==> Lookup(font, t[i]) == Lookup(font, u[i])
    ensures LitCells(font, t) == LitCells(font, u)
  {
    if t != [] {
      var n := |t| - 1;
      SameGlyphsSameCells(font, t[..n], u[..n]);
    }
  }

  /** The '0' grid, and so the grid of every character the table lacks, lights 12 cells. */
  lemma ZeroWeight()
    ensures '0' in Digits && PatternWeight(Digits['0']) == 12
  {
    var p := Digits['0'];
    assert p == [[1,1,1], [1,0,1], [1,0,1], [1,0,1], [1,1,1]];
  }

  /**
   * The text shown when the price cannot be fetched, "ERROR", has no glyphs of
   * its own in the display's table: it is drawn exactly as "00000", 60 squares.
   */
  lemma ErrorDrawnAsZeros(block: int, gap: int, margin: int)
    ensures ValidFont(Digits)
    ensures Layout(Digits, "ERROR", block, gap, margin) == Layout(Digits, "00000", block, gap, margin)
    ensures |Layout(Digits, "ERROR", block, gap, margin)| == 60
  {
    ErrorGlyphsAreZeros();
    SameGlyphsSameCells(Digits, "ERROR", "00000");
    ZerosCount(block, gap, margin);
  }

  /** Position by position, "ERROR" resolves to the same grids as "00000". */
  lemma ErrorGlyphsAreZeros()
    ensures ValidFont(Digits)
    ensures forall k :: 0 <= k < 5 ==> Lookup(Digits, "ERROR"[k]) == Lookup(Digits, "00000"[k])
  {
    LookupFallback('E');
    LookupFallback('R');
    LookupFallback('O');
  }

  /** "00000" is drawn with 60 squares. */
  lemma ZerosCount(block: int, gap: int, margin: int)
    ensures ValidFont(Digits)
    ensures |Layout(Digits, "00000", block, gap, margin)| == 60
  {
    TableShape();
    LayoutCount(Digits, "00000", block, gap, margin);
    ZeroWeight();
    assert "00000" == seq(5, _ => '0');
    RepeatedWeight(Digits, '0', 5);
  }

  /** A character repeated `n` times lights `n` times the cells its grid lights. */
  lemma {:induction false} RepeatedWeight(font: map<char, Pattern>, ch: char, n: nat)
    requires ValidFont(font)
    ensures TextWeight(font, seq(n, _ => ch)) == n * PatternWeight(Lookup(font, ch))
  {
    if n > 0 {
      var text, w := seq(n, _ => ch), PatternWeight(Lookup(font, ch));
      assert text[0] == ch;
      assert text[1..] == seq(n - 1, _ => ch);
      RepeatedWeight(font, ch, n - 1);
      NextCharacter(n - 1, w);
    }
  }
}
