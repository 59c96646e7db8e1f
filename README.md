# Bitcoin clock for a Kindle: block-glyph price rendering

The program fetches the bitcoin price in US dollars and writes a static HTML
page for an e-ink reader. The page shows the price as large black squares:
each character is drawn from a 3x5 grid of cells, and every lit cell becomes
one filled square. This project models the part of `render.py` that turns a
price into those squares:

- **`Glyphs`** (`glyphs.dfy`) is the font table: twelve 5x3 grids of 0/1 cells for the
  digits, the comma and the dollar sign. It also has the lookup, which draws any other
  character with the '0' grid.
- **`Render`** (`render.dfy`) is the renderer, `render_svg_for_text`, as an imperative
  method. It walks the text character by character and each grid row by row, cell by
  cell, appending one square per lit cell and advancing an x-cursor. It is proved
  against `Layout`, a closed-form specification: the square for row `r`, column `c`
  of character `i` sits at `x = margin + i*(char_width + char_gap) + c*(block + gap)`,
  `y = margin + r*(block + gap)`.
  Lemmas about `Layout` establish:
  - which cells are emitted;
  - their order;
  - their number;
  - that, for a positive block and a non-negative gap, every square lies inside the
    canvas minus its margin, and no two squares overlap.
  They also show that the error text "ERROR" is drawn exactly as "00000".
- **`PriceFormat`** (`price.dfy`) is `format_price_int` for a non-negative whole-dollar
  amount: "$" followed by the decimal digits grouped in threes by commas. Lemmas show:
  - the grouped shape: a first group of 1–3 digits, then comma-and-three-digit groups;
  - removing the "$" and the commas gives the decimal representation back, which reads
    back as the amount;
  - every character of a price has a glyph of its own.

Squares are modelled as `Rect(x, y, size)` values, not as SVG markup. The
method returns the squares and the canvas width and height. It is
deterministic, since its result equals the function `Layout` of its inputs.

## Model

| member | source | states |
|---|---|---|
| Glyphs.TableShape | render.py:8-93 | The table has a grid for exactly '0'–'9', ',' and '$', and every grid is 5 rows of 3 cells, each 0 or 1 |
| Glyphs.Lookup | render.py:122 | The grid drawn for a character is always a well-formed 5x3 grid of the font: the character's own grid when the font has one, and the '0' grid otherwise |
| Glyphs.LookupFallback | render.py:122 | With the display's table, an unsupported character gets exactly the '0' grid, and a supported one its own grid |
| Glyphs.LookupDistinguishes | render.py:8-93 | Two different supported characters have different grids, so only unsupported characters fall back to '0' |
| Render.DefaultCanvas | render.py:106-116 | With the defaults block 28, gap 8, margin 20: the height is 212 and the width is 12 + 128·n; a 7-character price is 908 pixels wide |
| Render.RenderSvgForText | render.py:106-137 | width = 2·margin + n·char_width + (n−1)·char_gap and height = 2·margin + char_height. The squares are exactly the specification layout: one per lit cell, in emission order, at the closed-form position. For block > 0 and gap ≥ 0, every square lies inside the margins and no two squares overlap |
| Render.EmitGlyph | render.py:123-128 | One character's squares, at cursor `margin + i·(char_width + char_gap)`, are one per lit cell of its grid in row-major order, each at its closed-form position |
| Render.RowCellsMembers | render.py:124-128 | A cell is emitted by a row scan up to column c iff it is in that row, left of c, and its grid cell is non-zero |
| Render.GlyphCellsMembers | render.py:123-128 | A cell is emitted for a glyph iff its row and column are in range and its grid cell is non-zero |
| Render.LitCellsMembers | render.py:121-128 | A cell is emitted for the text iff it is a non-zero cell of the (fallback-resolved) grid of its character |
| Render.RowCellsInEmitOrder | render.py:124-128 | A row's cells come out left to right |
| Render.GlyphCellsInEmitOrder | render.py:123-128 | A glyph's cells come out row by row, left to right within a row |
| Render.LitCellsInEmitOrder | render.py:121-128 | All cells come out in character, then row, then column order |
| Render.RowCellsCount | render.py:124-128 | A row emits as many squares as it has 1-cells |
| Render.GlyphCellsCount | render.py:123-128 | A glyph emits as many squares as its grid has 1-cells |
| Render.TextWeightLast | render.py:121-122 | The 1-cell count of a text is that of its prefix plus that of its last character's grid |
| Render.LitCellsCount | render.py:121-128 | The text emits as many cells as the grids of its characters have 1-cells in total |
| Render.LayoutCount | render.py:119-128 | The number of squares equals the sum of the 1-cells of the characters' grids |
| Render.PlaceInCanvas | render.py:111-127 | For block > 0 and gap ≥ 0, the square of any cell of a character of the text lies in [margin, width − margin] × [margin, height − margin] |
| Render.WidthByAdvance | render.py:111-115 | The width is the two margins, n − 1 character advances, and one character width |
| Render.LayoutInCanvas | render.py:111-129 | For block > 0 and gap ≥ 0, every square of the layout lies inside the canvas minus its margin |
| Render.SlotBefore | render.py:126-127 | In a run of slots `step` apart, a square no wider than the step ends before any later slot begins |
| Render.CharacterBefore | render.py:113-129 | Any square of an earlier character ends left of every square of a later character |
| Render.PlaceDisjoint | render.py:111-129 | Two distinct cells in emission order get squares whose interiors do not meet |
| Render.LayoutNoOverlap | render.py:119-129 | For block > 0 and gap ≥ 0, no two squares of the layout overlap |
| Render.CanvasMonotone | render.py:111-116 | The canvas width and height never shrink when the text gets longer or block, gap or margin grow |
| Render.SameGlyphsSameCells | render.py:122 | Texts whose characters resolve to the same grids position by position emit the same cells |
| Render.ZeroWeight | render.py:9-15 | The '0' grid has 12 lit cells |
| Render.RepeatedWeight | render.py:121-128 | A character repeated n times lights n times the cells of its grid |
| Render.ZerosCount | render.py:9-15 | Helper of `ErrorDrawnAsZeros`: five copies of the '0' grid, "00000", are drawn with 60 squares |
| Render.ErrorGlyphsAreZeros | render.py:122 | Each character of the error text "ERROR" resolves to the '0' grid, position by position |
| Render.WidthByCharacter | render.py:111-115 | The width is the two margins plus n advances of 4·block + 2·gap, less one block |
| Render.ErrorDrawnAsZeros | render.py:183-184 | The fallback text "ERROR" has no glyphs of its own, so it is drawn exactly as "00000": 60 squares |
| PriceFormat.DigitChar | render.py:104 | A digit value below 10 maps to a decimal digit character |
| PriceFormat.DigitValue | render.py:104 | A digit character's value is below 10 and maps back to the same character |
| PriceFormat.DecimalDigits | render.py:104 | The decimal representation is a non-empty run of digits, and it starts with '0' only for the number 0, which is "0" |
| PriceFormat.DecimalDigitsRoundTrip | render.py:104 | Reading the decimal representation of v back gives v |
| PriceFormat.LeadingDigitPositive | render.py:104 | A digit string not starting with '0' denotes a positive number |
| PriceFormat.DecimalDigitsCanonical | render.py:104 | Every digit string without a leading zero is the decimal representation of its own value |
| PriceFormat.StripCommas | render.py:104 | Removing commas never lengthens a string and leaves no comma |
| PriceFormat.GroupThousands | render.py:104 | Grouping never shortens the digits, and keeps the first and the last digit in place |
| PriceFormat.FormatPriceInt | render.py:101-104 | The price text starts with "$", then a digit, and ends with a digit. The first digit is '0' exactly when the amount is 0 |
| PriceFormat.GroupThousandsLength | render.py:104 | Grouping n ≥ 1 digits adds (n − 1)/3 commas |
| PriceFormat.CommasFromEndExtend | render.py:104 | Prepending to a comma-and-three-digit group keeps commas at every fourth position from the end |
| PriceFormat.GroupThousandsCommas | render.py:104 | In grouped digits, a position holds a comma iff its distance to the end is a multiple of four; every other position is a digit |
| PriceFormat.GroupThousandsStrip | render.py:104 | Removing the commas from grouped digits gives the digits back |
| PriceFormat.StripCommasAroundComma | render.py:104 | A separator between a string and a run of digits disappears when the commas are removed |
| PriceFormat.GroupedLengthNotMultipleOfFour | render.py:104 | Grouped digits never have a length that is a multiple of four |
| PriceFormat.GroupPosition | render.py:104 | Commas at every fourth position from the end are, from the start, after a first group of length mod 4 and then every fourth position |
| PriceFormat.CommasFromStart | render.py:104 | The from-the-end comma pattern, read from the start, is a first group of 1–3 digits followed by comma-and-three-digit groups |
| PriceFormat.GroupThousandsShape | render.py:104 | Grouped digits are a first group of 1–3 digits, then groups of a comma and exactly 3 digits, and stripping the commas gives the digits back |
| PriceFormat.FormatPriceIntShape | render.py:101-104 | After the "$", the price text is a 1–3 digit first group followed by comma-and-three-digit groups. Without the "$" and commas it is the decimal representation of the amount, which reads back as the amount |
| PriceFormat.DigitSupported | render.py:8-93 | Every decimal digit has a glyph in the table |
| PriceFormat.FormatPriceIntDrawable | render.py:101-122 | Every character of a price text has a glyph of its own, so the renderer never falls back to '0' for a price |
| PriceFormat.FormatPriceIntExamples | render.py:189 | 67845 is shown as "$67,845" and 0 as "$0" |
| PriceFormat.DecimalDigitsOf1234 | render.py:104 | The decimal representation of 1234 is "1234" |
| PriceFormat.DecimalDigitsOf1234568 | render.py:104 | The decimal representation of 1234568 is "1234568" |
| PriceFormat.GroupThousandsOf1234568 | render.py:104 | Grouping "1234568" gives "1,234,568" |
| PriceFormat.FormatPriceIntMillions | render.py:101-104 | 1234568 is shown as "$1,234,568" |

## Left out

- `fetch_btc_usd` (render.py:95-99): an HTTP request and JSON decoding. The network is not modelled.
- `build_html` (render.py:139-177): HTML text around the SVG, including a wall-clock timestamp. Clocks and markup are not modelled.
- `main` (render.py:179-192): not modelled as an operation, because it consists of file writes and exception handling.
  - What it draws is covered: a price goes through `FormatPriceInt` and then `RenderSvgForText`.
  - The "ERROR" fallback is covered by `Render.ErrorDrawnAsZeros`.
- SVG serialisation (render.py:128, 131-136): the `<rect>` strings, the rounded-corner attributes `rx`/`ry`, the `title` and `aria-label` markup, and the output string. Squares are returned as `Rect` values instead. The text is inserted into the markup unescaped, which the model does not represent.
- PriceFormat.FormatPriceInt: takes a non-negative whole-dollar amount, not a float.
  - Python's `round` (half to even) and `int` on floats are not modelled.
  - Negative amounts, which Python formats as "$-1,234", are not modelled.
  - Infinite and NaN inputs, which raise, are not modelled.
- Render.RenderSvgForText: takes the font as a parameter instead of reading the global table.
  - It requires a well-formed font, which the display's own table is (`Glyphs.TableShape`).
  - A cell is lit when it is non-zero, as with Python truthiness.
  - The font's cells are restricted to 0 and 1, as the table's are.
- Render.RenderSvgForText: `block`, `gap` and `margin` are integers, where Python accepts any number, so fractional sizes are not modelled.
  - Python's keyword defaults (28, 8, 20) are the constants `DefaultBlock`, `DefaultGap` and `DefaultMargin`; they are not default arguments of the method.
- Render.EmitGlyph: the source's two inner loops (rows, then columns) are a separate method here. The squares and the cursor arithmetic are unchanged.
