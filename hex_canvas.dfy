/** The per-row text rules of `HexCanvasRenderer.draw`
    (src/renderers/hex-canvas-renderer.ts): the offset label, the hex cells
    with their group gap, the ASCII column and the zebra shading. The canvas
    keeps what was drawn as a list of rows instead of pixels. */
module HexCanvas {
  import opened Wrappers
  import opened Text

  /** The widths `draw` measures with the monospace font, in whole pixels. */
  datatype Geometry = Geometry(offsetWidth: nat, hexByteWidth: nat, hexGroupGap: nat, asciiGap: nat, asciiWidth: nat)

  /** The widths `draw` falls back on when it has no context to measure with. */
  const FALLBACK_GEOMETRY := Geometry(80, 24, 16, 16, 200)

  /** The widths `draw` lays out with: the measured ones, or the fallback. */
  function Layout(measured: Option<Geometry>): Geometry
  {
    if measured.Some? then measured.value else FALLBACK_GEOMETRY
  }

  const LINE_HEIGHT: nat := 28

  /** The canvas width: label, sixteen hex cells, one group gap, the gap
      before the ASCII column and the column. */
  function Width(g: Geometry): (w: nat)
    ensures w >= 16 * g.hexByteWidth
  {
    g.offsetWidth + g.hexByteWidth * 16 + g.hexGroupGap + g.asciiGap + g.asciiWidth
  }

  function Height(rows: nat): nat
  {
    rows * LINE_HEIGHT + 10
  }

  /** One hex token drawn at horizontal position `x`. */
  datatype Cell = Cell(x: nat, text: string)

  /** What one row shows: whether it is shaded, its baseline, its label,
      its hex cells and its ASCII column. */
  datatype DrawnRow = DrawnRow(shaded: bool, y: nat, rowLabel: string, cells: seq<Cell>, ascii: string)

  /** The label of a row: its global row index in hex, zero-padded to eight
      digits, and a colon. */
  function OffsetLabel(globalRow: nat): (rowLabel: string)
    ensures |rowLabel| >= 9 && rowLabel[|rowLabel| - 1] == ':'
  {
    PadStart(NatToString(globalRow, 16), 8, '0') + ":"
  }

  /** A hex token padded with `0` on the left to two characters. */
  function HexCell(token: string): (cell: string)
    ensures |cell| >= 2
  {
    PadStart(token, 2, '0')
  }

  /** A group gap comes before the token at `j` when `j` starts a new group of eight. */
  predicate GapBefore(j: nat)
  {
    j > 0 && j % 8 == 0
  }

  /** Where the token at `j` is drawn: the first after the label, each next
      one a cell further, plus a group gap where a group begins. */
  function CellX(g: Geometry, j: nat): nat
  {
    if j == 0 then g.offsetWidth + 2
    else CellX(g, j - 1) + g.hexByteWidth + (if GapBefore(j) then g.hexGroupGap else 0)
  }

  function Cells(g: Geometry, tokens: seq<string>): (cells: seq<Cell>)
    ensures |cells| == |tokens|
  {
    seq(|tokens|, j requires 0 <= j < |tokens| => Cell(CellX(g, j), HexCell(tokens[j])))
  }

  /** The character of a token in the ASCII column: the byte itself when it
      is printable (32..126), otherwise `.`; a token that is not hex shows `.`. */
  function AsciiChar(token: string): (c: char)
    ensures 32 <= c as int <= 126
  {
    match ParseNat(token, 16)
    case Some(v) => if 32 <= v <= 126 then v as char else '.'
    case None => '.'
  }

  /** The ASCII column: one character per token, space-padded to sixteen,
      between `| ` and ` |   `. */
  function AsciiText(tokens: seq<string>): string
  {
    "| " + PadEnd(seq(|tokens|, j requires 0 <= j < |tokens| => AsciiChar(tokens[j])), 16, ' ') + " |   "
  }

  /** Row `row` of a draw that starts at global row `lineStart`. */
  function RowSpec(g: Geometry, tokens: seq<string>, row: nat, lineStart: nat): DrawnRow
  {
    var globalRow := row + lineStart;
    DrawnRow(globalRow % 2 == 1, 8 + row * LINE_HEIGHT + LINE_HEIGHT / 2, OffsetLabel(globalRow),
             Cells(g, tokens), AsciiText(tokens))
  }

  function DrawSpec(g: Geometry, lines: seq<seq<string>>, lineStart: nat): (rows: seq<DrawnRow>)
    ensures |rows| == |lines|
  {
    seq(|lines|, r requires 0 <= r < |lines| => RowSpec(g, lines[r], r, lineStart))
  }

  /** The canvas `draw` paints on, with the fields it sets. */
  class Canvas {
    var width: nat
    var height: nat
    var drawn: seq<DrawnRow>
    var hexLines: seq<seq<string>>
    var hexLineStart: nat

    constructor()
      ensures width == 0 && height == 0 && drawn == [] && hexLines == [] && hexLineStart == 0
    {
      width := 0;
      height := 0;
      drawn := [];
      hexLines := [];
      hexLineStart := 0;
    }
  }

  /** Appending the spec cell to the first cells of a row gives one cell more. */
  lemma CellsPush(cells: seq<Cell>, cell: Cell, g: Geometry, tokens: seq<string>)
    requires |cells| < |tokens| && cell == Cell(CellX(g, |cells|), HexCell(tokens[|cells|]))
    requires forall k :: 0 <= k < |cells| ==> cells[k] == Cell(CellX(g, k), HexCell(tokens[k]))
    ensures forall k :: 0 <= k < |cells| + 1 ==> (cells + [cell])[k] == Cell(CellX(g, k), HexCell(tokens[k]))
  {
    forall k | 0 <= k < |cells| + 1
      ensures (cells + [cell])[k] == Cell(CellX(g, k), HexCell(tokens[k]))
    {
      if k < |cells| {
        assert (cells + [cell])[k] == cells[k];
      } else {
        assert (cells + [cell])[k] == cell;
      }
    }
  }

  /** The hex cells of one row: the cursor starts after the label, moves by
      a group gap before every eighth token and by one cell after each. */
  method DrawHexCells(g: Geometry, tokens: seq<string>) returns (cells: seq<Cell>)
    ensures cells == Cells(g, tokens)
  {
    var x: nat := g.offsetWidth + 2;
    cells := [];
    for j := 0 to |tokens|
      invariant |cells| == j
      invariant forall k :: 0 <= k < j ==> cells[k] == Cell(CellX(g, k), HexCell(tokens[k]))
      invariant x + (if GapBefore(j) then g.hexGroupGap else 0) == CellX(g, j)
    {
      if j > 0 && j % 8 == 0 {
        x := x + g.hexGroupGap;
      }
      CellsPush(cells, Cell(x, PadStart(tokens[j], 2, '0')), g, tokens);
      cells := cells + [Cell(x, PadStart(tokens[j], 2, '0'))];
      x := x + g.hexByteWidth;
    }
  }

  /** The ASCII column of one row, built a character at a time. */
  method DrawAscii(tokens: seq<string>) returns (text: string)
    ensures text == AsciiText(tokens)
  {
    var ascii := "";
    for j := 0 to |tokens|
      invariant ascii == seq(j, k requires 0 <= k < j => AsciiChar(tokens[k]))
    {
      var ch := AsciiChar(tokens[j]);
      ascii := ascii + [ch];
    }
    ascii := PadEnd(ascii, 16, ' ');
    text := "| " + ascii + " |   ";
  }

  /** One pass of the row loop of `draw`: shading, baseline, label, hex
      cells and ASCII column of row `row`. */
  method DrawRow(g: Geometry, tokens: seq<string>, row: nat, lineStart: nat) returns (drawn: DrawnRow)
    ensures drawn == RowSpec(g, tokens, row, lineStart)
  {
    var globalRow := row + lineStart;
    var y := 8 + row * LINE_HEIGHT + LINE_HEIGHT / 2;
    var shaded := globalRow % 2 == 1;
    var rowLabel := PadStart(NatToString(globalRow, 16), 8, '0') + ":";
    var cells := DrawHexCells(g, tokens);
    var ascii := DrawAscii(tokens);
    drawn := DrawnRow(shaded, y, rowLabel, cells, ascii);
  }

  /** Appending the spec row to the first rows of a draw gives one row more. */
  lemma RowsPush(rows: seq<DrawnRow>, drawn: DrawnRow, g: Geometry, lines: seq<seq<string>>, lineStart: nat)
    requires |rows| < |lines| && drawn == RowSpec(g, lines[|rows|], |rows|, lineStart)
    requires forall r :: 0 <= r < |rows| ==> rows[r] == RowSpec(g, lines[r], r, lineStart)
    ensures forall r :: 0 <= r < |rows| + 1 ==> (rows + [drawn])[r] == RowSpec(g, lines[r], r, lineStart)
  {
  }

  /** `draw`: sizes the canvas with the measured widths (or the fallback
      ones when no measuring context exists). Without a drawing context it
      stops there; otherwise it draws every row and records the lines and
      their first global row on the canvas. */
  method Draw(canvas: Canvas, measured: Option<Geometry>, hasContext: bool, lines: seq<seq<string>>, lineStart: nat)
    modifies canvas
    ensures canvas.width == Width(Layout(measured)) && canvas.height == Height(|lines|)
    ensures hasContext ==> canvas.drawn == DrawSpec(Layout(measured), lines, lineStart)
    ensures hasContext ==> canvas.hexLines == lines && canvas.hexLineStart == lineStart
    ensures !hasContext ==> canvas.drawn == old(canvas.drawn)
    ensures !hasContext ==> canvas.hexLines == old(canvas.hexLines) && canvas.hexLineStart == old(canvas.hexLineStart)
  {
    var g := FALLBACK_GEOMETRY;
    if measured.Some? {
      g := measured.value;
    }
    canvas.width := Width(g);
    canvas.height := Height(|lines|);
    if !hasContext {
      return;
    }
    var rows: seq<DrawnRow> := [];
    for row := 0 to |lines|
      invariant |rows| == row
      invariant forall r :: 0 <= r < row ==> rows[r] == RowSpec(g, lines[r], r, lineStart)
      invariant canvas.width == Width(g) && canvas.height == Height(|lines|)
    {
      var drawnRow := DrawRow(g, lines[row], row, lineStart);
      RowsPush(rows, drawnRow, g, lines, lineStart);
      rows := rows + [drawnRow];
    }
    assert rows == DrawSpec(g, lines, lineStart);
    canvas.drawn := rows;
    canvas.hexLines := lines;
    canvas.hexLineStart := lineStart;
  }

  /** Without a measuring context the canvas is 696 pixels wide. */
  lemma FallbackWidth()
    ensures Width(Layout(None)) == 696
  {
  }

  // ---------------------------------------------------------------------------
  // Properties of the row rules
  // ---------------------------------------------------------------------------

  /** The label reads back, in hex, to the global row index; below 16^8 it
      is exactly eight digits and a colon, the row's eight lowest hex digits. */
  lemma OffsetLabelRoundTrip(globalRow: nat)
    ensures var rowLabel := OffsetLabel(globalRow);
      ParseNat(rowLabel[..|rowLabel| - 1], 16) == Some(globalRow)
    ensures globalRow < Pow(16, 8) ==>
      |OffsetLabel(globalRow)| == 9 && OffsetLabel(globalRow)[..8] == FixedDigits(globalRow, 16, 8)
  {
    var digits := PadStart(NatToString(globalRow, 16), 8, '0');
    assert OffsetLabel(globalRow)[..|digits|] == digits;
    ParsePadStart(NatToString(globalRow, 16), 8, 16);
    ParseNatToString(globalRow, 16);
    if globalRow < Pow(16, 8) {
      FixedDigitsPadded(globalRow, 16, 8);
    }
  }

  /** A full row of sixteen tokens has exactly one group gap, before the ninth. */
  lemma OneGapPerRow()
    ensures forall j :: 0 <= j < 16 ==> (GapBefore(j) <==> j == 8)
  {
  }

  /** The position of the token at `j` in closed form: after the label, `j`
      cell widths and one group gap per group of eight already begun. */
  lemma {:induction false} CellXClosedForm(g: Geometry, j: nat)
    ensures CellX(g, j) == g.offsetWidth + 2 + j * g.hexByteWidth + (j / 8) * g.hexGroupGap
  {
    if j > 0 {
      CellXClosedForm(g, j - 1);
      StepTerms(j, g.hexByteWidth, g.hexGroupGap);
    }
  }

  /** The two products of the closed form, one token further on. */
  lemma StepTerms(j: nat, cell: nat, gap: nat)
    requires j > 0
    ensures j * cell == (j - 1) * cell + cell
    ensures (j / 8) * gap == ((j - 1) / 8) * gap + (if GapBefore(j) then gap else 0)
  {
    if GapBefore(j) {
      assert j / 8 == (j - 1) / 8 + 1;
    } else {
      assert j / 8 == (j - 1) / 8;
    }
  }

  /** For the tokens of a hex dump (two hex digits per byte) the ASCII column
      shows a printable byte as itself and any other byte as `.`. */
  lemma AsciiOfByte(b: uint8)
    ensures AsciiChar(Hex2(b)) == if 32 <= b <= 126 then b as char else '.'
  {
    ParseHex2(b);
  }

  /** A row of at most sixteen tokens has an ASCII column of 23 characters:
      the sixteen padded characters between `| ` and ` |   `. */
  lemma AsciiWidth(tokens: seq<string>)
    requires |tokens| <= 16
    ensures |AsciiText(tokens)| == 23
    ensures forall j :: 0 <= j < |tokens| ==> AsciiText(tokens)[2 + j] == AsciiChar(tokens[j])
    ensures forall j :: 2 + |tokens| <= j < 18 ==> AsciiText(tokens)[j] == ' '
  {
  }

  /** Shading alternates from row to row, and is on exactly at odd global rows. */
  lemma ZebraRows(g: Geometry, lines: seq<seq<string>>, lineStart: nat)
    ensures var rows := DrawSpec(g, lines, lineStart);
      && (forall r :: 0 <= r < |rows| ==> (rows[r].shaded <==> (r + lineStart) % 2 == 1))
      && (forall r :: 0 <= r < |rows| - 1 ==> rows[r].shaded != rows[r + 1].shaded)
  {
    var rows := DrawSpec(g, lines, lineStart);
    forall r | 0 <= r < |rows| - 1
      ensures rows[r].shaded != rows[r + 1].shaded
    {
      Parity(r + lineStart);
    }
  }

  lemma Parity(n: nat)
    ensures (n % 2 == 1) != ((n + 1) % 2 == 1)
  {
  }

  /** Drawing the rows [a, b) with `lineStart = a` shows the same labels,
      shading, cells and ASCII as those rows of a whole draw from row 0;
      only the baselines move up by `a` lines. */
  lemma SubrangeDraw(g: Geometry, lines: seq<seq<string>>, a: nat, b: nat)
    requires a <= b <= |lines|
    ensures var part := DrawSpec(g, lines[a..b], a);
      var whole := DrawSpec(g, lines, 0);
      forall i :: 0 <= i < b - a ==>
        && part[i].rowLabel == whole[a + i].rowLabel
        && part[i].shaded == whole[a + i].shaded
        && part[i].cells == whole[a + i].cells
        && part[i].ascii == whole[a + i].ascii
        && part[i].y + a * LINE_HEIGHT == whole[a + i].y
  {
    var part := DrawSpec(g, lines[a..b], a);
    var whole := DrawSpec(g, lines, 0);
    forall i | 0 <= i < b - a
      ensures part[i].y + a * LINE_HEIGHT == whole[a + i].y
    {
      assert lines[a..b][i] == lines[a + i];
      assert (a + i) * LINE_HEIGHT == i * LINE_HEIGHT + a * LINE_HEIGHT;
    }
  }
}
