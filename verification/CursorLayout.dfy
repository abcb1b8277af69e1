/** Where the console's cursor goes and where glyphs land, on a screen of unbounded height. */
module CursorLayout {
  import opened Arithmetic

  datatype Cursor = Cursor(line: nat, column: nat)

  /** A glyph drawn at a cell of the character grid. */
  datatype Glyph = Glyph(chr: char, line: nat, column: nat)

  function NewLine(c: Cursor): Cursor { Cursor(c.line + 1, 0) }

  function Next(c: Cursor, width: nat): Cursor {
    if c.column + 1 == width then NewLine(c) else Cursor(c.line, c.column + 1)
  }

  function After(c: Cursor, chr: char, width: nat): Cursor {
    if chr == '\n' then NewLine(c)
    else if chr == '\t' then Next(Next(Next(c, width), width), width)
    else Next(c, width)
  }

  predicate Printable(chr: char) { chr != '\n' && chr != '\t' }

  /** The cursor after printing a text. */
  function Layout(c: Cursor, text: string, width: nat): Cursor {
    if text == "" then c else After(Layout(c, text[..|text| - 1], width), text[|text| - 1], width)
  }

  /** The glyphs that printing a text draws. */
  function Glyphs(c: Cursor, text: string, width: nat): seq<Glyph> {
    if text == "" then []
    else
      var at, chr := Layout(c, text[..|text| - 1], width), text[|text| - 1];
      Glyphs(c, text[..|text| - 1], width) + if Printable(chr) then [Glyph(chr, at.line, at.column)] else []
  }

  lemma {:induction false} LayoutStep(c: Cursor, text: string, chr: char, width: nat)
    ensures Layout(c, text + [chr], width) == After(Layout(c, text, width), chr, width)
    ensures Glyphs(c, text + [chr], width) == Glyphs(c, text, width)
      + (if Printable(chr) then [Glyph(chr, Layout(c, text, width).line, Layout(c, text, width).column)] else [])
  {
    assert (text + [chr])[..|text|] == text;
  }

  // ---------------------------------------------------------------- the layout as linear positions

  /** The number of cells before the cursor, in reading order. */
  function Position(c: Cursor, width: nat): nat { c.line * width + c.column }

  /** Reading-order arithmetic: a glyph advances by one, a tab by three, a newline to the next multiple. */
  function Advance(p: nat, text: string, width: nat): nat
    requires 0 < width
  {
    if text == "" then p
    else
      var q, chr := Advance(p, text[..|text| - 1], width), text[|text| - 1];
      if chr == '\n' then (q / width + 1) * width else if chr == '\t' then q + 3 else q + 1
  }

  lemma NextPosition(c: Cursor, width: nat)
    requires c.column < width
    ensures Next(c, width).column < width && Position(Next(c, width), width) == Position(c, width) + 1
  {
    assert (c.line + 1) * width == c.line * width + width;
  }

  lemma AfterPosition(c: Cursor, chr: char, width: nat)
    requires c.column < width
    ensures After(c, chr, width).column < width
    ensures Position(After(c, chr, width), width)
      == if chr == '\n' then (Position(c, width) / width + 1) * width
         else if chr == '\t' then Position(c, width) + 3 else Position(c, width) + 1
  {
    NextPosition(c, width);
    NextPosition(Next(c, width), width);
    NextPosition(Next(Next(c, width), width), width);
    DivMod(c.line, width, c.column);
  }

  /** The cursor stays inside the line, and its linear position follows the reading-order arithmetic. */
  lemma {:induction false} LayoutPosition(c: Cursor, text: string, width: nat)
    requires c.column < width
    ensures Layout(c, text, width).column < width
    ensures Position(Layout(c, text, width), width) == Advance(Position(c, width), text, width)
  {
    if text != "" {
      LayoutPosition(c, text[..|text| - 1], width);
      AfterPosition(Layout(c, text[..|text| - 1], width), text[|text| - 1], width);
    }
  }

  /** A cursor inside the line is determined by its linear position. */
  lemma CursorOfPosition(c: Cursor, width: nat)
    requires c.column < width
    ensures c == Cursor(Position(c, width) / width, Position(c, width) % width)
  {
    DivMod(c.line, width, c.column);
  }

  lemma {:induction false} AdvancePlain(p: nat, text: string, width: nat)
    requires 0 < width && '\n' !in text && '\t' !in text
    ensures Advance(p, text, width) == p + |text|
  {
    if text != "" {
      assert text[|text| - 1] in text;
      AdvancePlain(p, text[..|text| - 1], width);
    }
  }

  /** Every character but newlines and tabs is drawn. */
  lemma {:induction false} GlyphCount(c: Cursor, text: string, width: nat)
    ensures |Glyphs(c, text, width)| == |text| - multiset(text)['\n'] - multiset(text)['\t']
  {
    if text != "" {
      var last := |text| - 1;
      GlyphCount(c, text[..last], width);
      assert text == text[..last] + [text[last]];
      assert multiset(text) == multiset(text[..last]) + multiset{text[last]};
    }
  }

  /** The glyphs of a text begin with those of its beginning. */
  lemma {:induction false} GlyphsPrefix(c: Cursor, text: string, width: nat, i: nat)
    requires i <= |text|
    ensures Glyphs(c, text[..i], width) <= Glyphs(c, text, width)
    decreases |text|
  {
    if i == |text| {
      assert text[..i] == text;
    } else {
      GlyphsPrefix(c, text[..|text| - 1], width, i);
      assert text[..|text| - 1][..i] == text[..i];
    }
  }

  /** Character i of any text, if it is no newline and no tab, is the glyph whose number counts the drawn characters
      before it, and it lands at the cell to which reading-order arithmetic leads. */
  lemma {:induction false} GlyphOfCharacter(c: Cursor, text: string, width: nat, i: nat)
    requires c.column < width && i < |text| && text[i] != '\n' && text[i] != '\t'
    ensures var k := i - multiset(text[..i])['\n'] - multiset(text[..i])['\t'];
      var p := Advance(Position(c, width), text[..i], width);
      0 <= k < |Glyphs(c, text, width)| && Glyphs(c, text, width)[k] == Glyph(text[i], p / width, p % width)
  {
    hide Glyphs, Layout, Advance;
    var at := Layout(c, text[..i], width);
    GlyphCount(c, text[..i], width);
    LayoutPosition(c, text[..i], width);
    CursorOfPosition(at, width);
    LayoutStep(c, text[..i], text[i], width);
    assert text[..i + 1] == text[..i] + [text[i]];
    GlyphsPrefix(c, text, width, i + 1);
  }

  /** Glyph number i of plain text printed from the origin lands at line i / width, column i % width. */
  lemma {:induction false} PlainGlyphs(text: string, width: nat, i: nat)
    requires 0 < width && '\n' !in text && '\t' !in text && i < |text|
    ensures |Glyphs(Cursor(0, 0), text, width)| == |text|
    ensures Glyphs(Cursor(0, 0), text, width)[i] == Glyph(text[i], i / width, i % width)
  {
    hide Glyphs, Advance;
    PlainPrefix(text, i);
    GlyphCount(Cursor(0, 0), text, width);
    GlyphOfCharacter(Cursor(0, 0), text, width, i);
    AdvancePlain(0, text[..i], width);
  }

  lemma PlainPrefix(text: string, i: nat)
    requires '\n' !in text && '\t' !in text && i < |text|
    ensures '\n' !in text[..i] && '\t' !in text[..i] && text[i] != '\n' && text[i] != '\t'
    ensures multiset(text)['\n'] == multiset(text)['\t'] == 0
    ensures multiset(text[..i])['\n'] == multiset(text[..i])['\t'] == 0
  {
  }

  /** Each cell of the grid is that of exactly one position. */
  lemma CellVisitedOnce(width: nat, line: nat, column: nat, i: nat)
    requires column < width
    ensures i / width == line && i % width == column <==> i == line * width + column
  {
    DivMod(line, width, column);
    assert i == i / width * width + i % width;
  }

  /** The cells of a screen are those of the first lines * width positions. */
  lemma CellOnScreen(lines: nat, width: nat, line: nat, column: nat)
    requires column < width
    ensures line < lines <==> line * width + column < lines * width
  {
    assert line < lines ==> (line + 1) * width <= lines * width;
    assert line >= lines ==> line * width >= lines * width;
  }
}
