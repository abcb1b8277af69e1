/** The text console: cursor, screen clearing and the printf engine. */
module ConsoleModel {
  import opened Words
  import opened Numerals
  import opened Stdlib
  import opened Format
  import opened CursorLayout

  /** Glyphs of an unbounded screen, with the line number cut to uint16_t. */
  function Wrapped(gs: seq<Glyph>): (ws: seq<Glyph>)
    ensures |ws| == |gs|
  {
    seq(|gs|, i requires 0 <= i < |gs| => gs[i].(line := gs[i].line % 0x1_0000))
  }

  lemma WrappedAppend(a: seq<Glyph>, b: seq<Glyph>)
    ensures Wrapped(a + b) == Wrapped(a) + Wrapped(b)
  {
  }

  function Blanks(n: nat): string { seq(n, _ => ' ') }

  /** One blank in every cell of a screen, in reading order. */
  function BlankScreen(lines: nat, width: nat): seq<Glyph>
    requires 0 < width
  {
    seq(lines * width, i requires 0 <= i => Glyph(' ', i / width, i % width))
  }

  /** Every cell of the screen once, each with a blank. */
  lemma BlankScreenCells(lines: nat, width: nat)
    requires 0 < width
    ensures |BlankScreen(lines, width)| == lines * width
    ensures forall k :: 0 <= k < lines * width ==>
      var g := BlankScreen(lines, width)[k]; g.chr == ' ' && g.column < width && g.line * width + g.column == k
  {
  }

  lemma LineInScreen(i: nat, lines: nat, width: nat)
    requires 0 < width && i < lines * width
    ensures i / width < lines
  {
    assert i == i / width * width + i % width;
    var e: int := lines - i / width;
    assert e * width == lines * width - i / width * width;
    assert e * width > 0;
  }

  /** Printing lines * width blanks from the origin draws exactly the blank screen. */
  lemma {:induction false} BlanksFillScreen(lines: nat, width: nat)
    requires 0 < width && lines < 0x1_0000
    ensures Wrapped(Glyphs(Cursor(0, 0), Blanks(lines * width), width)) == BlankScreen(lines, width)
  {
    hide Glyphs;
    var text := Blanks(lines * width);
    GlyphCount(Cursor(0, 0), text, width);
    forall i | 0 <= i < |text|
      ensures Wrapped(Glyphs(Cursor(0, 0), text, width))[i] == Glyph(' ', i / width, i % width)
    {
      PlainGlyphs(text, width, i);
      LineInScreen(i, lines, width);
    }
  }

  class Console {
    var line: nat
    var column: nat
    const maxLines: nat
    const maxColumns: nat
    /** The glyphs handed to the framebuffer so far, each with its cell. */
    var drawn: seq<Glyph>

    constructor (maxLines: nat, maxColumns: nat)
      requires maxLines < 0x1_0000 && 0 < maxColumns < 0x1_0000
      ensures Valid() && At(Cursor(0, 0)) && drawn == []
      ensures this.maxLines == maxLines && this.maxColumns == maxColumns
    {
      line, column, this.maxLines, this.maxColumns, drawn := 0, 0, maxLines, maxColumns, [];
    }

    ghost predicate Valid()
      reads this
    {
      maxLines < 0x1_0000 && column < maxColumns < 0x1_0000 && line < 0x1_0000
    }

    /** The cursor is at c, whose line number is not cut to 16 bits. */
    ghost predicate At(c: Cursor)
      reads this
    {
      line == c.line % 0x1_0000 && column == c.column
    }

    method NewLine(ghost c: Cursor)
      requires Valid() && At(c)
      modifies `line, `column
      ensures Valid() && At(CursorLayout.NewLine(c)) && line == (old(line) + 1) % 0x1_0000 && column == 0
    {
      column := 0;
      line := (line + 1) % 0x1_0000;
    }

    method Next(ghost c: Cursor)
      requires Valid() && At(c)
      modifies `line, `column
      ensures Valid() && At(CursorLayout.Next(c, maxColumns))
      ensures if old(column) + 1 == maxColumns then line == (old(line) + 1) % 0x1_0000 && column == 0
              else line == old(line) && column == old(column) + 1
    {
      if column + 1 == maxColumns {
        NewLine(c);
      } else {
        column := column + 1;
      }
    }

    method Reset()
      requires Valid()
      modifies `line, `column
      ensures Valid() && At(Cursor(0, 0))
    {
      column := 0;
      line := 0;
    }

    method PrintChar(chr: char, ghost c: Cursor)
      requires Valid() && At(c)
      modifies `line, `column, `drawn
      ensures Valid() && At(After(c, chr, maxColumns))
      ensures drawn == old(drawn) + if Printable(chr) then Wrapped([Glyph(chr, c.line, c.column)]) else []
      ensures chr != '\n' && chr != '\t' ==> drawn == old(drawn) + [Glyph(chr, old(line), old(column))]
      ensures chr == '\n' || chr == '\t' ==> drawn == old(drawn)
    {
      if chr == '\n' {
        NewLine(c);
      } else if chr == '\t' {
        Next(c);
        Next(CursorLayout.Next(c, maxColumns));
        Next(CursorLayout.Next(CursorLayout.Next(c, maxColumns), maxColumns));
      } else {
        drawn := drawn + [Glyph(chr, line, column)];
        Next(c);
      }
    }

    /** The next character of a text of which t has been printed from c. */
    method PrintNext(chr: char, ghost c: Cursor, ghost t: string, ghost before: seq<Glyph>)
      requires Valid() && At(Layout(c, t, maxColumns)) && drawn == before + Wrapped(Glyphs(c, t, maxColumns))
      modifies `line, `column, `drawn
      ensures Valid() && At(Layout(c, t + [chr], maxColumns))
      ensures drawn == before + Wrapped(Glyphs(c, t + [chr], maxColumns))
    {
      var at := Layout(c, t, maxColumns);
      LayoutStep(c, t, chr, maxColumns);
      WrappedAppend(Glyphs(c, t, maxColumns), if Printable(chr) then [Glyph(chr, at.line, at.column)] else []);
      PrintChar(chr, at);
    }

    method PrintStr(str: seq<char>, ghost c: Cursor)
      requires Valid() && At(c) && '\0' in str
      modifies `line, `column, `drawn
      ensures Valid() && At(Layout(c, Text(str), maxColumns))
      ensures drawn == old(drawn) + Wrapped(Glyphs(c, Text(str), maxColumns))
      ensures |drawn| == |old(drawn)| + |Text(str)| - multiset(Text(str))['\n'] - multiset(Text(str))['\t']
    {
      hide Layout, Glyphs, Wrapped, At;
      ghost var t := Text(str);
      NothingPrinted(c, maxColumns);
      var i := 0;
      while str[i] != '\0'
        invariant i <= |t| && Valid() && At(Layout(c, t[..i], maxColumns))
        invariant drawn == old(drawn) + Wrapped(Glyphs(c, t[..i], maxColumns))
        decreases |t| - i
      {
        assert i < |t|;
        PrintNext(str[i], c, t[..i], old(drawn));
        assert t[..i + 1] == t[..i] + [str[i]];
        i := i + 1;
      }
      assert i == |t|;
      assert t[..i] == t;
      GlyphCount(c, t, maxColumns);
    }

    method PrintInt(num: Word, base: nat, ghost c: Cursor)
      requires Valid() && At(c) && Base(base) && |Render(num, base)| < 32
      modifies `line, `column, `drawn
      ensures Valid() && At(Layout(c, Render(num, base), maxColumns))
      ensures drawn == old(drawn) + Wrapped(Glyphs(c, Render(num, base), maxColumns))
    {
      hide Layout, Glyphs, Wrapped, Render;
      var str := new char[32];
      Itoa(num, str, base);
      RenderChars(num, base);
      TextOf(Render(num, base), str[..][|Render(num, base)| + 1..]);
      assert str[..] == Render(num, base) + ['\0'] + str[..][|Render(num, base)| + 1..];
      PrintStr(str[..], c);
    }

    method ClearScreen()
      requires Valid() && maxLines * maxColumns < 0x8000_0000
      modifies `line, `column, `drawn
      ensures Valid() && line == column == 0
      ensures drawn == old(drawn) + BlankScreen(maxLines, maxColumns)
      ensures |drawn| == |old(drawn)| + maxLines * maxColumns
      ensures forall k :: |old(drawn)| <= k < |drawn| ==>
        var g := drawn[k]; g.chr == ' ' && g.column < maxColumns && g.line * maxColumns + g.column == k - |old(drawn)|
    {
      hide Layout, Glyphs, Wrapped, BlankScreen;
      Reset();
      NothingPrinted(Cursor(0, 0), maxColumns);
      var i := 0;
      while i < maxLines * maxColumns
        invariant i <= maxLines * maxColumns && Valid() && At(Layout(Cursor(0, 0), Blanks(i), maxColumns))
        invariant drawn == old(drawn) + Wrapped(Glyphs(Cursor(0, 0), Blanks(i), maxColumns))
      {
        PrintNext(' ', Cursor(0, 0), Blanks(i), old(drawn));
        assert Blanks(i + 1) == Blanks(i) + [' '];
        i := i + 1;
      }
      BlanksFillScreen(maxLines, maxColumns);
      BlankScreenCells(maxLines, maxColumns);
      Reset();
    }

    // -------------------------------------------------------------- printf

    /** %d and %p: itoa into the small buffer, and from there behind the j characters written so far. */
    method PutNumber(n: Word, base: nat, buf: array<char>, tempBuf: array<char>, j: nat) returns (k: nat)
      requires (base == 10 || base == 16) && buf != tempBuf && tempBuf.Length == 64
      requires j + |Render(n, base)| <= buf.Length
      modifies buf, tempBuf
      ensures k == j + |Render(n, base)| && buf[..k] == old(buf[..j]) + Render(n, base)
    {
      hide Render, Text;
      WordDigits(n);
      RenderChars(n, base);
      Itoa(n, tempBuf, base);
      TextOf(Render(n, base), old(tempBuf[|Render(n, base)| + 1..]));
      var tempLen := StrLen(tempBuf[..]);
      assert tempBuf[..tempLen] == Render(n, base);
      Memcpy(buf, j, tempBuf[..], tempLen);
      k := j + tempLen;
    }

    /** A conversion in the format: the text of one argument, behind the j characters written so far. */
    method PutArgument(c: char, a: Arg, buf: array<char>, tempBuf: array<char>, j: nat) returns (k: nat)
      requires Directive(c) && Accepts(c, a) && buf != tempBuf && tempBuf.Length == 64
      requires j + |Emitted(c, a)| <= buf.Length
      modifies buf, tempBuf
      ensures k == j + |Emitted(c, a)| && buf[..k] == old(buf[..j]) + Emitted(c, a)
      ensures c == 's' ==> buf[..k] == old(buf[..j]) + Text(a.bytes)
      ensures c == 'd' ==> buf[..k] == old(buf[..j]) + Render(a.n, 10)
      ensures c == 'p' ==> buf[..k] == old(buf[..j]) + Render(a.n, 16)
    {
      hide Render;
      if c == 's' {
        var tempLen := StrLen(a.bytes);
        Memcpy(buf, j, a.bytes, tempLen);
        k := j + tempLen;
      } else if c == 'd' {
        k := PutNumber(a.n, 10, buf, tempBuf, j);
      } else {
        k := PutNumber(a.n, 16, buf, tempBuf, j);
      }
    }

    /** The loop of Console__printf over the format. */
    method FormatInto(str: seq<char>, args: seq<Arg>, buf: array<char>, tempBuf: array<char>) returns (j: nat)
      requires '\0' in str && |Text(str)| < 0x1_0000 && buf != tempBuf && tempBuf.Length == 64
      requires Supplied(Text(str), args) && |Rendering(Text(str), args)| < buf.Length
      modifies buf, tempBuf
      ensures j == |Rendering(Text(str), args)| && buf[..j] == Rendering(Text(str), args)
    {
      hide Rendering, Supplied, Render, Emitted, Accepts, Text, Pending;
      ghost var t, all := Text(str), Rendering(Text(str), args);
      var len := StrLen(str);
      var isPercent, rest := false, args;
      j := 0;
      var i := 0;
      assert t[i..] == t;
      PendingEnds(t, isPercent, rest);
      while i < len
        invariant i <= len && j <= |all| && Supplied(Pending(isPercent, t[i..]), rest)
        invariant all == buf[..j] + Rendering(Pending(isPercent, t[i..]), rest)
      {
        PendingStep(isPercent, t[i..], rest);
        assert t[i..][1..] == t[i + 1..] && t[i..][0] == str[i];
        if isPercent {
          if str[i] == 's' || str[i] == 'd' || str[i] == 'p' {
            j := PutArgument(str[i], rest[0], buf, tempBuf, j);
            rest := rest[1..];
          }
          isPercent := false;
        } else if str[i] == '%' {
          isPercent := true;
        } else {
          buf[j] := str[i];
          j := j + 1;
        }
        i := i + 1;
      }
      PendingEnds(t, isPercent, rest);
      assert t[i..] == "";
    }

    /** Console__printf: prints exactly the rendering of the format and its arguments. */
    method Printf(str: seq<char>, args: seq<Arg>, ghost c: Cursor)
      requires Valid() && At(c) && '\0' in str && |Text(str)| < 0x1_0000
      requires Supplied(Text(str), args) && |Rendering(Text(str), args)| < 4096
      modifies `line, `column, `drawn
      ensures Valid() && At(Layout(c, Rendering(Text(str), args), maxColumns))
      ensures drawn == old(drawn) + Wrapped(Glyphs(c, Rendering(Text(str), args), maxColumns))
    {
      hide Layout, Glyphs, Wrapped, At, Rendering, Supplied, Text;
      var buf, tempBuf := new char[4096], new char[64];
      Memset(buf, '\0', 4096);
      Memset(tempBuf, '\0', 64);
      var j := FormatInto(str, args, buf, tempBuf);
      ghost var text := buf[..j];
      buf[j] := '\0';
      assert buf[..] == text + ['\0'] + buf[j + 1..];
      RenderingHasNoNul(Text(str), args);
      TextOf(text, buf[j + 1..]);
      PrintStr(buf[..], c);
    }
  }

  lemma {:induction false} NothingPrinted(c: Cursor, width: nat)
    ensures Layout(c, "", width) == c && Wrapped(Glyphs(c, "", width)) == []
    ensures Blanks(0) == "" && forall s: string :: s[..0] == ""
  {
  }
}
