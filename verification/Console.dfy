/**
 Typing console output onto the display: the screen is a window on a terminal that never forgets a line.
 */
module Console {
  import opened Words
  import opened Display

  type Cell = (Byte, Byte)

  /** A line of the terminal: 80 cells. */
  type Line = seq<Cell>

  const NEWLINE: Byte := 10
  const RETURN: Byte := 13
  const TAB: Byte := 9

  function BlankLine(): (line: Line)
    ensures |line| == COLS && forall c :: 0 <= c < COLS ==> line[c] == BLANK
  {
    seq(COLS, _ => BLANK)
  }

  /** All the lines typed so far, and the column in the last one. */
  datatype Terminal = Terminal(lines: seq<Line>, col: nat) {
    predicate Wf() {
      lines != [] && forall i :: 0 <= i < |lines| ==> |lines[i]| == COLS
    }
  }

  const FRESH: Terminal := Terminal([BlankLine()], 0)

  /** One character: a line feed opens a line, a return goes back, a tab moves on; beyond column 80 nothing shows. */
  function Type(t: Terminal, ch: Byte): (next: Terminal)
    requires t.Wf()
    ensures next.Wf()
  {
    if ch == NEWLINE then Terminal(t.lines + [BlankLine()], 0)
    else if ch == RETURN then t.(col := 0)
    else if ch == TAB then t.(col := (t.col + 8) / 8 * 8)
    else if t.col < COLS then
      var last := |t.lines| - 1;
      Terminal(t.lines[last := t.lines[last][t.col := (ch, TEXT_ATTR)]], t.col + 1)
    else t
  }

  function TypeAll(text: seq<Byte>): (t: Terminal)
    ensures t.Wf()
  {
    if text == [] then FRESH else Type(TypeAll(text[..|text| - 1]), text[|text| - 1])
  }

  // ---- the screen ----

  /** How many lines have scrolled off. */
  function Hidden(t: Terminal): nat {
    if |t.lines| > ROWS then |t.lines| - ROWS else 0
  }

  function ScreenCell(t: Terminal, row: nat, col: nat): Cell
    requires t.Wf() && row < ROWS && col < COLS
  {
    var i := Hidden(t) + row;
    if i < |t.lines| then t.lines[i][col] else BLANK
  }

  /** The display shows the last 25 lines. */
  ghost predicate Shows(buf: seq<Byte>, t: Terminal)
    requires |buf| == 4000 && t.Wf()
  {
    forall row: nat, col: nat :: row < ROWS && col < COLS ==> CellIs(buf, row, col, ScreenCell(t, row, col))
  }

  /** The cursor's row. */
  function CursorRow(t: Terminal): nat
    requires t.Wf()
  {
    |t.lines| - 1 - Hidden(t)
  }

  lemma NewlineFits(buf: seq<Byte>, t: Terminal)
    requires |buf| == 4000 && t.Wf() && Shows(buf, t)
    ensures var next := Type(t, NEWLINE);
            Shows(if |t.lines| < ROWS then buf else Scrolled(buf), next)
  {
    var next := Type(t, NEWLINE);
    var buf' := if |t.lines| < ROWS then buf else Scrolled(buf);
    forall row: nat, col: nat | row < ROWS && col < COLS
      ensures CellIs(buf', row, col, ScreenCell(next, row, col))
    {
      if |t.lines| < ROWS {
        assert CellIs(buf, row, col, ScreenCell(t, row, col));
      } else if row + 1 < ROWS {
        assert CellIs(buf, row + 1, col, ScreenCell(t, row + 1, col));
        ScrolledCell(buf, row, col);
      } else {
        ScrolledCell(buf, row, col);
      }
    }
  }

  lemma SameLines(buf: seq<Byte>, t: Terminal, t': Terminal)
    requires |buf| == 4000 && t.Wf() && t'.Wf() && t.lines == t'.lines && Shows(buf, t)
    ensures Shows(buf, t') && CursorRow(t') == CursorRow(t)
  {
    forall row: nat, col: nat | row < ROWS && col < COLS
      ensures CellIs(buf, row, col, ScreenCell(t', row, col))
    {
      assert CellIs(buf, row, col, ScreenCell(t, row, col));
    }
  }

  /** Scrolling moves each row's cells up whole. */
  lemma ScrolledCell(buf: seq<Byte>, row: nat, col: nat)
    requires |buf| == 4000 && row < ROWS && col < COLS
    ensures row + 1 < ROWS ==>
              CellIs(Scrolled(buf), row, col, (buf[Off(row + 1, col)], buf[Off(row + 1, col) + 1]))
    ensures row + 1 == ROWS ==> CellIs(Scrolled(buf), row, col, BLANK)
  {
  }

  lemma CharacterFits(buf: seq<Byte>, t: Terminal, ch: Byte)
    requires |buf| == 4000 && t.Wf() && Shows(buf, t) && ch !in {NEWLINE, RETURN, TAB} && t.col < COLS
    ensures CursorRow(t) < ROWS
    ensures var off := Off(CursorRow(t), t.col); Shows(buf[off := ch][off + 1 := TEXT_ATTR], Type(t, ch))
  {
    var off, next := Off(CursorRow(t), t.col), Type(t, ch);
    var buf' := buf[off := ch][off + 1 := TEXT_ATTR];
    forall row: nat, col: nat | row < ROWS && col < COLS
      ensures CellIs(buf', row, col, ScreenCell(next, row, col))
    {
      assert CellIs(buf, row, col, ScreenCell(t, row, col));
      assert Off(row, col) == off <==> row == CursorRow(t) && col == t.col;
    }
  }

  /**
   The console loop: whatever is typed, the screen shows the last 25 lines of the terminal, the cache
   invariant holds, and the picture on the window is that screen's.
   */
  method ShowConsole(d: VgaDisplay, text: seq<Byte>)
    requires d.Valid() && Shows(d.buffer[..], FRESH) && Codes(d.buffer[..])
    requires forall i :: 0 <= i < |text| ==> text[i] < 128
    modifies d`dirty, d.buffer, d.framebuffer
    ensures d.Valid() && Shows(d.buffer[..], TypeAll(text))
    ensures Codes(d.buffer[..]) && !d.dirty && d.Shown()
  {
    var col, row := 0, 0;
    ghost var t := FRESH;
    for i := 0 to |text|
      invariant d.Valid() && Codes(d.buffer[..])
      invariant t == TypeAll(text[..i]) && Shows(d.buffer[..], t)
      invariant col == t.col && row == CursorRow(t) < ROWS
    {
      var ch := text[i];
      ghost var buf := d.buffer[..];
      assert text[..i + 1][..i] == text[..i];
      if ch == NEWLINE {
        NewlineFits(buf, t);
        col := 0;
        row := row + 1;
        if row >= ROWS {
          d.ScrollUp();
          ScrolledCodes(buf);
          row := ROWS - 1;
        }
      } else if ch == RETURN {
        SameLines(buf, t, Type(t, ch));
        col := 0;
      } else if ch == TAB {
        SameLines(buf, t, Type(t, ch));
        col := (col + 8) / 8 * 8;
      } else if col < COLS && row < ROWS {
        CharacterFits(buf, t, ch);
        d.WriteChar(col, row, ch, TEXT_ATTR);
        WrittenCodes(buf, row, col, ch);
        col := col + 1;
      }
      t := Type(t, ch);
    }
    assert text[..|text|] == text;
    d.Render();
  }

  lemma ScrolledCodes(buf: seq<Byte>)
    requires Codes(buf)
    ensures Codes(Scrolled(buf))
  {
    forall row: nat, col: nat | row < ROWS && col < COLS
      ensures Scrolled(buf)[Off(row, col)] < 128
    {
      ScrolledCell(buf, row, col);
      assert row + 1 < ROWS ==> buf[Off(row + 1, col)] < 128;
    }
  }

  lemma WrittenCodes(buf: seq<Byte>, row: nat, col: nat, ch: Byte)
    requires Codes(buf) && row < ROWS && col < COLS && ch < 128
    ensures Codes(buf[Off(row, col) := ch][Off(row, col) + 1 := TEXT_ATTR])
  {
  }

  // ---- control characters ----

  /**
   A return goes back to the first column and a tab on to the next multiple of eight; neither writes anything. What is
   typed after a return overwrites the line.
   */
  lemma ControlsAre(t: Terminal, ch: Byte)
    requires t.Wf() && ch !in {10, 13, 9}
    ensures var (back, on) := (Type(t, 13), Type(t, 9));
            && back.lines == on.lines == t.lines && back.col == 0
            && on.col % 8 == 0 && t.col < on.col <= t.col + 8
    ensures var (last, over) := (|t.lines| - 1, Type(Type(t, 13), ch));
            && over.col == 1 && |over.lines| == |t.lines| && over.lines[..last] == t.lines[..last]
            && over.lines[last][0] == (ch, 10) && over.lines[last][1..] == t.lines[last][1..]
  {
    NextStop(t.col);
  }

  lemma NextStop(col: nat)
    ensures var stop := (col + 8) / 8 * 8; stop % 8 == 0 && col < stop <= col + 8
  {
  }

  // ---- printable text ----

  predicate Printable(text: seq<Byte>) {
    forall i :: 0 <= i < |text| ==> text[i] == 10 || 32 <= text[i] < 127
  }

  /** The text cut at its line feeds. */
  function Split(text: seq<Byte>): (lines: seq<seq<Byte>>)
    ensures lines != []
  {
    if text == [] then [[]]
    else
      var n := |text| - 1;
      var lines := Split(text[..n]);
      if text[n] == 10 then lines + [[]] else lines[|lines| - 1 := lines[|lines| - 1] + [text[n]]]
  }

  /** A line of text cut to 80 columns and filled up with blanks. */
  function Padded(line: seq<Byte>): (cells: Line)
    ensures |cells| == COLS
    ensures |cells| == 80 && forall c :: 0 <= c < 80 ==> cells[c] == if c < |line| then (line[c], 10) else (32, 7)
  {
    seq(COLS, c requires 0 <= c < COLS => if c < |line| then (line[c], TEXT_ATTR) else BLANK)
  }

  /** The terminal's lines are these lines, each cut to 80 columns, and the cursor stands after the last. */
  predicate Typed(t: Terminal, lines: seq<seq<Byte>>)
    requires lines != []
  {
    && |t.lines| == |lines|
    && (forall i :: 0 <= i < |lines| ==> t.lines[i] == Padded(lines[i]))
    && t.col == (if |lines[|lines| - 1]| < COLS then |lines[|lines| - 1]| else COLS)
  }

  lemma TypedNewline(t: Terminal, lines: seq<seq<Byte>>)
    requires lines != [] && t.Wf() && Typed(t, lines)
    ensures Typed(Type(t, NEWLINE), lines + [[]])
  {
    assert BlankLine() == Padded([]);
  }

  lemma TypedCharacter(t: Terminal, lines: seq<seq<Byte>>, ch: Byte)
    requires lines != [] && t.Wf() && Typed(t, lines) && 32 <= ch
    ensures var last := |lines| - 1; Typed(Type(t, ch), lines[last := lines[last] + [ch]])
  {
    var last := lines[|lines| - 1];
    if |last| < COLS {
      assert Padded(last)[|last| := (ch, TEXT_ATTR)] == Padded(last + [ch]);
    } else {
      assert Padded(last) == Padded(last + [ch]);
    }
  }

  /** For printable text and line feeds the terminal's lines are the text's lines, each cut to 80 columns. */
  lemma {:induction false} PrintableLines(text: seq<Byte>)
    requires Printable(text)
    ensures Typed(TypeAll(text), Split(text))
  {
    hide Typed, Type;
    if text == [] {
      NothingTyped();
    } else {
      var n := |text| - 1;
      PrintableLines(text[..n]);
      if text[n] == NEWLINE {
        TypedNewline(TypeAll(text[..n]), Split(text[..n]));
      } else {
        TypedCharacter(TypeAll(text[..n]), Split(text[..n]), text[n]);
      }
    }
  }

  lemma NothingTyped()
    ensures Typed(FRESH, [[]])
  {
    assert BlankLine() == Padded([]);
  }

  /** A new display with console output on it: for printable text, the last 25 lines cut to 80 columns. */
  method OpenConsole(font: Font, scale: nat, background: nat, text: seq<Byte>) returns (d: VgaDisplay)
    requires scale >= 1 && forall i :: 0 <= i < |text| ==> text[i] < 128
    ensures fresh(d) && d.Valid() && Codes(d.buffer[..]) && !d.dirty && d.Shown()
    ensures Shows(d.buffer[..], TypeAll(text))
    ensures Printable(text) ==> Typed(TypeAll(text), Split(text))
  {
    d := new VgaDisplay(font, scale, background);
    FreshScreen(d.buffer[..]);
    ShowConsole(d, text);
    if Printable(text) {
      PrintableLines(text);
    }
  }

  lemma FreshScreen(buf: seq<Byte>)
    requires |buf| == 4000
    requires forall row: nat, col: nat :: row < ROWS && col < COLS ==> CellIs(buf, row, col, BLANK)
    ensures Shows(buf, FRESH)
  {
  }
}
