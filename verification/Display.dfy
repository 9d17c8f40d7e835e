/**
 The text display: an 80 by 25 buffer of character and attribute bytes, a framebuffer that is painted only
 when the buffer has changed, and the loop that types console output onto it.
 */
module Display {
  import opened Words

  const COLS: nat := 80
  const ROWS: nat := 25
  const BLANK_ATTR: Byte := 7
  const TEXT_ATTR: Byte := 10

  type Font = f: seq<seq<Byte>> | |f| == 128 && forall g :: g in f ==> |g| == 16 witness seq(128, _ => seq(16, _ => 0))

  /** Where a cell's character byte lies; its attribute follows. */
  function Off(row: nat, col: nat): nat {
    (row * COLS + col) * 2
  }

  // ---- colours ----

  function Palette(i: nat): nat
    requires i < 16
  {
    [0x000000, 0x0000AA, 0x00AA00, 0x00AAAA, 0xAA0000, 0xAA00AA, 0xAA5500, 0xAAAAAA,
     0x555555, 0x5555FF, 0x55FF55, 0x55FFFF, 0xFF5555, 0xFF55FF, 0xFFFF55, 0xFFFFFF][i]
  }

  function Foreground(attr: Byte): nat {
    Palette(attr % 16)
  }

  function Background(attr: Byte): nat {
    Palette(attr / 16 % 16)
  }

  /** Whether the glyph has a dot there; the highest bit is leftmost. */
  predicate Dot(font: Font, ch: Byte, gy: nat, gx: nat)
    requires ch < 128 && gy < 16 && gx < 8
  {
    DropBits(font[ch][gy], 7 - gx) % 2 == 1
  }

  function GlyphColor(font: Font, ch: Byte, attr: Byte, gy: nat, gx: nat): nat
    requires ch < 128 && gy < 16 && gx < 8
  {
    if Dot(font, ch, gy, gx) then Foreground(attr) else Background(attr)
  }

  /** Every character has a glyph. */
  predicate Codes(buf: seq<Byte>) {
    |buf| == 4000 && forall row: nat, col: nat :: row < ROWS && col < COLS ==> buf[Off(row, col)] < 128
  }

  /** The colour of dot (dx, dy) of the unscaled picture: its cell's glyph bit. */
  function DotColor(font: Font, buf: seq<Byte>, dy: nat, dx: nat): nat
    requires Codes(buf) && dy / 16 < ROWS && dx / 8 < COLS
  {
    GlyphColor(font, buf[Off(dy / 16, dx / 8)], buf[Off(dy / 16, dx / 8) + 1], dy % 16, dx % 8)
  }

  // ---- pixels of a scaled picture ----

  /** A row of the framebuffer is 640 dots of `scale` pixels. */
  function RowLength(scale: nat): nat {
    640 * scale
  }

  function DotY(scale: nat, p: nat): nat
    requires scale >= 1
  {
    DropSigns(p, RowLength(scale));
    p / RowLength(scale) / scale
  }

  function DotX(scale: nat, p: nat): nat
    requires scale >= 1
  {
    DropSigns(p % RowLength(scale), scale);
    p % RowLength(scale) / scale
  }

  /** The pixel's place inside its dot. */
  function SubY(scale: nat, p: nat): nat
    requires scale >= 1
  {
    p / RowLength(scale) % scale
  }

  function SubX(scale: nat, p: nat): nat
    requires scale >= 1
  {
    p % RowLength(scale) % scale
  }

  lemma DropSigns(p: nat, m: nat)
    requires m >= 1
    ensures p / m >= 0
  {
    DivNonNegative(p, m);
  }

  function PixelAt(scale: nat, dy: nat, dx: nat, sy: nat, sx: nat): nat {
    (dy * scale + sy) * RowLength(scale) + (dx * scale + sx)
  }

  lemma PixelParts(scale: nat, dy: nat, dx: nat, sy: nat, sx: nat)
    requires dx < 640 && sy < scale && sx < scale
    ensures var p := PixelAt(scale, dy, dx, sy, sx);
            DotY(scale, p) == dy && DotX(scale, p) == dx && SubY(scale, p) == sy && SubX(scale, p) == sx
    ensures dy < 400 ==> PixelAt(scale, dy, dx, sy, sx) < 400 * scale * RowLength(scale)
  {
    var p, w := PixelAt(scale, dy, dx, sy, sx), RowLength(scale);
    MulOrder(dx, 639, scale);
    DivModUnique(p, w, dy * scale + sy, dx * scale + sx);
    DivModUnique(dy * scale + sy, scale, dy, sy);
    DivModUnique(dx * scale + sx, scale, dx, sx);
    if dy < 400 {
      MulOrder(dy, 399, scale);
      MulOrder(dy * scale + sy, 400 * scale - 1, w);
      assert (400 * scale - 1) * w == 400 * scale * w - w;
    }
  }

  lemma PixelIsParts(scale: nat, p: nat)
    requires scale >= 1
    ensures p == PixelAt(scale, DotY(scale, p), DotX(scale, p), SubY(scale, p), SubX(scale, p))
  {
    var w := RowLength(scale);
    var y, x := p / w, p % w;
    DropSigns(p, w);
    assert p == y * w + x;
    assert y == y / scale * scale + y % scale;
    assert x == x / scale * scale + x % scale;
  }

  /** Every pixel of the framebuffer belongs to a dot of the picture. */
  lemma PixelsHaveDots(scale: nat, p: nat)
    requires scale >= 1 && p < 400 * scale * RowLength(scale)
    ensures DotY(scale, p) < 400 && DotX(scale, p) < 640
  {
    var w := RowLength(scale);
    DivBelow(p, w, 400 * scale);
    DropSigns(p, w);
    DivBelow(p / w, scale, 400);
    DivBelow(p % w, scale, 640);
  }

  lemma DivBelow(p: nat, m: nat, n: nat)
    requires m >= 1 && p < n * m
    ensures p / m < n
  {
    assert p == p / m * m + p % m;
    if p / m >= n {
      MulOrder(n, p / m, m);
    }
  }

  // ---- what a picture shows ----

  /** The pixel at (sx, sy) inside dot (gx, gy) of a cell's glyph. */
  function GlyphPixel(scale: nat, row: nat, col: nat, gy: nat, gx: nat, sy: nat, sx: nat): nat {
    ((row * 16 + gy) * scale + sy) * (640 * scale) + ((col * 8 + gx) * scale + sx)
  }

  /** The colour of a glyph's dot: bit 7 - gx of line gy chooses between the low and the high half of the attribute. */
  ghost predicate IsDot(font: Font, ch: Byte, attr: Byte, gy: nat, gx: nat, color: nat)
    requires ch < 128 && gy < 16 && gx < 8
  {
    if font[ch][gy] / Pow2(7 - gx) % 2 == 1 then color == Palette(attr % 16) else color == Palette(attr / 16)
  }

  /** Every pixel of every cell shows its character's glyph in its attribute's colours. */
  ghost predicate ShowsCells(font: Font, scale: nat, buf: seq<Byte>, pixels: seq<nat>) {
    && Codes(buf) && |pixels| == 400 * scale * (640 * scale)
    && forall row: nat, col: nat, gy: nat, gx: nat, sy: nat, sx: nat {:trigger GlyphPixel(scale, row, col, gy, gx, sy, sx)} ::
         row < 25 && col < 80 && gy < 16 && gx < 8 && sy < scale && sx < scale ==>
           var (p, cell) := (GlyphPixel(scale, row, col, gy, gx, sy, sx), (row * 80 + col) * 2);
           p < |pixels| && buf[cell] < 128 && IsDot(font, buf[cell], buf[cell + 1], gy, gx, pixels[p])
  }

  /** The palette: a bit each for red, green and blue, and one for brightness; dark yellow is brown. */
  lemma PaletteIs(i: nat)
    requires i < 16
    ensures var (blue, green, red, bright) := (i % 2, i / 2 % 2, i / 4 % 2, i / 8);
            Palette(i) == (if i == 6 then 0xAA5500
                           else (red * 0xAA + bright * 0x55) * 0x1_0000 + (green * 0xAA + bright * 0x55) * 0x100
                                + (blue * 0xAA + bright * 0x55))
  {
  }

  lemma GlyphDot(font: Font, buf: seq<Byte>, row: nat, col: nat, gy: nat, gx: nat)
    requires Codes(buf) && row < 25 && col < 80 && gy < 16 && gx < 8
    ensures (row * 16 + gy) / 16 == row && (col * 8 + gx) / 8 == col && buf[(row * 80 + col) * 2] < 128
    ensures IsDot(font, buf[(row * 80 + col) * 2], buf[(row * 80 + col) * 2 + 1], gy, gx,
                  DotColor(font, buf, row * 16 + gy, col * 8 + gx))
  {
    assert Off(row, col) == (row * 80 + col) * 2;
    assert (row * 16 + gy) / 16 == row && (row * 16 + gy) % 16 == gy;
    assert (col * 8 + gx) / 8 == col && (col * 8 + gx) % 8 == gx;
    var attr := buf[Off(row, col) + 1];
    assert attr / 16 % 16 == attr / 16;
  }

  // ---- scrolling ----

  const BLANK: (Byte, Byte) := (32, BLANK_ATTR)

  /** The rows moved up by one, and a blank row. */
  function Scrolled(buf: seq<Byte>): (s: seq<Byte>)
    requires |buf| == 4000
    ensures |s| == 4000
  {
    buf[160..] + seq(160, i => if i % 2 == 0 then BLANK.0 else BLANK.1)
  }

  class VgaDisplay {
    const font: Font
    const scale: nat
    const buffer: array<Byte>
    const framebuffer: array<nat>
    var dirty: bool

    predicate Sizes()
      reads this
    {
      && scale >= 1 && buffer.Length == 4000 && framebuffer.Length == 400 * scale * RowLength(scale)
    }

    /** Every pixel has the colour of its dot. */
    ghost predicate Shown()
      requires Sizes() && Codes(buffer[..])
      reads this, buffer, framebuffer
    {
      forall p: nat {:trigger framebuffer[p]} :: p < framebuffer.Length ==>
        DotY(scale, p) / 16 < ROWS && DotX(scale, p) / 8 < COLS &&
        framebuffer[p] == DotColor(font, buffer[..], DotY(scale, p), DotX(scale, p))
    }

    /** The cache invariant: unless marked dirty, the framebuffer shows the buffer. */
    ghost predicate Valid()
      reads this, buffer, framebuffer
    {
      Sizes() && (!dirty ==> Codes(buffer[..]) && Shown())
    }

    constructor (font: Font, scale: nat, background: nat)
      requires scale >= 1
      ensures Valid() && Codes(buffer[..]) && fresh(buffer) && fresh(framebuffer)
      ensures this.font == font && this.scale == scale
      ensures forall row: nat, col: nat :: row < ROWS && col < COLS ==> CellIs(buffer[..], row, col, BLANK)
    {
      this.font, this.scale, dirty := font, scale, true;
      buffer := new Byte[4000](i => if i % 2 == 0 then BLANK.0 else BLANK.1);
      framebuffer := new nat[400 * scale * RowLength(scale)](_ => background);
    }

    method WriteChar(col: nat, row: nat, ch: Byte, attr: Byte)
      requires Valid()
      modifies this`dirty, buffer
      ensures Valid()
      ensures buffer[..] ==
              if col >= COLS || row >= ROWS then old(buffer[..])
              else old(buffer[..])[Off(row, col) := ch][Off(row, col) + 1 := attr]
    {
      if col >= COLS || row >= ROWS {
        return;
      }
      buffer[Off(row, col)] := ch;
      buffer[Off(row, col) + 1] := attr;
      dirty := true;
    }

    method WriteByte(offset: nat, val: Byte)
      requires Valid()
      modifies this`dirty, buffer
      ensures Valid()
      ensures buffer[..] == if offset < 4000 then old(buffer[..])[offset := val] else old(buffer[..])
    {
      if offset < 4000 {
        buffer[offset] := val;
        dirty := true;
      }
    }

    method ScrollUp()
      requires Valid()
      modifies this`dirty, buffer
      ensures Valid() && buffer[..] == Scrolled(old(buffer[..]))
    {
      dirty := true;
      for row := 0 to ROWS - 1
        invariant dirty
        invariant forall k :: 0 <= k < 4000 ==>
                    buffer[k] == if k < Off(row, 0) then old(buffer[k + 160]) else old(buffer[k])
      {
        for col := 0 to COLS
          invariant dirty
          invariant forall k :: 0 <= k < 4000 ==>
                      buffer[k] == if k < Off(row, col) then old(buffer[k + 160]) else old(buffer[k])
        {
          buffer[Off(row, col)] := buffer[Off(row + 1, col)];
          buffer[Off(row, col) + 1] := buffer[Off(row + 1, col) + 1];
        }
      }
      for col := 0 to COLS
        invariant dirty
        invariant forall k :: 0 <= k < 3840 ==> buffer[k] == old(buffer[k + 160])
        invariant forall k :: 3840 <= k < Off(ROWS - 1, col) ==> buffer[k] == if k % 2 == 0 then BLANK.0 else BLANK.1
      {
        buffer[Off(ROWS - 1, col)] := BLANK.0;
        buffer[Off(ROWS - 1, col) + 1] := BLANK.1;
      }
    }

    /** Paints one dot: a square of `scale` by `scale` pixels. */
    method PaintDot(dy: nat, dx: nat, color: nat)
      requires Sizes() && dy < 400 && dx < 640
      modifies framebuffer
      ensures forall p: nat {:trigger framebuffer[p]} :: p < framebuffer.Length ==>
                framebuffer[p] == if DotY(scale, p) == dy && DotX(scale, p) == dx then color else old(framebuffer[p])
    {
      for sy := 0 to scale
        invariant forall p: nat {:trigger framebuffer[p]} :: p < framebuffer.Length ==>
                    framebuffer[p] == if DotY(scale, p) == dy && DotX(scale, p) == dx && SubY(scale, p) < sy
                                      then color else old(framebuffer[p])
      {
        for sx := 0 to scale
          invariant forall p: nat {:trigger framebuffer[p]} :: p < framebuffer.Length ==>
                      framebuffer[p] == if DotY(scale, p) == dy && DotX(scale, p) == dx
                                           && (SubY(scale, p) < sy || (SubY(scale, p) == sy && SubX(scale, p) < sx))
                                        then color else old(framebuffer[p])
        {
          PixelParts(scale, dy, dx, sy, sx);
          OnlyPixel(scale, dy, dx, sy, sx);
          framebuffer[PixelAt(scale, dy, dx, sy, sx)] := color;
        }
      }
    }

    /** Paints one cell's glyph. */
    method PaintGlyph(row: nat, col: nat)
      requires Sizes() && Codes(buffer[..]) && row < ROWS && col < COLS
      modifies framebuffer
      ensures forall p: nat {:trigger framebuffer[p]} :: p < framebuffer.Length ==>
                framebuffer[p] == if DotY(scale, p) / 16 == row && DotX(scale, p) / 8 == col
                                  then DotColor(font, buffer[..], DotY(scale, p), DotX(scale, p))
                                  else old(framebuffer[p])
    {
      var ch, attr := buffer[Off(row, col)], buffer[Off(row, col) + 1];
      for gy := 0 to 16
        invariant forall p: nat {:trigger framebuffer[p]} :: p < framebuffer.Length ==>
                    framebuffer[p] == if DotY(scale, p) / 16 == row && DotX(scale, p) / 8 == col && DotY(scale, p) % 16 < gy
                                      then DotColor(font, buffer[..], DotY(scale, p), DotX(scale, p))
                                      else old(framebuffer[p])
      {
        for gx := 0 to 8
          invariant forall p: nat {:trigger framebuffer[p]} :: p < framebuffer.Length ==>
                      framebuffer[p] == if DotY(scale, p) / 16 == row && DotX(scale, p) / 8 == col
                                           && (DotY(scale, p) % 16 < gy
                                               || (DotY(scale, p) % 16 == gy && DotX(scale, p) % 8 < gx))
                                        then DotColor(font, buffer[..], DotY(scale, p), DotX(scale, p))
                                        else old(framebuffer[p])
        {
          PaintDot(row * 16 + gy, col * 8 + gx, GlyphColor(font, ch, attr, gy, gx));
        }
      }
    }

    /** Paints the whole picture, if anything has changed; a character without a glyph would abort it. */
    method Render()
      requires Valid() && Codes(buffer[..])
      modifies this`dirty, framebuffer
      ensures Valid() && !dirty && Shown()
      ensures ShowsCells(font, scale, buffer[..], framebuffer[..])
    {
      hide ShowsCells;
      if !dirty {
        ShownCells();
        return;
      }
      for row := 0 to ROWS
        invariant forall p: nat {:trigger framebuffer[p]} ::
                    (p < framebuffer.Length && DotY(scale, p) / 16 < row && DotX(scale, p) / 8 < COLS) ==>
                      framebuffer[p] == DotColor(font, buffer[..], DotY(scale, p), DotX(scale, p))
      {
        for col := 0 to COLS
          invariant forall p: nat {:trigger framebuffer[p]} ::
                      (p < framebuffer.Length && DotX(scale, p) / 8 < COLS
                       && (DotY(scale, p) / 16 < row || (DotY(scale, p) / 16 == row && DotX(scale, p) / 8 < col))) ==>
                        framebuffer[p] == DotColor(font, buffer[..], DotY(scale, p), DotX(scale, p))
        {
          PaintGlyph(row, col);
        }
      }
      forall p: nat | p < framebuffer.Length
        ensures DotY(scale, p) / 16 < ROWS && DotX(scale, p) / 8 < COLS
      {
        PixelsHaveDots(scale, p);
      }
      dirty := false;
      ShownCells();
    }

    /** A framebuffer with the colour of every dot shows every cell. */
    lemma ShownCells()
      requires Sizes() && Codes(buffer[..]) && Shown()
      ensures ShowsCells(font, scale, buffer[..], framebuffer[..])
    {
      hide Codes, IsDot, DotColor;
      forall row: nat, col: nat, gy: nat, gx: nat, sy: nat, sx: nat
        | row < 25 && col < 80 && gy < 16 && gx < 8 && sy < scale && sx < scale
        ensures var (p, cell) := (GlyphPixel(scale, row, col, gy, gx, sy, sx), (row * 80 + col) * 2);
                && p < framebuffer.Length && buffer[..][cell] < 128
                && IsDot(font, buffer[..][cell], buffer[..][cell + 1], gy, gx, framebuffer[p])
      {
        PixelParts(scale, row * 16 + gy, col * 8 + gx, sy, sx);
        GlyphDot(font, buffer[..], row, col, gy, gx);
        assert GlyphPixel(scale, row, col, gy, gx, sy, sx) == PixelAt(scale, row * 16 + gy, col * 8 + gx, sy, sx);
      }
    }
  }

  lemma OnlyPixel(scale: nat, dy: nat, dx: nat, sy: nat, sx: nat)
    requires scale >= 1
    ensures forall p: nat {:trigger DotY(scale, p)} ::
              DotY(scale, p) == dy && DotX(scale, p) == dx && SubY(scale, p) == sy && SubX(scale, p) == sx ==>
                p == PixelAt(scale, dy, dx, sy, sx)
  {
    forall p: nat
      ensures p == PixelAt(scale, DotY(scale, p), DotX(scale, p), SubY(scale, p), SubX(scale, p))
    {
      PixelIsParts(scale, p);
    }
  }

  predicate CellIs(buf: seq<Byte>, row: nat, col: nat, cell: (Byte, Byte))
    requires |buf| == 4000 && row < ROWS && col < COLS
  {
    buf[Off(row, col)] == cell.0 && buf[Off(row, col) + 1] == cell.1
  }
}
