/**
 * The font atlas: a 128x64 bitmap cut into 18 columns and 7 rows of cells,
 * one cell per displayable ASCII byte 32..126, and the choice of cell for a
 * byte when it is drawn.
 */
module Font {
  import opened Bytes

  const FONT_WIDTH: nat := 128
  const FONT_HEIGHT: nat := 64
  const FONT_COLS: nat := 18
  const FONT_ROWS: nat := 7
  const FONT_CHAR_WIDTH: nat := FONT_WIDTH / FONT_COLS
  const FONT_CHAR_HEIGHT: nat := FONT_HEIGHT / FONT_ROWS

  const ASCII_DISPLAY_LOW: nat := 32
  const ASCII_DISPLAY_HIGH: nat := 126
  /** Number of entries of `glyph_table`. */
  const GLYPH_COUNT: nat := ASCII_DISPLAY_HIGH - ASCII_DISPLAY_LOW + 1

  const QUESTION_MARK: byte := 63

  datatype Rect = Rect(x: int, y: int, w: int, h: int)

  predicate Displayable(c: byte) {
    ASCII_DISPLAY_LOW as int <= c as int <= ASCII_DISPLAY_HIGH as int
  }

  /** The atlas cell of glyph `index`: column `index % 18`, row `index / 18`, one 7x9 cell. */
  function GlyphRect(index: nat): (r: Rect)
    requires index < GLYPH_COUNT
    ensures r.w == FONT_CHAR_WIDTH == 7 && r.h == FONT_CHAR_HEIGHT == 9
    ensures 0 <= r.x && r.x + r.w <= FONT_WIDTH
    ensures 0 <= r.y && r.y + r.h <= FONT_HEIGHT
  {
    var col := index % FONT_COLS;
    var row := index / FONT_COLS;
    Rect(col * FONT_CHAR_WIDTH, row * FONT_CHAR_HEIGHT, FONT_CHAR_WIDTH, FONT_CHAR_HEIGHT)
  }

  /** Two different glyphs never share a pixel of the atlas. */
  lemma GlyphRectsDisjoint(i: nat, j: nat)
    requires i < GLYPH_COUNT && j < GLYPH_COUNT && i != j
    ensures var a, b := GlyphRect(i), GlyphRect(j);
      a.x + a.w <= b.x || b.x + b.w <= a.x || a.y + a.h <= b.y || b.y + b.h <= a.y
  {
    var ci, cj := i % FONT_COLS, j % FONT_COLS;
    var ri, rj := i / FONT_COLS, j / FONT_COLS;
    assert i == ri * 18 + ci && j == rj * 18 + cj;
    if ci == cj {
      assert ri != rj;
      if ri < rj {
        assert ri * 9 + 9 <= rj * 9;
      } else {
        assert rj * 9 + 9 <= ri * 9;
      }
    } else if ci < cj {
      assert ci * 7 + 7 <= cj * 7;
    } else {
      assert cj * 7 + 7 <= ci * 7;
    }
  }

  /** `font_load_from_file`'s loop: fills `glyph_table[ascii - 32]` for every ascii in 32..126. */
  method LoadGlyphTable() returns (table: array<Rect>)
    ensures fresh(table) && table.Length == GLYPH_COUNT
    ensures forall i :: 0 <= i < GLYPH_COUNT ==> table[i] == GlyphRect(i)
  {
    table := new Rect[GLYPH_COUNT](_ => Rect(0, 0, 0, 0));
    var ascii := ASCII_DISPLAY_LOW;
    while ascii <= ASCII_DISPLAY_HIGH
      invariant ASCII_DISPLAY_LOW <= ascii <= ASCII_DISPLAY_HIGH + 1
      invariant forall i :: 0 <= i < ascii - ASCII_DISPLAY_LOW ==> table[i] == GlyphRect(i)
    {
      var index := ascii - ASCII_DISPLAY_LOW;
      var col := index % FONT_COLS;
      var row := index / FONT_COLS;
      table[index] := Rect(col * FONT_CHAR_WIDTH, row * FONT_CHAR_HEIGHT, FONT_CHAR_WIDTH, FONT_CHAR_HEIGHT);
      ascii := ascii + 1;
    }
  }

  /** `render_char`'s choice of glyph: the byte's own cell when displayable, the cell of '?' otherwise. */
  function GlyphIndex(c: byte): (r: nat)
    ensures r < GLYPH_COUNT
  {
    if Displayable(c) then c as nat - ASCII_DISPLAY_LOW else QUESTION_MARK as nat - ASCII_DISPLAY_LOW
  }

  /**
   * A byte is drawn with the glyph of '?' exactly when it is '?' or not
   * displayable; every displayable byte is drawn with its own glyph, so
   * the cell determines the byte.
   */
  lemma GlyphIndexFallback(c: byte)
    ensures GlyphIndex(c) == 31 <==> (c == QUESTION_MARK || !Displayable(c))
    ensures Displayable(c) ==> GlyphIndex(c) + ASCII_DISPLAY_LOW == c as nat
  {
  }

  /** Different displayable bytes are drawn with different glyphs. */
  lemma GlyphIndexInjective(c: byte, d: byte)
    requires Displayable(c) && Displayable(d) && GlyphIndex(c) == GlyphIndex(d)
    ensures c == d
  {
  }
}
