/**
 * The 32x64 monochrome screen and the XOR sprite blit. Drawing flips each
 * cell under a set sprite pixel and reports whether any cell it flipped
 * was lit before (a collision).
 */
module Display {
  import opened Bits
  import opened Sprites
  import Memory

  /** Rows of cells, top row first; each row left to right. */
  type Grid = seq<seq<bool>>

  predicate IsScreen(g: Grid)
  {
    |g| == ScreenHeight && forall r :: 0 <= r < |g| ==> |g[r]| == ScreenWidth
  }

  predicate IsBlank(g: Grid)
    requires IsScreen(g)
  {
    forall r, c :: 0 <= r < ScreenHeight && 0 <= c < ScreenWidth ==> !g[r][c]
  }

  /** `Display::new`: every cell dark. */
  function New(): (g: Grid)
    ensures IsScreen(g) && IsBlank(g)
  {
    seq(ScreenHeight, _ => seq(ScreenWidth, _ => false))
  }

  /** `Display::clear`: whatever was shown, every cell dark again. */
  function Clear(g: Grid): (g': Grid)
    ensures IsScreen(g') && IsBlank(g')
  {
    New()
  }

  // ---------------------------------------------------------------------
  // What a draw means.
  // ---------------------------------------------------------------------

  /** The cell (r, c) after the sprite at (x, y) is XORed onto `g`. */
  predicate XoredAt(g: Grid, sp: Sprite, x: nat, y: nat, r: nat, c: nat)
    requires IsScreen(g) && WellFormed(sp)
    requires r < ScreenHeight && c < ScreenWidth
  {
    g[r][c] != PixelAt(sp, x, y, r, c)
  }

  /** Some lit cell lies under a set pixel of the sprite at (x, y). */
  predicate Collides(g: Grid, sp: Sprite, x: nat, y: nat)
    requires IsScreen(g) && WellFormed(sp)
  {
    exists r, c :: 0 <= r < ScreenHeight && 0 <= c < ScreenWidth && g[r][c] && PixelAt(sp, x, y, r, c)
  }

  // ---------------------------------------------------------------------
  // Display::draw
  // ---------------------------------------------------------------------

  /**
   * The draw loop from visit `k` on: each visit flips its cell by the
   * sprite pixel and records a collision when both were set. The cells
   * not yet visited are exactly the pending ones.
   */
  function DrawFrom(g: Grid, sp: Sprite, x: nat, y: nat, k: nat): (res: (Grid, bool))
    requires IsScreen(g) && WellFormed(sp) && FitsVertically(sp, y)
    requires k <= |sp.rows| * RowWidth
    ensures IsScreen(res.0)
    ensures forall r, c :: 0 <= r < ScreenHeight && 0 <= c < ScreenWidth ==>
      res.0[r][c] == (g[r][c] != (Pending(sp, x, y, k, r, c) && PixelAt(sp, x, y, r, c)))
    ensures res.1 <==>
      (exists r, c :: 0 <= r < ScreenHeight && 0 <= c < ScreenWidth &&
         Pending(sp, x, y, k, r, c) && g[r][c] && PixelAt(sp, x, y, r, c))
    decreases |sp.rows| * RowWidth - k
  {
    if k == |sp.rows| * RowWidth then
      (g, false)
    else
      VisitCell(sp, x, y, k, 0, 0);
      var line := CellRow(y, k);
      var column := CellCol(x, k);
      var was := g[line][column];
      var pixel := sp.rows[k / RowWidth][k % RowWidth];
      var g1 := g[line := g[line][column := was != pixel]];
      var rest := DrawFrom(g1, sp, x, y, k + 1);
      DrawStep(g, sp, x, y, k, rest);
      (rest.0, rest.1 || (was && pixel))
  }

  /** One visit of the draw loop keeps the loop's contract. */
  lemma {:induction false} DrawStep(g: Grid, sp: Sprite, x: nat, y: nat, k: nat, rest: (Grid, bool))
    requires IsScreen(g) && WellFormed(sp) && FitsVertically(sp, y)
    requires k < |sp.rows| * RowWidth
    requires CellRow(y, k) < ScreenHeight
    requires IsScreen(rest.0)
    requires var g1 := g[CellRow(y, k) := g[CellRow(y, k)][CellCol(x, k) := g[CellRow(y, k)][CellCol(x, k)] != sp.rows[k / RowWidth][k % RowWidth]]];
      && (forall r, c :: 0 <= r < ScreenHeight && 0 <= c < ScreenWidth ==>
            rest.0[r][c] == (g1[r][c] != (Pending(sp, x, y, k + 1, r, c) && PixelAt(sp, x, y, r, c))))
      && (rest.1 <==>
            (exists r, c :: 0 <= r < ScreenHeight && 0 <= c < ScreenWidth &&
               Pending(sp, x, y, k + 1, r, c) && g1[r][c] && PixelAt(sp, x, y, r, c)))
    ensures forall r, c :: 0 <= r < ScreenHeight && 0 <= c < ScreenWidth ==>
      rest.0[r][c] == (g[r][c] != (Pending(sp, x, y, k, r, c) && PixelAt(sp, x, y, r, c)))
    ensures (rest.1 || (g[CellRow(y, k)][CellCol(x, k)] && sp.rows[k / RowWidth][k % RowWidth])) <==>
      (exists r, c :: 0 <= r < ScreenHeight && 0 <= c < ScreenWidth &&
         Pending(sp, x, y, k, r, c) && g[r][c] && PixelAt(sp, x, y, r, c))
  {
    var line, column := CellRow(y, k), CellCol(x, k);
    var pixel := sp.rows[k / RowWidth][k % RowWidth];
    var g1 := g[line := g[line][column := g[line][column] != pixel]];
    VisitCell(sp, x, y, k, 0, 0);
    assert PixelAt(sp, x, y, line, column) == pixel;
    forall r, c | 0 <= r < ScreenHeight && 0 <= c < ScreenWidth
      ensures rest.0[r][c] == (g[r][c] != (Pending(sp, x, y, k, r, c) && PixelAt(sp, x, y, r, c)))
      ensures Pending(sp, x, y, k + 1, r, c) ==> g1[r][c] == g[r][c]
    {
      VisitCell(sp, x, y, k, r, c);
    }
    if g[line][column] && pixel {
      assert Pending(sp, x, y, k, line, column) && g[line][column] && PixelAt(sp, x, y, line, column);
    }
    if rest.1 {
      var r, c :| 0 <= r < ScreenHeight && 0 <= c < ScreenWidth &&
        Pending(sp, x, y, k + 1, r, c) && g1[r][c] && PixelAt(sp, x, y, r, c);
      assert Pending(sp, x, y, k, r, c) && g[r][c];
    }
    if exists r, c :: 0 <= r < ScreenHeight && 0 <= c < ScreenWidth &&
        Pending(sp, x, y, k, r, c) && g[r][c] && PixelAt(sp, x, y, r, c)
    {
      var r, c :| 0 <= r < ScreenHeight && 0 <= c < ScreenWidth &&
        Pending(sp, x, y, k, r, c) && g[r][c] && PixelAt(sp, x, y, r, c);
      VisitCell(sp, x, y, k, r, c);
      if !(r == line && c == column) {
        assert Pending(sp, x, y, k + 1, r, c) && g1[r][c];
      }
    }
  }

  /**
   * `Display::draw`: the sprite at (x, y) is XORed onto the screen, with
   * columns wrapping and rows not, and the result reports whether any lit
   * cell was under a set pixel. Cells off the sprite keep their value.
   */
  function Draw(g: Grid, sp: Sprite, x: nat, y: nat): (res: (Grid, bool))
    requires IsScreen(g) && WellFormed(sp) && FitsVertically(sp, y)
    ensures IsScreen(res.0)
    ensures forall r, c :: 0 <= r < ScreenHeight && 0 <= c < ScreenWidth ==>
      res.0[r][c] == XoredAt(g, sp, x, y, r, c)
    ensures forall r, c :: 0 <= r < ScreenHeight && 0 <= c < ScreenWidth && !Covers(sp, x, y, r, c) ==>
      res.0[r][c] == g[r][c]
    ensures res.1 == Collides(g, sp, x, y)
  {
    DrawFrom(g, sp, x, y, 0)
  }

  // ---------------------------------------------------------------------
  // Properties of drawing.
  // ---------------------------------------------------------------------

  /** Two screens that agree cell by cell are equal. */
  lemma {:induction false} ScreenExt(a: Grid, b: Grid)
    requires IsScreen(a) && IsScreen(b)
    requires forall r, c :: 0 <= r < ScreenHeight && 0 <= c < ScreenWidth ==> a[r][c] == b[r][c]
    ensures a == b
  {
    forall r | 0 <= r < ScreenHeight
      ensures a[r] == b[r]
    {
    }
  }

  /** Drawing the same sprite twice at the same place restores the screen. */
  lemma {:induction false} DrawTwiceRestores(g: Grid, sp: Sprite, x: nat, y: nat)
    requires IsScreen(g) && WellFormed(sp) && FitsVertically(sp, y)
    ensures Draw(Draw(g, sp, x, y).0, sp, x, y).0 == g
  {
    ScreenExt(Draw(Draw(g, sp, x, y).0, sp, x, y).0, g);
  }

  /** The second of two identical draws collides exactly when the sprite shows some pixel. */
  lemma {:induction false} RedrawCollides(g: Grid, sp: Sprite, x: nat, y: nat)
    requires IsScreen(g) && WellFormed(sp) && FitsVertically(sp, y)
    requires IsBlank(g)
    ensures Draw(Draw(g, sp, x, y).0, sp, x, y).1 <==>
      (exists r, c :: 0 <= r < ScreenHeight && 0 <= c < ScreenWidth && PixelAt(sp, x, y, r, c))
  {
    var g1 := Draw(g, sp, x, y).0;
    if exists r, c :: 0 <= r < ScreenHeight && 0 <= c < ScreenWidth && PixelAt(sp, x, y, r, c) {
      var r, c :| 0 <= r < ScreenHeight && 0 <= c < ScreenWidth && PixelAt(sp, x, y, r, c);
      assert g1[r][c];
    }
  }

  /** Nothing collides with a blank screen. */
  lemma {:induction false} DrawOnBlankNeverCollides(g: Grid, sp: Sprite, x: nat, y: nat)
    requires IsScreen(g) && WellFormed(sp) && FitsVertically(sp, y)
    requires IsBlank(g)
    ensures !Draw(g, sp, x, y).1
  {
  }

  /** The draw is the XOR of the screen with the sprite's screen mask. */
  lemma {:induction false} DrawIsMaskXor(g: Grid, sp: Sprite, x: nat, y: nat, r: nat, c: nat)
    requires IsScreen(g) && WellFormed(sp) && FitsVertically(sp, y)
    requires r < ScreenHeight && c < ScreenWidth
    ensures Draw(g, sp, x, y).0[r][c] == (g[r][c] != GetScreenMask(sp, x, y)[r * ScreenWidth + c])
  {
  }

  /**
   * A one-row sprite of eight set pixels drawn at column 60 lights
   * columns 60..63 and wraps onto columns 0..3; the rest of the row
   * stays dark.
   */
  lemma {:induction false} DrawWrapsColumns()
    ensures forall c :: 0 <= c < ScreenWidth ==> Draw(New(), Sprites.New([0xFF]), 60, 0).0[0][c] == (c < 4 || 60 <= c)
  {
    FullRow();
    forall c | 0 <= c < ScreenWidth
      ensures Draw(New(), Sprites.New([0xFF]), 60, 0).0[0][c] == (c < 4 || 60 <= c)
    {
      FullRowAt(c);
    }
  }

  /** The sprite of the byte 0xFF is one row of eight set pixels. */
  lemma {:induction false} FullRow()
    ensures Sprites.New([0xFF]).rows == [[true, true, true, true, true, true, true, true]]
  {
    var sp := Sprites.New([0xFF]);
    assert sp.rows[0] == RowOf(0xFF);
    RowOfPackRow(sp.rows[0]);
    assert RowOf(0xFF) == [true, true, true, true, true, true, true, true] by {
      forall j | 0 <= j < RowWidth
        ensures RowOf(0xFF)[j]
      {
        assert Bit(0xFF, RowWidth - 1 - j) by {
          AllOnes(RowWidth - 1 - j);
        }
      }
    }
  }

  /** One column of the row drawn by DrawWrapsColumns. */
  lemma {:induction false} FullRowAt(c: nat)
    requires c < ScreenWidth
    requires Sprites.New([0xFF]).rows == [[true, true, true, true, true, true, true, true]]
    ensures Draw(New(), Sprites.New([0xFF]), 60, 0).0[0][c] == (c < 4 || 60 <= c)
  {
    var sp := Sprites.New([0xFF]);
    var k := (c - 60) % ScreenWidth;
    assert k == if c < 60 then c + 4 else c - 60;
    assert PixelAt(sp, 60, 0, 0, c) == (k < RowWidth);
    assert !New()[0][c];
  }

  /** Every bit of 0xFF below bit 8 is set. */
  lemma {:induction false} AllOnes(i: nat)
    requires i < 8
    ensures Bit(0xFF, i)
  {
    assert Pow2(1) == 2 && Pow2(2) == 4 && Pow2(3) == 8 && Pow2(4) == 16;
    assert Pow2(5) == 32 && Pow2(6) == 64 && Pow2(7) == 128;
  }

  /** The rows of the font glyph for 0: a full bar and two side posts. */
  lemma {:induction false} GlyphZeroRows()
    ensures RowOf(0xF0) == [true, true, true, true, false, false, false, false]
    ensures RowOf(0x90) == [true, false, false, true, false, false, false, false]
  {
    var bar := [true, true, true, true, false, false, false, false];
    var posts := [true, false, false, true, false, false, false, false];
    PackPrefixes(bar);
    PackPrefixes(posts);
    RowOfPackRow(bar);
    RowOfPackRow(posts);
  }

  /** Packing an 8-pixel row, one pixel at a time. */
  lemma PackPrefixes(row: seq<bool>)
    requires |row| == RowWidth
    ensures PackRow(row) == (((((((PackRow(row[..1]) * 2 + (if row[1] then 1 else 0)) * 2
      + (if row[2] then 1 else 0)) * 2 + (if row[3] then 1 else 0)) * 2
      + (if row[4] then 1 else 0)) * 2 + (if row[5] then 1 else 0)) * 2
      + (if row[6] then 1 else 0)) * 2 + (if row[7] then 1 else 0))
    ensures PackRow(row[..1]) == if row[0] then 1 else 0
  {
    assert row[..8][..7] == row[..7];
    assert row[..7][..6] == row[..6];
    assert row[..6][..5] == row[..5];
    assert row[..5][..4] == row[..4];
    assert row[..4][..3] == row[..3];
    assert row[..3][..2] == row[..2];
    assert row[..2][..1] == row[..1];
    assert row[..1][..0] == [];
    assert row == row[..8];
  }

  /** The shape the glyph for 0 lights at the top-left corner: a hollow 4x5 rectangle. */
  predicate InHollowRect(r: int, c: int)
  {
    r < 5 && c < 4 && (r == 0 || r == 4 || c == 0 || c == 3)
  }

  /** The glyph for 0: the first five bytes of the font table loaded into memory. */
  const GlyphZero: seq<Byte> := Memory.Fonts[..Memory.FontSize]

  /** Where the glyph for 0 drawn at (0, 0) puts set pixels. */
  lemma {:induction false} GlyphZeroPixels(r: nat, c: nat)
    requires r < ScreenHeight && c < ScreenWidth
    ensures PixelAt(Sprites.New(GlyphZero), 0, 0, r, c) == InHollowRect(r, c)
  {
    Memory.FontZero();
    var sp := Sprites.New(GlyphZero);
    GlyphZeroRows();
    assert sp.rows == [RowOf(0xF0), RowOf(0x90), RowOf(0x90), RowOf(0x90), RowOf(0xF0)];
    assert (c - 0) % ScreenWidth == c;
  }

  /**
   * The glyph for 0 drawn at the top-left of a blank screen lights exactly
   * the hollow rectangle and does not collide.
   */
  lemma {:induction false} DrawGlyphZero()
    ensures !Draw(New(), Sprites.New(GlyphZero), 0, 0).1
    ensures forall r, c :: 0 <= r < ScreenHeight && 0 <= c < ScreenWidth ==>
      Draw(New(), Sprites.New(GlyphZero), 0, 0).0[r][c] == InHollowRect(r, c)
  {
    forall r, c | 0 <= r < ScreenHeight && 0 <= c < ScreenWidth
      ensures Draw(New(), Sprites.New(GlyphZero), 0, 0).0[r][c] == InHollowRect(r, c)
    {
      GlyphZeroPixels(r, c);
    }
  }

  /** Drawing the glyph for 0 a second time collides and blanks the screen again. */
  lemma {:induction false} RedrawGlyphZero()
    ensures var g := Draw(New(), Sprites.New(GlyphZero), 0, 0).0;
      Draw(g, Sprites.New(GlyphZero), 0, 0).1 && Draw(g, Sprites.New(GlyphZero), 0, 0).0 == New()
  {
    GlyphZeroPixels(0, 0);
    RedrawCollides(New(), Sprites.New(GlyphZero), 0, 0);
    DrawTwiceRestores(New(), Sprites.New(GlyphZero), 0, 0);
  }
}
