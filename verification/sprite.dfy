/**
 * Sprites: each byte of sprite data becomes one row of eight pixels, the
 * most significant bit leftmost. A sprite drawn at (x, y) covers the rows
 * y .. y + height unreduced and the eight columns x .. x + 8 taken modulo
 * the screen width, so sprites wrap horizontally but not vertically.
 */
module Sprites {
  import opened Bits

  /** The screen size the drawing code is written against. */
  const ScreenWidth: nat := 64
  const ScreenHeight: nat := 32

  /** Pixels per sprite row: one byte. */
  const RowWidth: nat := 8

  /** Rows of pixels, top row first, leftmost pixel first. */
  datatype Sprite = Sprite(rows: seq<seq<bool>>)

  predicate WellFormed(sp: Sprite)
  {
    forall i :: 0 <= i < |sp.rows| ==> |sp.rows[i]| == RowWidth
  }

  /** The number a row of pixels spells, leftmost pixel most significant. */
  function PackRow(row: seq<bool>): (v: nat)
    ensures v < Pow2(|row|)
  {
    if |row| == 0 then 0
    else 2 * PackRow(row[..|row| - 1]) + (if row[|row| - 1] then 1 else 0)
  }

  /** The eight pixels of one byte, most significant bit first. */
  function RowOf(b: Byte): (row: seq<bool>)
    ensures |row| == RowWidth
    ensures PackRow(row) == b
  {
    UnpackPack(b, RowWidth);
    Pow2Values();
    seq(RowWidth, j requires 0 <= j < RowWidth => Bit(b, RowWidth - 1 - j))
  }

  /** `Sprite::new`: one row per byte, each row the byte's bits MSB first. */
  function New(data: seq<Byte>): (sp: Sprite)
    ensures WellFormed(sp)
    ensures |sp.rows| == |data|
    ensures forall i :: 0 <= i < |data| ==> PackRow(sp.rows[i]) == data[i]
  {
    Sprite(seq(|data|, i requires 0 <= i < |data| => RowOf(data[i])))
  }

  // ---------------------------------------------------------------------
  // Rows and bytes are the same thing.
  // ---------------------------------------------------------------------

  /** The `n` low bits of `v` as pixels, most significant first. */
  function Unpack(v: nat, n: nat): (row: seq<bool>)
    ensures |row| == n
  {
    if n == 0 then [] else Unpack(v / 2, n - 1) + [v % 2 == 1]
  }

  /** Pixel `j` of `Unpack(v, n)` is bit `n - 1 - j` of `v`. */
  lemma {:induction false} UnpackBits(v: nat, n: nat, j: nat)
    requires j < n
    ensures Unpack(v, n)[j] == Bit(v, n - 1 - j)
  {
    if j == n - 1 {
      assert Bit(v, 0) == (v % 2 == 1);
    } else {
      UnpackBits(v / 2, n - 1, j);
      BitOfHalf(v, n - 2 - j);
    }
  }

  /** Unpacking `n` bits and packing them again keeps `v mod 2^n`. */
  lemma {:induction false} PackOfUnpack(v: nat, n: nat)
    ensures PackRow(Unpack(v, n)) == v % Pow2(n)
  {
    if n > 0 {
      assert Unpack(v, n)[..n - 1] == Unpack(v / 2, n - 1);
      PackOfUnpack(v / 2, n - 1);
      HalveThenDivide(v, Pow2(n - 1));
    }
  }

  /** The `n` low bits of `v`, most significant first, pack to `v mod 2^n`. */
  lemma {:induction false} UnpackPack(v: nat, n: nat)
    ensures PackRow(seq(n, j requires 0 <= j < n => Bit(v, n - 1 - j))) == v % Pow2(n)
  {
    var row := seq(n, j requires 0 <= j < n => Bit(v, n - 1 - j));
    forall j | 0 <= j < n
      ensures row[j] == Unpack(v, n)[j]
    {
      UnpackBits(v, n, j);
    }
    assert row == Unpack(v, n);
    PackOfUnpack(v, n);
  }

  /** Bit `n - 1 - j` of a packed row of length `n` is pixel `j`. */
  lemma {:induction false} PackUnpack(row: seq<bool>, j: nat)
    requires j < |row|
    ensures Bit(PackRow(row), |row| - 1 - j) == row[j]
  {
    var n := |row|;
    var front := row[..n - 1];
    var last := if row[n - 1] then 1 else 0;
    var v := PackRow(row);
    DivUnique(v, 2, PackRow(front), last);
    if j == n - 1 {
      assert Bit(v, 0) == (v % 2 == 1);
    } else {
      BitOfHalf(v, n - 2 - j);
      PackUnpack(front, j);
    }
  }

  /** Unpacking the byte a row packs to gives the row back. */
  lemma {:induction false} RowOfPackRow(row: seq<bool>)
    requires |row| == RowWidth
    ensures PackRow(row) < 0x100
    ensures RowOf(PackRow(row)) == row
  {
    Pow2Values();
    forall j | 0 <= j < RowWidth
      ensures RowOf(PackRow(row))[j] == row[j]
    {
      PackUnpack(row, j);
    }
  }

  /** Distinct bytes give distinct sprites: `New` loses nothing. */
  lemma {:induction false} NewInjective(a: seq<Byte>, b: seq<Byte>)
    requires New(a) == New(b)
    ensures a == b
  {
    forall i | 0 <= i < |a|
      ensures a[i] == b[i]
    {
      assert PackRow(New(a).rows[i]) == a[i];
    }
  }

  /** The leftmost pixel is the byte's top bit and the rightmost its bottom bit. */
  lemma {:induction false} RowOfMsbFirst(b: Byte)
    ensures RowOf(b)[0] == (b >= 0x80)
    ensures RowOf(b)[RowWidth - 1] == (b % 2 == 1)
  {
    Pow2Values();
    assert RowOf(b)[0] == Bit(b, 7);
    assert b / 0x80 == (if b >= 0x80 then 1 else 0);
  }

  // ---------------------------------------------------------------------
  // Where a sprite lands on the screen.
  // ---------------------------------------------------------------------

  /** Rows from `y` never wrap, so a non-empty sprite must fit below row 32. */
  predicate FitsVertically(sp: Sprite, y: nat)
  {
    |sp.rows| == 0 || y + |sp.rows| <= ScreenHeight
  }

  /** Cell (r, c) lies under the sprite drawn at (x, y). */
  predicate Covers(sp: Sprite, x: nat, y: nat, r: int, c: int)
  {
    y <= r < y + |sp.rows| && (c - x) % ScreenWidth < RowWidth
  }

  /** The sprite's pixel at cell (r, c) when drawn at (x, y); false off the sprite. */
  predicate PixelAt(sp: Sprite, x: nat, y: nat, r: int, c: int)
    requires WellFormed(sp)
  {
    Covers(sp, x, y, r, c) && sp.rows[r - y][(c - x) % ScreenWidth]
  }

  /**
   * The cells of a sprite are visited line by line and, within a line,
   * column by column; the k-th visit lands on this cell.
   */
  function CellRow(y: nat, k: nat): nat
  {
    y + k / RowWidth
  }

  function CellCol(x: nat, k: nat): (c: nat)
    ensures c < ScreenWidth
  {
    (x + k % RowWidth) % ScreenWidth
  }

  /** The visit number of a covered cell. */
  function VisitOf(x: nat, y: nat, r: int, c: int): int
  {
    (r - y) * RowWidth + (c - x) % ScreenWidth
  }

  /** Cell (r, c) is covered and has not yet been visited before visit `k`. */
  predicate Pending(sp: Sprite, x: nat, y: nat, k: nat, r: int, c: int)
  {
    Covers(sp, x, y, r, c) && VisitOf(x, y, r, c) >= k
  }

  /**
   * The k-th visit lands on a covered cell whose visit number is `k`, and
   * no other on-screen cell has that number: every covered cell is
   * visited exactly once.
   */
  lemma {:induction false} VisitCell(sp: Sprite, x: nat, y: nat, k: nat, r: int, c: int)
    requires k < |sp.rows| * RowWidth
    requires 0 <= c < ScreenWidth
    ensures Covers(sp, x, y, CellRow(y, k), CellCol(x, k))
    ensures VisitOf(x, y, CellRow(y, k), CellCol(x, k)) == k
    ensures Covers(sp, x, y, r, c) && VisitOf(x, y, r, c) == k ==> r == CellRow(y, k) && c == CellCol(x, k)
  {
    var j := k % RowWidth;
    var c0 := CellCol(x, k);
    DivUnique(x + j, ScreenWidth, (x + j) / ScreenWidth, c0);
    DivUnique(c0 - x, ScreenWidth, -((x + j) / ScreenWidth), j);
    assert (c0 - x) % ScreenWidth == j;
    assert k == (k / RowWidth) * RowWidth + j;
    if Covers(sp, x, y, r, c) && VisitOf(x, y, r, c) == k {
      var jc := (c - x) % ScreenWidth;
      DivUnique(k, RowWidth, r - y, jc);
      assert jc == j;
      var q := (c - x) / ScreenWidth;
      assert c == x + j + q * ScreenWidth;
      DivUnique(x + j, ScreenWidth, -q, c);
    }
  }

  // ---------------------------------------------------------------------
  // get_screen_mask
  // ---------------------------------------------------------------------

  const MaskSize: nat := ScreenWidth * ScreenHeight

  /**
   * The rest of the visit loop of `get_screen_mask` from visit `k` on:
   * every visit writes the sprite's pixel into the cell it lands on.
   */
  function MaskFrom(m: seq<bool>, sp: Sprite, x: nat, y: nat, k: nat): (mask: seq<bool>)
    requires |m| == MaskSize && WellFormed(sp) && FitsVertically(sp, y)
    requires k <= |sp.rows| * RowWidth
    ensures |mask| == MaskSize
    ensures forall i :: 0 <= i < MaskSize ==>
      mask[i] == if Pending(sp, x, y, k, i / ScreenWidth, i % ScreenWidth)
                 then PixelAt(sp, x, y, i / ScreenWidth, i % ScreenWidth)
                 else m[i]
    decreases |sp.rows| * RowWidth - k
  {
    if k == |sp.rows| * RowWidth then
      m
    else
      var r := CellRow(y, k);
      var c := CellCol(x, k);
      var pixel := sp.rows[k / RowWidth][k % RowWidth];
      CellIndex(r, c);
      var next := MaskFrom(m[r * ScreenWidth + c := pixel], sp, x, y, k + 1);
      MaskStep(m, sp, x, y, k, next);
      next
  }

  /** Cell (r, c) of a 32x64 screen is entry `64 r + c` of its flattening. */
  lemma {:induction false} CellIndex(r: nat, c: nat)
    requires r < ScreenHeight && c < ScreenWidth
    ensures r * ScreenWidth + c < MaskSize
    ensures (r * ScreenWidth + c) / ScreenWidth == r
    ensures (r * ScreenWidth + c) % ScreenWidth == c
  {
    DivUnique(r * ScreenWidth + c, ScreenWidth, r, c);
  }

  /** One visit of the mask loop keeps the loop's contract. */
  lemma {:induction false} MaskStep(m: seq<bool>, sp: Sprite, x: nat, y: nat, k: nat, next: seq<bool>)
    requires |m| == MaskSize && WellFormed(sp) && FitsVertically(sp, y)
    requires k < |sp.rows| * RowWidth
    requires CellRow(y, k) < ScreenHeight
    requires |next| == MaskSize
    requires forall i :: 0 <= i < MaskSize ==>
      next[i] == if Pending(sp, x, y, k + 1, i / ScreenWidth, i % ScreenWidth)
                 then PixelAt(sp, x, y, i / ScreenWidth, i % ScreenWidth)
                 else m[CellRow(y, k) * ScreenWidth + CellCol(x, k) := sp.rows[k / RowWidth][k % RowWidth]][i]
    ensures forall i :: 0 <= i < MaskSize ==>
      next[i] == if Pending(sp, x, y, k, i / ScreenWidth, i % ScreenWidth)
                 then PixelAt(sp, x, y, i / ScreenWidth, i % ScreenWidth)
                 else m[i]
  {
    var r0 := CellRow(y, k);
    var c0 := CellCol(x, k);
    CellIndex(r0, c0);
    forall i | 0 <= i < MaskSize
      ensures next[i] == if Pending(sp, x, y, k, i / ScreenWidth, i % ScreenWidth)
                         then PixelAt(sp, x, y, i / ScreenWidth, i % ScreenWidth)
                         else m[i]
    {
      var r, c := i / ScreenWidth, i % ScreenWidth;
      VisitCell(sp, x, y, k, r, c);
      if i == r0 * ScreenWidth + c0 {
        assert r == r0 && c == c0;
      } else {
        assert !(r == r0 && c == c0);
      }
    }
  }

  /**
   * `get_screen_mask`: a 2048-entry line-major mask holding the sprite's
   * pixel at every covered cell and false elsewhere. A covered row at or
   * past 32 would index past the mask, so the sprite must fit vertically.
   */
  function GetScreenMask(sp: Sprite, x: nat, y: nat): (mask: seq<bool>)
    requires WellFormed(sp) && FitsVertically(sp, y)
    ensures |mask| == MaskSize
    ensures forall r, c :: 0 <= r < ScreenHeight && 0 <= c < ScreenWidth ==>
      mask[r * ScreenWidth + c] == PixelAt(sp, x, y, r, c)
  {
    var mask := MaskFrom(seq(MaskSize, _ => false), sp, x, y, 0);
    forall r, c | 0 <= r < ScreenHeight && 0 <= c < ScreenWidth
      ensures mask[r * ScreenWidth + c] == PixelAt(sp, x, y, r, c)
    {
      CellIndex(r, c);
    }
    mask
  }

  /** A mask cell off the sprite is false. */
  lemma {:induction false} MaskOffSprite(sp: Sprite, x: nat, y: nat, r: nat, c: nat)
    requires WellFormed(sp) && FitsVertically(sp, y)
    requires r < ScreenHeight && c < ScreenWidth
    requires !Covers(sp, x, y, r, c)
    ensures !GetScreenMask(sp, x, y)[r * ScreenWidth + c]
  {
    assert !PixelAt(sp, x, y, r, c);
  }
}
