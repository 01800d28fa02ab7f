/**
 * The 64x32 display: a logical buffer of one byte per pixel, the sprite
 * compositing that XORs sprites into it and raises VF on a collision, and
 * the presentation buffer regenerated from it for the screen.
 */
module Video {
  import opened BitUtils
  import Memory

  const Width: int := 64
  const Height: int := 32
  const SpriteWidth: int := 8
  /** Cells of both buffers: `Width * Height`, the range the code indexes. */
  const Cells: int := 2048

  /** Column and row of buffer cell `k` (row-major layout). */
  function Col(k: int): int { k % Width }
  function Row(k: int): int { k / Width }

  /** Sprites are not wrapped yet: one that touches or crosses an edge is not drawn at all. */
  predicate Clipped(x: int, y: int, height: int) {
    x < 0 || y < 0 || x + SpriteWidth >= Width || y + height >= Height
  }

  /** Cell `k` lies in the `w` by `h` rectangle whose top-left corner is (x, y). */
  predicate InRect(x: int, y: int, w: int, h: int, k: int) {
    x <= Col(k) < x + w && y <= Row(k) < y + h
  }

  /** Cell `k` is one that `drawSprite(x, y, sprite, height)` writes. */
  predicate Touched(x: int, y: int, height: int, k: int) {
    !Clipped(x, y, height) && InRect(x, y, SpriteWidth, height, k)
  }

  /**
   * The guard's `>=` keeps the last column and the last row out of reach: no
   * sprite ever writes a cell of column 63 or of row 31.
   */
  lemma LastColumnAndRowNeverDrawn(x: int, y: int, height: int, k: int)
    requires 0 <= k < Cells && Touched(x, y, height, k)
    ensures Col(k) < Width - 1 && Row(k) < Height - 1
  {
  }

  /** `(x + i) + (y + j) * Width`: the cell written for sprite pixel (i, j). */
  function ScreenIndex(x: int, y: int, i: int, j: int): (k: int)
    requires !Clipped(x, y, j + 1) && 0 <= i < SpriteWidth && 0 <= j
    ensures 0 <= k < Cells
  {
    (x + i) + (y + j) * Width
  }

  /** Sprite pixel (i, j) lands in column `x + i` of row `y + j`. */
  lemma ScreenIndexCoords(x: int, y: int, i: int, j: int)
    requires !Clipped(x, y, j + 1) && 0 <= i < SpriteWidth && 0 <= j
    ensures Col(ScreenIndex(x, y, i, j)) == x + i && Row(ScreenIndex(x, y, i, j)) == y + j
  {
  }

  /** The bit of a row byte that pixel `i` of the row reads, most significant first. */
  function PixelBit(i: int): bv8
    requires 0 <= i < SpriteWidth
  {
    [7, 6, 5, 4, 3, 2, 1, 0][i]
  }

  /** `PixelBit(i)` is the code's bit position `SpriteWidth - 1 - i`. */
  lemma PixelBitIs(i: int)
    requires 0 <= i < SpriteWidth
    ensures PixelBit(i) == 7 - (i as bv8)
  {
  }

  /**
   * The value the code XORs into touched cell `k`: `bitQuery` of the
   * sprite's row byte `Row(k) - y` at bit `SpriteWidth - 1 - (Col(k) - x)`.
   */
  function SpritePixel(sprite: seq<bv8>, x: int, y: int, k: int): bv8
    requires 0 <= Col(k) - x < SpriteWidth && 0 <= Row(k) - y < |sprite|
  {
    BitQuery(sprite[Row(k) - y], PixelBit(Col(k) - x))
  }

  /** What `drawSprite` requires of the sprite: a drawn sprite has `height` row bytes. */
  predicate SpriteFits(x: int, y: int, sprite: seq<bv8>, height: int) {
    !Clipped(x, y, height) ==> height <= |sprite|
  }

  /**
   * The logical buffer after `drawSprite(x, y, sprite, height)`. For
   * `j <= height` the same function also gives the buffer after the first
   * `j` rows, which is how the outer loop is specified.
   */
  function Drawn(d: seq<bv8>, x: int, y: int, sprite: seq<bv8>, height: int): (r: seq<bv8>)
    requires |d| == Cells && SpriteFits(x, y, sprite, height)
    ensures |r| == Cells
  {
    seq(Cells, k requires 0 <= k < Cells =>
      if Touched(x, y, height, k) then d[k] ^ SpritePixel(sprite, x, y, k) else d[k])
  }

  /** Some cell goes from 1 to 0 when the sprite is drawn: the condition for VF := 1. */
  predicate Collides(d: seq<bv8>, x: int, y: int, sprite: seq<bv8>, height: int)
    requires |d| == Cells && SpriteFits(x, y, sprite, height)
  {
    exists k :: 0 <= k < Cells && d[k] == 1 && Drawn(d, x, y, sprite, height)[k] == 0
  }

  /** The cell at column `Col(k)` of row `Row(k)` is `k` itself. */
  lemma ScreenIndexOf(x: int, y: int, k: int)
    requires 0 <= k < Cells && x <= Col(k) < x + SpriteWidth && y <= Row(k) && !Clipped(x, y, Row(k) - y + 1)
    ensures ScreenIndex(x, y, Col(k) - x, Row(k) - y) == k
  {
  }

  /**
   * The eight values the inner loop XORs into row `j`: pixel `i` is
   * `bitQuery(sprite[j], SpriteWidth - 1 - i)`.
   */
  function RowPixels(sprite: seq<bv8>, j: int): (r: seq<bv8>)
    requires 0 <= j < |sprite|
    ensures |r| == SpriteWidth
  {
    seq(SpriteWidth, i requires 0 <= i < SpriteWidth => BitQuery(sprite[j], PixelBit(i)))
  }

  /** Value `i` of row `j` is `bitQuery(sprite[j], 7 - i)`. */
  lemma RowPixelAt(sprite: seq<bv8>, j: int, i: int)
    requires 0 <= j < |sprite| && 0 <= i < SpriteWidth
    ensures RowPixels(sprite, j)[i] == BitQuery(sprite[j], 7 - (i as bv8))
  {
    PixelBitIs(i);
  }

  /**
   * The buffer `s` after the inner loop has XORed the first `i` values of
   * `row` into row `j`: value `m` goes into column `x + m`.
   */
  function RowDrawn(s: seq<bv8>, x: int, y: int, row: seq<bv8>, j: int, i: int): (r: seq<bv8>)
    requires |s| == Cells && |row| == SpriteWidth && 0 <= i <= SpriteWidth
    ensures |r| == Cells
  {
    seq(Cells, k requires 0 <= k < Cells => if InRect(x, y + j, i, 1, k) then s[k] ^ row[Col(k) - x] else s[k])
  }

  /** Value `m < i` of `row`, XORed into row `j` of `s`, turns a 1 into a 0. */
  predicate ErasesInRow(s: seq<bv8>, x: int, y: int, row: seq<bv8>, j: int, i: int)
    requires |s| == Cells && !Clipped(x, y, j + 1) && 0 <= j && |row| == SpriteWidth && 0 <= i <= SpriteWidth
  {
    exists m :: 0 <= m < i && s[ScreenIndex(x, y, m, j)] == 1 && s[ScreenIndex(x, y, m, j)] ^ row[m] == 0
  }

  /**
   * One iteration of the inner loop: cell `(x + i, y + j)` still holds its
   * value from `s`, and XORing value `i` into it extends the row by one cell.
   */
  lemma RowDrawnNext(s: seq<bv8>, x: int, y: int, row: seq<bv8>, j: int, i: int)
    requires |s| == Cells && !Clipped(x, y, j + 1) && 0 <= j && |row| == SpriteWidth && 0 <= i < SpriteWidth
    ensures var t, k := RowDrawn(s, x, y, row, j, i), ScreenIndex(x, y, i, j);
      t[k] == s[k] && RowDrawn(s, x, y, row, j, i + 1) == t[k := s[k] ^ row[i]]
  {
    var t, u, k := RowDrawn(s, x, y, row, j, i), RowDrawn(s, x, y, row, j, i + 1), ScreenIndex(x, y, i, j);
    ScreenIndexCoords(x, y, i, j);
    forall c | 0 <= c < Cells
      ensures u[c] == t[k := s[k] ^ row[i]][c]
    {
      if c != k {
        RowDrawnCell(s, x, y, row, j, i, c);
      }
    }
  }

  /** A cell other than `(x + i, y + j)` is the same before and after value `i` is written. */
  lemma RowDrawnCell(s: seq<bv8>, x: int, y: int, row: seq<bv8>, j: int, i: int, c: int)
    requires |s| == Cells && !Clipped(x, y, j + 1) && 0 <= j && |row| == SpriteWidth && 0 <= i < SpriteWidth
    requires 0 <= c < Cells && c != ScreenIndex(x, y, i, j)
    ensures RowDrawn(s, x, y, row, j, i + 1)[c] == RowDrawn(s, x, y, row, j, i)[c]
  {
    if InRect(x, y + j, i + 1, 1, c) && Col(c) == x + i {
      ScreenIndexOf(x, y, c);
    }
  }

  /** Value `i` raises VF for row `j` exactly when writing it into `s` erases a 1. */
  lemma ErasesInRowNext(s: seq<bv8>, x: int, y: int, row: seq<bv8>, j: int, i: int)
    requires |s| == Cells && !Clipped(x, y, j + 1) && 0 <= j && |row| == SpriteWidth && 0 <= i < SpriteWidth
    ensures var k := ScreenIndex(x, y, i, j);
      ErasesInRow(s, x, y, row, j, i + 1) <==> ErasesInRow(s, x, y, row, j, i) || (s[k] == 1 && s[k] ^ row[i] == 0)
  {
    if ErasesInRow(s, x, y, row, j, i + 1) {
      var m :| 0 <= m < i + 1 && s[ScreenIndex(x, y, m, j)] == 1 && s[ScreenIndex(x, y, m, j)] ^ row[m] == 0;
      if m < i {
        assert ErasesInRow(s, x, y, row, j, i);
      }
    }
  }

  /**
   * One iteration of the outer loop: drawing the first `j + 1` rows of a
   * sprite is drawing its first `j` rows and then XORing row `j` in.
   */
  lemma DrawnNextRow(d: seq<bv8>, x: int, y: int, sprite: seq<bv8>, j: int)
    requires |d| == Cells && 0 <= j < |sprite| && !Clipped(x, y, j + 1)
    ensures RowDrawn(Drawn(d, x, y, sprite, j), x, y, RowPixels(sprite, j), j, SpriteWidth) == Drawn(d, x, y, sprite, j + 1)
  {
    var t, u := Drawn(d, x, y, sprite, j), Drawn(d, x, y, sprite, j + 1);
    var v := RowDrawn(t, x, y, RowPixels(sprite, j), j, SpriteWidth);
    forall k | 0 <= k < Cells
      ensures v[k] == u[k]
    {
      if InRect(x, y + j, SpriteWidth, 1, k) {
        RowPixelAt(sprite, j, Col(k) - x);
      }
    }
  }

  /**
   * The outer loop raises VF for the first `j + 1` rows exactly when it
   * raised it for the first `j` or row `j` erases a 1 of the buffer it is
   * drawn into.
   */
  lemma CollidesNextRow(d: seq<bv8>, x: int, y: int, sprite: seq<bv8>, j: int)
    requires |d| == Cells && 0 <= j < |sprite| && !Clipped(x, y, j + 1)
    ensures Collides(d, x, y, sprite, j + 1) <==>
      Collides(d, x, y, sprite, j) || ErasesInRow(Drawn(d, x, y, sprite, j), x, y, RowPixels(sprite, j), j, SpriteWidth)
  {
    var t, u, row := Drawn(d, x, y, sprite, j), Drawn(d, x, y, sprite, j + 1), RowPixels(sprite, j);
    if Collides(d, x, y, sprite, j + 1) {
      var k :| 0 <= k < Cells && d[k] == 1 && u[k] == 0;
      if InRect(x, y + j, SpriteWidth, 1, k) {
        ErasedInRow(d, x, y, sprite, j, k);
      } else {
        DrawnOtherCell(d, x, y, sprite, j, k);
      }
    }
    if Collides(d, x, y, sprite, j) {
      var k :| 0 <= k < Cells && d[k] == 1 && t[k] == 0;
      DrawnOtherCell(d, x, y, sprite, j, k);
    }
    if ErasesInRow(t, x, y, row, j, SpriteWidth) {
      var m :| 0 <= m < SpriteWidth && t[ScreenIndex(x, y, m, j)] == 1 && t[ScreenIndex(x, y, m, j)] ^ row[m] == 0;
      DrawnRowCell(d, x, y, sprite, j, m);
      assert d[ScreenIndex(x, y, m, j)] == 1 && u[ScreenIndex(x, y, m, j)] == 0;
    }
  }

  /** A cell of row `j` that the next row turns from 1 into 0 is an erasing value of that row. */
  lemma ErasedInRow(d: seq<bv8>, x: int, y: int, sprite: seq<bv8>, j: int, k: int)
    requires |d| == Cells && 0 <= j < |sprite| && !Clipped(x, y, j + 1) && 0 <= k < Cells
    requires InRect(x, y + j, SpriteWidth, 1, k) && d[k] == 1 && Drawn(d, x, y, sprite, j + 1)[k] == 0
    ensures ErasesInRow(Drawn(d, x, y, sprite, j), x, y, RowPixels(sprite, j), j, SpriteWidth)
  {
    var m := Col(k) - x;
    ScreenIndexOf(x, y, k);
    DrawnRowCell(d, x, y, sprite, j, m);
  }

  /** Row `j` is untouched by the first `j` rows and receives its values from the next one. */
  lemma DrawnRowCell(d: seq<bv8>, x: int, y: int, sprite: seq<bv8>, j: int, m: int)
    requires |d| == Cells && 0 <= j < |sprite| && !Clipped(x, y, j + 1) && 0 <= m < SpriteWidth
    ensures var k := ScreenIndex(x, y, m, j);
      Drawn(d, x, y, sprite, j)[k] == d[k] && Drawn(d, x, y, sprite, j + 1)[k] == d[k] ^ RowPixels(sprite, j)[m]
  {
    ScreenIndexCoords(x, y, m, j);
  }

  /** A cell outside row `j` is the same after the first `j` rows and after the first `j + 1`. */
  lemma DrawnOtherCell(d: seq<bv8>, x: int, y: int, sprite: seq<bv8>, j: int, k: int)
    requires |d| == Cells && 0 <= j < |sprite| && !Clipped(x, y, j + 1) && 0 <= k < Cells
    requires !InRect(x, y + j, SpriteWidth, 1, k)
    ensures Drawn(d, x, y, sprite, j)[k] == Drawn(d, x, y, sprite, j + 1)[k]
  {
  }

  /** The register file after `drawSprite`'s `setRegister(0xF, 0x1)` when `erased`, unchanged otherwise. */
  function Flagged(r: seq<bv8>, erased: bool): (f: seq<bv8>)
    requires |r| == Memory.RegisterCount
    ensures |f| == |r| && f[15] == (if erased then 1 else r[15])
    ensures forall v :: 0 <= v < 15 ==> f[v] == r[v]
  {
    if erased then r[15 := 1] else r
  }

  /** Raising VF twice is raising it once: the flag only accumulates. */
  lemma FlaggedTwice(r: seq<bv8>, a: bool, b: bool)
    requires |r| == Memory.RegisterCount
    ensures Flagged(Flagged(r, a), b) == Flagged(r, a || b)
  {
    if a && b {
      assert r[15 := 1][15 := 1] == r[15 := 1];
    }
  }

  /** The two indices `drawSprite` computes for sprite pixel (i, j): its screen cell and its sprite row. */
  lemma DrawIndices(x: int, y: int, i: int, j: int)
    requires !Clipped(x, y, j + 1) && 0 <= i < SpriteWidth && 0 <= j
    ensures (x + i) + ((y + j) * Width) == ScreenIndex(x, y, i, j)
    ensures (i + (j * SpriteWidth)) / SpriteWidth == j
  {
  }

  /** The presentation buffer after `copyDataToPixels` from logical buffer `d`. */
  function Presented(d: seq<bv8>, p: seq<bv32>, on: bv32, off: bv32): (r: seq<bv32>)
    requires |d| == |p|
    ensures |r| == |p|
    ensures forall k :: 0 <= k < |p| ==>
      (d[k] == 1 ==> r[k] == on) && (d[k] == 0 ==> r[k] == off) && (d[k] != 0 && d[k] != 1 ==> r[k] == p[k])
  {
    seq(|p|, k requires 0 <= k < |p| => if d[k] == 1 then on else if d[k] == 0 then off else p[k])
  }

  /** A buffer with every cell 0, as the constructor leaves it. */
  function Blank(): (b: seq<bv8>)
    ensures |b| == Cells && forall k :: 0 <= k < Cells ==> b[k] == 0
  {
    seq(Cells, _ => 0)
  }

  /**
   * When the guard rejects the sprite, or it has no rows, nothing is drawn
   * and nothing collides.
   */
  lemma NothingDrawn(d: seq<bv8>, x: int, y: int, sprite: seq<bv8>, height: int)
    requires |d| == Cells && (Clipped(x, y, height) || height <= 0)
    ensures Drawn(d, x, y, sprite, height) == d
    ensures !Collides(d, x, y, sprite, height)
  {
    assert forall k :: 0 <= k < Cells ==> Drawn(d, x, y, sprite, height)[k] == d[k];
  }

  /**
   * Cells outside the `SpriteWidth` by `height` rectangle at (x, y) keep
   * their value; so do all cells when the sprite is clipped.
   */
  lemma DrawOutsideUnchanged(d: seq<bv8>, x: int, y: int, sprite: seq<bv8>, height: int, k: int)
    requires |d| == Cells && SpriteFits(x, y, sprite, height) && 0 <= k < Cells
    requires Clipped(x, y, height) || !InRect(x, y, SpriteWidth, height, k)
    ensures Drawn(d, x, y, sprite, height)[k] == d[k]
  {
  }

  /** Sprite pixel (i, j) lands on cell `(x + i) + (y + j) * Width`, XORed with `bitQuery(sprite[j], 7 - i)`. */
  lemma DrawPixel(d: seq<bv8>, x: int, y: int, sprite: seq<bv8>, height: int, i: int, j: int)
    requires |d| == Cells && !Clipped(x, y, height) && height <= |sprite|
    requires 0 <= i < SpriteWidth && 0 <= j < height
    ensures var k := ScreenIndex(x, y, i, j);
      Drawn(d, x, y, sprite, height)[k] == d[k] ^ BitQuery(sprite[j], 7 - (i as bv8))
  {
    ScreenIndexCoords(x, y, i, j);
  }

  /** XOR is self-inverse: drawing the same sprite again restores the buffer. */
  lemma DrawTwiceRestores(d: seq<bv8>, x: int, y: int, sprite: seq<bv8>, height: int)
    requires |d| == Cells && SpriteFits(x, y, sprite, height)
    ensures Drawn(Drawn(d, x, y, sprite, height), x, y, sprite, height) == d
  {
    var d1 := Drawn(d, x, y, sprite, height);
    var d2 := Drawn(d1, x, y, sprite, height);
    forall k | 0 <= k < Cells
      ensures d2[k] == d[k]
    {
      if Touched(x, y, height, k) {
        var p := SpritePixel(sprite, x, y, k);
        assert d2[k] == (d[k] ^ p) ^ p;
      }
    }
  }

  /**
   * Because `bitQuery` always sets the low bit, a cell is erased exactly
   * when it held 1 and the value XORed into it is exactly 1.
   */
  lemma CollisionIff(d: seq<bv8>, x: int, y: int, sprite: seq<bv8>, height: int)
    requires |d| == Cells && SpriteFits(x, y, sprite, height)
    ensures Collides(d, x, y, sprite, height) <==>
      exists k :: 0 <= k < Cells && Touched(x, y, height, k) && d[k] == 1 && SpritePixel(sprite, x, y, k) == 1
  {
    var d1 := Drawn(d, x, y, sprite, height);
    if Collides(d, x, y, sprite, height) {
      var k :| 0 <= k < Cells && d[k] == 1 && d1[k] == 0;
      assert Touched(x, y, height, k);
    }
  }

  /**
   * The low bit of every XORed value is 1, so a touched cell that was 0 never
   * stays 0: it always becomes odd. Only the cells that become exactly 1 are
   * shown in the on colour (`BlankDrawHidden`).
   */
  lemma DrawLightsBlankCells(d: seq<bv8>, x: int, y: int, sprite: seq<bv8>, height: int, k: int)
    requires |d| == Cells && SpriteFits(x, y, sprite, height) && 0 <= k < Cells
    requires Touched(x, y, height, k) && d[k] == 0
    ensures Drawn(d, x, y, sprite, height)[k] & 1 == 1
  {
  }

  /**
   * On a blank screen the first drawing of an unclipped sprite collides
   * with nothing; drawing it again collides (the left column's value is
   * always 1) and leaves the screen blank.
   */
  lemma BlankDrawTwice(x: int, y: int, sprite: seq<bv8>, height: int)
    requires !Clipped(x, y, height) && 1 <= height <= |sprite|
    ensures !Collides(Blank(), x, y, sprite, height)
    ensures Collides(Drawn(Blank(), x, y, sprite, height), x, y, sprite, height)
    ensures Drawn(Drawn(Blank(), x, y, sprite, height), x, y, sprite, height) == Blank()
  {
    var d1 := Drawn(Blank(), x, y, sprite, height);
    DrawTwiceRestores(Blank(), x, y, sprite, height);
    var k := ScreenIndex(x, y, 0, 0);
    DrawPixel(Blank(), x, y, sprite, height, 0, 0);
    DrawPixel(d1, x, y, sprite, height, 0, 0);
    assert d1[k] == 1;
    assert Drawn(d1, x, y, sprite, height)[k] == 0;
  }

  /**
   * The buffer does not stay 0/1: the single row 0xF0 drawn at (0, 0) leaves
   * 1 in the left cell, 3 in the next and 0xF1 in the rightmost one.
   */
  lemma DrawnNotBinary()
    ensures Drawn(Blank(), 0, 0, [0xF0], 1)[0] == 1
    ensures Drawn(Blank(), 0, 0, [0xF0], 1)[1] == 3
    ensures Drawn(Blank(), 0, 0, [0xF0], 1)[7] == 0xF1
  {
    var b := Blank();
    var d := Drawn(b, 0, 0, [0xF0], 1);
    assert Touched(0, 0, 1, 0) && Touched(0, 0, 1, 1) && Touched(0, 0, 1, 7);
    assert d[0] == b[0] ^ BitQuery(0xF0, 7);
    assert d[1] == b[1] ^ BitQuery(0xF0, 6);
    assert d[7] == b[7] ^ BitQuery(0xF0, 0);
  }

  /**
   * For a buffer of 0s and 1s the presentation does not depend on the stale
   * pixels, and a cell shows the on colour iff it holds 1 (when the colours differ).
   */
  lemma PresentedBinary(d: seq<bv8>, p: seq<bv32>, q: seq<bv32>, on: bv32, off: bv32)
    requires |d| == |p| == |q|
    requires forall k :: 0 <= k < |d| ==> d[k] == 0 || d[k] == 1
    ensures Presented(d, p, on, off) == Presented(d, q, on, off)
    ensures on != off ==> forall k :: 0 <= k < |d| ==> (Presented(d, p, on, off)[k] == on <==> d[k] == 1)
  {
  }

  /** Any other cell value leaves its presentation pixel as it was. */
  lemma PresentedKeepsUnknown(d: seq<bv8>, p: seq<bv32>, on: bv32, off: bv32, k: int)
    requires |d| == |p| && 0 <= k < |d| && d[k] != 0 && d[k] != 1
    ensures Presented(d, p, on, off)[k] == p[k]
  {
  }

  /**
   * A lit cell need not be shown: after row byte 0xF0 is drawn at (0, 0) on a
   * blank buffer, cell 1 holds 3, so presenting the buffer keeps pixel 1 as it
   * was instead of giving it the on colour.
   */
  lemma BlankDrawHidden(p: seq<bv32>, on: bv32, off: bv32)
    requires |p| == Cells
    ensures Presented(Drawn(Blank(), 0, 0, [0xF0], 1), p, on, off)[1] == p[1]
  {
    DrawnNotBinary();
    PresentedKeepsUnknown(Drawn(Blank(), 0, 0, [0xF0], 1), p, on, off, 1);
  }

  class Video {
    const data: array<bv8>
    const pixels: array<bv32>
    /** The two colours `SDL_MapRGBA` yields for white and black. */
    const on: bv32
    const off: bv32

    ghost predicate Valid() {
      data.Length == Cells && pixels.Length == Cells
    }

    /** Both buffers start with every cell 0. */
    constructor (on: bv32, off: bv32)
      ensures Valid() && fresh(data) && fresh(pixels)
      ensures this.on == on && this.off == off
      ensures forall k :: 0 <= k < Cells ==> data[k] == 0 && pixels[k] == 0
    {
      this.on, this.off := on, off;
      data := new bv8[Cells];
      pixels := new bv32[Cells];
      new;
      var i := 0;
      while i < 2048
        invariant 0 <= i <= Cells
        invariant forall k :: 0 <= k < i ==> data[k] == 0 && pixels[k] == 0
      {
        pixels[i] := 0;
        data[i] := 0;
        i := i + 1;
      }
    }

    /**
     * `copyDataToPixels`: cell value 1 becomes the on colour, 0 the off
     * colour; any other value leaves its presentation pixel as it was.
     */
    method CopyDataToPixels()
      requires Valid()
      modifies pixels
      ensures pixels[..] == Presented(data[..], old(pixels[..]), on, off)
    {
      var i := 0;
      while i < Width * Height
        invariant 0 <= i <= Cells
        invariant forall k :: 0 <= k < i ==> pixels[k] == Presented(data[..], old(pixels[..]), on, off)[k]
        invariant forall k :: i <= k < Cells ==> pixels[k] == old(pixels[k])
      {
        if data[i] == 0x1 {
          pixels[i] := on;
        } else if data[i] == 0x0 {
          pixels[i] := off;
        }
        i := i + 1;
      }
    }

    /**
     * One iteration of the inner loop of `drawSprite`: XORs `spritePixel`
     * into cell `k` and sets VF to 1 when that turns a 1 into a 0.
     */
    method XorPixel(mem: Memory.Memory, k: int, spritePixel: bv8) returns (erased: bool)
      requires Valid() && mem.Valid() && mem.registers != data && 0 <= k < Cells
      modifies data, mem.registers
      ensures erased <==> old(data[k]) == 1 && old(data[k]) ^ spritePixel == 0
      ensures data[..] == old(data[..])[k := old(data[k]) ^ spritePixel]
      ensures mem.registers[..] == Flagged(old(mem.registers[..]), erased)
    {
      var screenPixel := data[k];
      var result := screenPixel ^ spritePixel;
      data[k] := result;
      erased := screenPixel == 0x1 && result == 0x0;
      if erased {
        var _ := mem.SetRegister(0xF, 0x1);
      }
    }

    /**
     * The inner loop of `drawSprite` for row `j`: XORs the eight values of
     * `RowPixels(sprite, j)` into the row and sets VF when one of them
     * erases a 1.
     */
    method DrawRow(mem: Memory.Memory, x: int, y: int, sprite: seq<bv8>, j: int)
      requires Valid() && mem.Valid() && mem.registers != data
      requires !Clipped(x, y, j + 1) && 0 <= j < |sprite|
      modifies data, mem.registers
      ensures var row := RowPixels(sprite, j);
        data[..] == RowDrawn(old(data[..]), x, y, row, j, SpriteWidth) &&
        mem.registers[..] == Flagged(old(mem.registers[..]), ErasesInRow(old(data[..]), x, y, row, j, SpriteWidth))
    {
      ghost var s := data[..];
      ghost var r0 := mem.registers[..];
      ghost var row := RowPixels(sprite, j);
      var i := 0;
      while i < SpriteWidth
        invariant 0 <= i <= SpriteWidth
        invariant data[..] == RowDrawn(s, x, y, row, j, i)
        invariant mem.registers[..] == Flagged(r0, ErasesInRow(s, x, y, row, j, i))
      {
        DrawIndices(x, y, i, j);
        var screenPixelIndex := (x + i) + ((y + j) * Width);
        var spritePixelIndex := i + (j * SpriteWidth);
        RowPixelAt(sprite, j, i);
        var spritePixel := BitQuery(sprite[spritePixelIndex / SpriteWidth], 7 - (i as bv8));
        RowDrawnNext(s, x, y, row, j, i);
        ErasesInRowNext(s, x, y, row, j, i);
        var erased := XorPixel(mem, screenPixelIndex, spritePixel);
        FlaggedTwice(r0, ErasesInRow(s, x, y, row, j, i), erased);
        i := i + 1;
      }
    }

    /**
     * `drawSprite(x, y, sprite, height)`: returns at once when the sprite
     * would touch or cross an edge; otherwise XORs every sprite pixel into
     * the buffer, sets VF to 1 when some cell goes from 1 to 0 (VF is never
     * cleared), and regenerates the presentation buffer.
     */
    method DrawSprite(mem: Memory.Memory, x: int, y: int, sprite: seq<bv8>, height: int)
      requires Valid() && mem.Valid() && mem.registers != data && mem.memory != data
      requires SpriteFits(x, y, sprite, height)
      modifies data, pixels, mem.registers
      ensures data[..] == Drawn(old(data[..]), x, y, sprite, height)
      ensures mem.registers[..] ==
        if Collides(old(data[..]), x, y, sprite, height) then old(mem.registers[..])[15 := 1]
        else old(mem.registers[..])
      ensures pixels[..] ==
        if Clipped(x, y, height) then old(pixels[..]) else Presented(data[..], old(pixels[..]), on, off)
      ensures unchanged(mem, mem.memory)
    {
      if x < 0 || y < 0 || x + SpriteWidth >= Width || y + height >= Height {
        NothingDrawn(data[..], x, y, sprite, height);
        return;
      }
      ghost var d0 := data[..];
      ghost var r0 := mem.registers[..];
      NothingDrawn(d0, x, y, sprite, 0);
      var j := 0;
      while j < height
        invariant 0 <= j && (j <= height || j == 0)
        invariant data[..] == Drawn(d0, x, y, sprite, j)
        invariant mem.registers[..] == Flagged(r0, Collides(d0, x, y, sprite, j))
        invariant unchanged(mem, mem.memory) && pixels[..] == old(pixels[..])
      {
        DrawnNextRow(d0, x, y, sprite, j);
        CollidesNextRow(d0, x, y, sprite, j);
        FlaggedTwice(r0, Collides(d0, x, y, sprite, j),
          ErasesInRow(data[..], x, y, RowPixels(sprite, j), j, SpriteWidth));
        DrawRow(mem, x, y, sprite, j);
        j := j + 1;
      }
      if height < 0 {
        NothingDrawn(d0, x, y, sprite, height);
      }
      CopyDataToPixels();
    }
  }
}
