/** Drawing a character cell: pixel by pixel for any font and position, or a byte per column for page-aligned cells. */
module TextRenderer {
  import opened MonoFb

  datatype Rect = Rect(x: int, y: int, width: int, height: int)

  datatype Metrics = Metrics(glyphWidth: nat, glyphHeight: nat, advanceX: nat, advanceY: nat)

  /** One cell to draw: the screen's size, the clip, the position, the glyph's columns and the font's metrics. */
  datatype Cell = Cell(width: nat, height: nat, clip: Rect, x: int, y: int, glyph: seq<Pixels>, m: Metrics)

  predicate AxisContains(value: int, start: int, length: int) {
    length > 0 && start <= value < start + length
  }

  predicate ClipContains(clip: Rect, x: int, y: int) {
    AxisContains(x, clip.x, clip.width) && AxisContains(y, clip.y, clip.height)
  }

  predicate Drawable(im: Image, c: Cell) {
    Sized(im, c.width, c.height) && |c.glyph| >= c.m.glyphWidth
  }

  predicate GlyphBit(c: Cell, column: nat, row: nat)
    requires |c.glyph| >= c.m.glyphWidth
  {
    column < c.m.glyphWidth && row < c.m.glyphHeight && row in c.glyph[column]
  }

  // ----- pixel by pixel -----

  function GenericPixel(im: Image, c: Cell, column: nat, row: nat): (r: Image)
    requires Drawable(im, c)
    ensures Drawable(r, c)
  {
    if ClipContains(c.clip, c.x + column, c.y + row)
    then PixelPut(im, c.width, c.height, c.x + column, c.y + row, GlyphBit(c, column, row)) else im
  }

  function GenericColumn(im: Image, c: Cell, column: nat, rows: nat): (r: Image)
    requires Drawable(im, c)
    ensures Drawable(r, c)
  {
    if rows == 0 then im else GenericPixel(GenericColumn(im, c, column, rows - 1), c, column, rows - 1)
  }

  function Generic(im: Image, c: Cell, columns: nat): (r: Image)
    requires Drawable(im, c)
    ensures Drawable(r, c)
  {
    if columns == 0 then im else GenericColumn(Generic(im, c, columns - 1), c, columns - 1, c.m.advanceY)
  }

  predicate OnScreen(c: Cell, px: int, py: int) {
    && 0 <= px < c.width && 0 <= py < c.height
    && c.clip.x <= px < c.clip.x + c.clip.width && c.clip.y <= py < c.clip.y + c.clip.height
  }

  lemma {:induction false} GenericColumnLights(im: Image, c: Cell, column: nat, rows: nat, px: int, py: int)
    requires Drawable(im, c)
    ensures Lit(GenericColumn(im, c, column, rows), c.width, c.height, px, py) <==>
            if px == c.x + column && 0 <= py - c.y < rows && OnScreen(c, px, py) then GlyphBit(c, column, py - c.y)
            else Lit(im, c.width, c.height, px, py)
  {
    hide Lit, PixelPut, Sized;
    if rows > 0 {
      GenericColumnLights(im, c, column, rows - 1, px, py);
      var before := GenericColumn(im, c, column, rows - 1);
      PixelPutLights(before, c.width, c.height, c.x + column, c.y + rows - 1, GlyphBit(c, column, rows - 1), px, py);
    }
  }

  /** What the generic path draws: the glyph's bits inside cell, clip and screen, and nothing else changes. */
  lemma {:induction false} GenericLights(im: Image, c: Cell, columns: nat, px: int, py: int)
    requires Drawable(im, c)
    ensures Lit(Generic(im, c, columns), c.width, c.height, px, py) <==>
            if && c.x <= px < c.x + columns && c.y <= py < c.y + c.m.advanceY && 0 <= px < c.width && 0 <= py < c.height
               && c.clip.x <= px < c.clip.x + c.clip.width && c.clip.y <= py < c.clip.y + c.clip.height
            then px - c.x < c.m.glyphWidth && py - c.y < c.m.glyphHeight && py - c.y in c.glyph[px - c.x]
            else Lit(im, c.width, c.height, px, py)
  {
    hide Lit, GenericColumn, Sized;
    if columns > 0 {
      GenericLights(im, c, columns - 1, px, py);
      GenericColumnLights(Generic(im, c, columns - 1), c, columns - 1, c.m.advanceY, px, py);
    }
  }

  // ----- a byte per column -----

  const FIVE_BY_SEVEN := Metrics(5, 7, 6, 8)

  predicate CanUseAligned(c: Cell) {
    c.m == FIVE_BY_SEVEN && c.y >= 0 && c.y % 8 == 0 && c.y + 7 < c.height
  }

  /** The rows of the cell that are inside clip and screen. */
  function RowMask(c: Cell, rows: nat): Pixels {
    if rows == 0 then {}
    else RowMask(c, rows - 1) +
         if AxisContains(c.y + rows - 1, c.clip.y, c.clip.height) && 0 <= c.y + rows - 1 < c.height then {rows - 1} else {}
  }

  lemma {:induction false} RowMaskIs(c: Cell, rows: nat, r: nat)
    ensures r in RowMask(c, rows) <==> r < rows && AxisContains(c.y + r, c.clip.y, c.clip.height) && 0 <= c.y + r < c.height
  {
    if rows > 0 {
      RowMaskIs(c, rows - 1, r);
    }
  }

  predicate ColumnVisible(c: Cell, column: nat) {
    0 <= c.x + column < c.width && AxisContains(c.x + column, c.clip.x, c.clip.width)
  }

  function CellBits(c: Cell, column: nat): Pixels
    requires |c.glyph| >= c.m.glyphWidth == 5
  {
    if column < 5 then c.glyph[column] else {}
  }

  function AlignedColumn(im: Image, c: Cell, column: nat, mask: Pixels): (r: Image)
    requires Drawable(im, c) && CanUseAligned(c)
    ensures Drawable(r, c)
  {
    if ColumnVisible(c, column) then Put(im, c.width, c.height, c.y / 8, c.x + column, CellBits(c, column), mask) else im
  }

  function Aligned(im: Image, c: Cell, columns: nat): (r: Image)
    requires Drawable(im, c) && CanUseAligned(c)
    ensures Drawable(r, c)
  {
    if columns == 0 then im else AlignedColumn(Aligned(im, c, columns - 1), c, columns - 1, RowMask(c, 8))
  }

  // ----- they are the same -----

  /** The byte path draws what the glyph has in row 7; the pixel path leaves that row dark. */
  predicate BottomRowDark(c: Cell)
    requires |c.glyph| >= c.m.glyphWidth == 5
  {
    forall column :: 0 <= column < 5 && OnScreen(c, c.x + column, c.y + 7) ==> 7 !in c.glyph[column]
  }

  lemma BlendMerges(o: Pixels, bits: Pixels, mask: Pixels, r: nat)
    requires r !in mask
    ensures Blended(Blended(o, bits, mask), bits * {r}, {r}) == Blended(o, bits, mask + {r})
    ensures Blended(o, bits, mask) != o ==> Blended(o, bits, mask + {r}) != o
  {
    if Blended(o, bits, mask) != o {
      var bit :| bit in Blended(o, bits, mask) + o && !(bit in Blended(o, bits, mask) && bit in o);
      assert bit in mask;
      assert bit in Blended(o, bits, mask + {r}) <==> bit in Blended(o, bits, mask);
    }
  }

  /** One more row of the same byte is one wider mask: same byte, same mark. */
  lemma PutMerges(im: Image, width: nat, height: nat, p: nat, x: nat, bits: Pixels, mask: Pixels, r: nat)
    requires Sized(im, width, height) && r !in mask && p < Pages(height) && x < width
    ensures Put(Put(im, width, height, p, x, bits, mask), width, height, p, x, bits * {r}, {r}) == Put(im, width, height, p, x, bits, mask + {r})
  {
    hide Blended;
    var o := im.data[p][x];
    var b1, b2 := Blended(o, bits, mask), Blended(o, bits, mask + {r});
    BlendMerges(o, bits, mask, r);
    if b1 == o {
      assert Put(im, width, height, p, x, bits, mask) == im;
    } else {
      var first := Put(im, width, height, p, x, bits, mask);
      assert first == Marked(Store(im, p, x, b1), p, x) && first.data[p][x] == b1;
      if b2 != b1 {
        assert Marked(Store(first, p, x, b2), p, x) == Marked(Store(im, p, x, b2), p, x) by {
          StoreTwice(im, p, x, b1, b2);
        }
      }
    }
  }

  lemma StoreTwice(im: Image, p: nat, x: nat, b1: Pixels, b2: Pixels)
    requires p < |im.data| && x < |im.data[p]| && |im.minX| == |im.maxX| == MAX_PAGES && p < MAX_PAGES
    ensures Marked(Store(Marked(Store(im, p, x, b1), p, x), p, x, b2), p, x) == Marked(Store(im, p, x, b2), p, x)
  {
    assert im.data[p][x := b1][x := b2] == im.data[p][x := b2];
    assert im.data[p := im.data[p][x := b1]][p := im.data[p][x := b2]] == im.data[p := im.data[p][x := b2]];
  }

  /** The rows of a visible column, one by one, are one write under the rows' mask. */
  lemma {:induction false} ColumnMerges(im: Image, c: Cell, column: nat, rows: nat)
    requires Drawable(im, c) && CanUseAligned(c) && BottomRowDark(c) && ColumnVisible(c, column) && rows <= 8
    ensures GenericColumn(im, c, column, rows) == AlignedColumn(im, c, column, RowMask(c, rows))
  {
    hide Put, Sized;
    var p, x, bits := c.y / 8, c.x + column, CellBits(c, column);
    if rows == 0 {
      NoMask(im, c.width, c.height, p, x, bits);
    } else {
      var r := rows - 1;
      ColumnMerges(im, c, column, r);
      RowMaskIs(c, r, r);
      RowMaskIs(c, 8, r);
      assert (c.y + r) / 8 == p && (c.y + r) % 8 == r;
      if AxisContains(c.y + r, c.clip.y, c.clip.height) {
        PutMerges(im, c.width, c.height, p, x, bits, RowMask(c, r), r);
        assert GlyphBit(c, column, r) <==> r in bits;
        assert bits * {r} == if r in bits then {r} else {};
      } else {
        assert RowMask(c, rows) == RowMask(c, r);
      }
    }
  }

  lemma NoMask(im: Image, width: nat, height: nat, p: nat, x: nat, bits: Pixels)
    requires Sized(im, width, height)
    ensures Put(im, width, height, p, x, bits, {}) == im
  {
    if p < Pages(height) && x < width {
      assert Blended(im.data[p][x], bits, {}) == im.data[p][x];
    }
  }

  lemma {:induction false} InvisibleColumn(im: Image, c: Cell, column: nat, rows: nat)
    requires Drawable(im, c) && !ColumnVisible(c, column)
    ensures GenericColumn(im, c, column, rows) == im
  {
    if rows > 0 {
      InvisibleColumn(im, c, column, rows - 1);
    }
  }

  lemma {:induction false} SamePath(im: Image, c: Cell, columns: nat)
    requires Drawable(im, c) && CanUseAligned(c) && BottomRowDark(c)
    ensures Aligned(im, c, columns) == Generic(im, c, columns)
  {
    hide GenericColumn, AlignedColumn, Sized;
    if columns > 0 {
      SamePath(im, c, columns - 1);
      var before := Generic(im, c, columns - 1);
      if ColumnVisible(c, columns - 1) {
        ColumnMerges(before, c, columns - 1, 8);
      } else {
        InvisibleColumn(before, c, columns - 1, 8);
        InvisibleAligned(before, c, columns - 1);
      }
    }
  }

  lemma InvisibleAligned(im: Image, c: Cell, column: nat)
    requires Drawable(im, c) && CanUseAligned(c) && !ColumnVisible(c, column)
    ensures AlignedColumn(im, c, column, RowMask(c, 8)) == im
  {
  }

  lemma {:induction false} AlignedLights(im: Image, c: Cell, columns: nat, px: int, py: int)
    requires Drawable(im, c) && CanUseAligned(c)
    ensures Lit(Aligned(im, c, columns), c.width, c.height, px, py) <==>
            if && c.x <= px < c.x + columns && c.y <= py < c.y + 8 && 0 <= px < c.width && 0 <= py < c.height
               && c.clip.x <= px < c.clip.x + c.clip.width && c.clip.y <= py < c.clip.y + c.clip.height
            then px - c.x < 5 && py - c.y in c.glyph[px - c.x]
            else Lit(im, c.width, c.height, px, py)
  {
    hide Lit, Put, Sized;
    if columns > 0 {
      AlignedLights(im, c, columns - 1, px, py);
      if ColumnVisible(c, columns - 1) {
        PutLights(Aligned(im, c, columns - 1), c.width, c.height, c.y / 8, c.x + columns - 1, CellBits(c, columns - 1), RowMask(c, 8), px, py);
        if 0 <= py {
          RowMaskIs(c, 8, py % 8);
        }
      }
    }
  }

  /**
   For every framebuffer, clip, x and page-aligned y: both paths leave the same bytes, the same dirty pages and the same
   spans, exactly when no visible bit sits in the glyph's row 7.
   */
  lemma FastPathIsGeneric(im: Image, c: Cell)
    requires Drawable(im, c) && CanUseAligned(c)
    ensures Aligned(im, c, 6) == Generic(im, c, 6) <==> BottomRowDark(c)
  {
    hide Aligned, Generic, RowMask, Sized;
    if BottomRowDark(c) {
      SamePath(im, c, 6);
    } else {
      BrightRowDiffers(im, c, 6);
    }
  }

  lemma BrightRowDiffers(im: Image, c: Cell, columns: nat)
    requires Drawable(im, c) && CanUseAligned(c) && !BottomRowDark(c) && columns >= 5
    ensures Aligned(im, c, columns) != Generic(im, c, columns)
  {
    hide Aligned, Generic, RowMask, Lit, Sized;
    var column :| 0 <= column < 5 && OnScreen(c, c.x + column, c.y + 7) && 7 in c.glyph[column];
    RowMaskIs(c, 8, 7);
    AlignedLights(im, c, columns, c.x + column, c.y + 7);
    GenericLights(im, c, columns, c.x + column, c.y + 7);
  }

  // ----- the loops -----

  predicate Matches(fb: FrameBuffer, c: Cell) {
    c.width == fb.width && c.height == fb.height && |c.glyph| >= c.m.glyphWidth
  }

  /** Bytes of a glyph have eight bits. */
  predicate GlyphInRange(glyph: seq<Pixels>) {
    forall i :: 0 <= i < |glyph| ==> glyph[i] <= ALL_ROWS
  }

  method DrawCellGeneric(fb: FrameBuffer, c: Cell, ghost ram: seq<seq<Pixels>>)
    requires fb.Valid() && Matches(fb, c) && Agrees(fb.View(), ram) && RowsInRange(fb.data)
    modifies fb
    ensures fb.Valid() && fb.View() == Generic(old(fb.View()), c, c.m.advanceX)
    ensures Agrees(fb.View(), ram) && RowsInRange(fb.data)
  {
    hide Sized, Agrees, PixelPut, RowsInRange;
    for column := 0 to c.m.advanceX
      invariant fb.Valid() && fb.View() == Generic(old(fb.View()), c, column)
      invariant Agrees(fb.View(), ram) && RowsInRange(fb.data)
    {
      for row := 0 to c.m.advanceY
        invariant fb.Valid() && Agrees(fb.View(), ram) && RowsInRange(fb.data)
        invariant fb.View() == GenericColumn(Generic(old(fb.View()), c, column), c, column, row)
      {
        var lit := false;
        var px, py := c.x + column, c.y + row;
        if !ClipContains(c.clip, px, py) {
          continue;
        }
        if column < c.m.glyphWidth && row < c.m.glyphHeight && row in c.glyph[column] {
          lit := true;
        }
        PixelPutAgrees(fb.View(), fb.width, fb.height, px, py, lit, ram);
        fb.SetPixel(px, py, lit);
      }
    }
  }

  method DrawCellAligned(fb: FrameBuffer, c: Cell, ghost ram: seq<seq<Pixels>>)
    requires fb.Valid() && Matches(fb, c) && CanUseAligned(c) && GlyphInRange(c.glyph)
    requires Agrees(fb.View(), ram) && RowsInRange(fb.data)
    modifies fb
    ensures fb.Valid() && fb.View() == Aligned(old(fb.View()), c, 6) && Agrees(fb.View(), ram) && RowsInRange(fb.data)
  {
    hide Sized, Agrees, Put, RowsInRange;
    var page := c.y / 8;
    var mask: Pixels := {};
    for row := 0 to 8
      invariant mask == RowMask(c, row)
    {
      var py := c.y + row;
      if AxisContains(py, c.clip.y, c.clip.height) && py >= 0 && py < fb.height {
        mask := mask + {row};
      }
    }
    if mask == {} {
      NothingVisible(fb.View(), c, 6);
      return;
    }
    for column := 0 to 6
      invariant fb.Valid() && fb.View() == Aligned(old(fb.View()), c, column)
      invariant Agrees(fb.View(), ram) && RowsInRange(fb.data)
    {
      var px := c.x + column;
      if px < 0 || px >= fb.width || !AxisContains(px, c.clip.x, c.clip.width) {
        continue;
      }
      var bits := if column < 5 then c.glyph[column] else {};
      PutAgrees(fb.View(), fb.width, fb.height, page, px, bits, mask, ram);
      PutInRange(fb.View(), fb.width, fb.height, page, px, bits, mask);
      var _ := fb.WriteMaskedByte(page, px, bits, mask);
    }
  }

  lemma {:induction false} NothingVisible(im: Image, c: Cell, columns: nat)
    requires Drawable(im, c) && CanUseAligned(c) && RowMask(c, 8) == {}
    ensures Aligned(im, c, columns) == im
  {
    hide Put, Sized;
    if columns > 0 {
      NothingVisible(im, c, columns - 1);
      if ColumnVisible(c, columns - 1) {
        NoMask(im, c.width, c.height, c.y / 8, c.x + columns - 1, CellBits(c, columns - 1));
      }
    }
  }

  /** `text_renderer_draw_cell`: whichever path is taken, the result is the generic one. The font keeps row 7 dark. */
  method DrawCell(fb: FrameBuffer, c: Cell, ghost ram: seq<seq<Pixels>>)
    requires fb.Valid() && Matches(fb, c) && GlyphInRange(c.glyph) && Agrees(fb.View(), ram) && RowsInRange(fb.data)
    requires c.m == FIVE_BY_SEVEN && forall i :: 0 <= i < 5 ==> 7 !in c.glyph[i]
    modifies fb
    ensures fb.Valid() && Agrees(fb.View(), ram) && RowsInRange(fb.data)
    ensures fb.View() == if c.clip.width > 0 && c.clip.height > 0 then Generic(old(fb.View()), c, 6) else old(fb.View())
  {
    hide Aligned, Generic, Sized, Agrees, RowsInRange, RowMask;
    if c.clip.width <= 0 || c.clip.height <= 0 {
      return;
    }
    if CanUseAligned(c) {
      FastPathIsGeneric(fb.View(), c);
      DrawCellAligned(fb, c, ram);
    } else {
      DrawCellGeneric(fb, c, ram);
    }
  }
}
