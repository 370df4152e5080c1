/**
 The monochrome framebuffer: eight rows per page, one byte per column of a page, and for every page the span of columns
 that may differ from what the panel shows. A byte is the set of its lit rows.
 */
module MonoFb {

  type Pixels = set<nat>

  const MAX_PAGES: nat := 8
  const SPAN_CLEAN: nat := 0xFFFF
  const ALL_ROWS: Pixels := {0, 1, 2, 3, 4, 5, 6, 7}

  datatype Image = Image(data: seq<seq<Pixels>>, dirty: set<nat>, minX: seq<nat>, maxX: seq<nat>)

  function Pages(height: nat): nat {
    (height + 7) / 8
  }

  /** `mono_fb_valid`, and spans that make sense: clean pages carry the reset values. */
  predicate Sized(im: Image, width: nat, height: nat) {
    && 0 < width <= 0xFFFF && 0 < height && Pages(height) <= MAX_PAGES
    && |im.data| == Pages(height) && (forall p :: 0 <= p < |im.data| ==> |im.data[p]| == width)
    && |im.minX| == |im.maxX| == MAX_PAGES
    && (forall p :: p in im.dirty ==> p < Pages(height))
    && forall p :: 0 <= p < MAX_PAGES ==>
         if p in im.dirty then im.minX[p] <= im.maxX[p] < width else im.minX[p] == SPAN_CLEAN && im.maxX[p] == 0
  }

  predicate InSpan(im: Image, p: nat, x: nat)
    requires |im.minX| == |im.maxX| == MAX_PAGES && p < MAX_PAGES
  {
    p in im.dirty && im.minX[p] <= x <= im.maxX[p]
  }

  /** The page's span, stretched to the column. */
  function Marked(im: Image, p: nat, x: nat): Image
    requires |im.minX| == |im.maxX| == MAX_PAGES && p < MAX_PAGES
  {
    if p !in im.dirty then im.(dirty := im.dirty + {p}, minX := im.minX[p := x], maxX := im.maxX[p := x])
    else im.(minX := if x < im.minX[p] then im.minX[p := x] else im.minX, maxX := if x > im.maxX[p] then im.maxX[p := x] else im.maxX)
  }

  function Blended(was: Pixels, value: Pixels, mask: Pixels): Pixels {
    (was - mask) + (value * mask)
  }

  function Store(im: Image, p: nat, x: nat, b: Pixels): Image
    requires p < |im.data| && x < |im.data[p]|
  {
    im.(data := im.data[p := im.data[p][x := b]])
  }

  /** A masked byte write: only a change is stored, and a change is always marked. */
  function Put(im: Image, width: nat, height: nat, p: nat, x: nat, value: Pixels, mask: Pixels): (r: Image)
    requires Sized(im, width, height)
    ensures Sized(r, width, height)
  {
    if p >= Pages(height) || x >= width || Blended(im.data[p][x], value, mask) == im.data[p][x] then im
    else Marked(Store(im, p, x, Blended(im.data[p][x], value, mask)), p, x)
  }

  function PixelPut(im: Image, width: nat, height: nat, x: int, y: int, lit: bool): (r: Image)
    requires Sized(im, width, height)
    ensures Sized(r, width, height)
  {
    if x < 0 || y < 0 || x >= width || y >= height then im
    else Put(im, width, height, y / 8, x, if lit then {y % 8} else {}, {y % 8})
  }

  /** What a pixel shows; nothing outside the screen. */
  predicate Lit(im: Image, width: nat, height: nat, x: int, y: int)
    requires Sized(im, width, height)
  {
    0 <= x < width && 0 <= y < height && y % 8 in im.data[y / 8][x]
  }

  lemma PixelPutLights(im: Image, width: nat, height: nat, x: int, y: int, lit: bool, px: int, py: int)
    requires Sized(im, width, height)
    ensures Lit(PixelPut(im, width, height, x, y, lit), width, height, px, py) <==>
            if px == x && py == y && 0 <= x < width && 0 <= y < height then lit else Lit(im, width, height, px, py)
  {
  }

  lemma PutLights(im: Image, width: nat, height: nat, p: nat, x: nat, value: Pixels, mask: Pixels, px: int, py: int)
    requires Sized(im, width, height)
    ensures Lit(Put(im, width, height, p, x, value, mask), width, height, px, py) <==>
            if px == x && 0 <= x < width && 0 <= py < height && py / 8 == p && py % 8 in mask then py % 8 in value else Lit(im, width, height, px, py)
  {
  }

  // ----- what the panel may show -----

  /** Every byte the panel shows differently lies in its page's dirty span. */
  predicate Agrees(im: Image, ram: seq<seq<Pixels>>) {
    && |im.minX| == |im.maxX| == MAX_PAGES
    && |ram| == |im.data| <= MAX_PAGES
    && (forall p :: 0 <= p < |ram| ==> |ram[p]| == |im.data[p]|)
    && forall p, x :: 0 <= p < |ram| && 0 <= x < |ram[p]| && ram[p][x] != im.data[p][x] ==> InSpan(im, p, x)
  }

  lemma PutAgrees(im: Image, width: nat, height: nat, p: nat, x: nat, value: Pixels, mask: Pixels, ram: seq<seq<Pixels>>)
    requires Sized(im, width, height) && Agrees(im, ram)
    ensures Agrees(Put(im, width, height, p, x, value, mask), ram)
  {
  }

  lemma PixelPutAgrees(im: Image, width: nat, height: nat, x: int, y: int, lit: bool, ram: seq<seq<Pixels>>)
    requires Sized(im, width, height) && Agrees(im, ram)
    ensures Agrees(PixelPut(im, width, height, x, y, lit), ram)
    ensures RowsInRange(im.data) ==> RowsInRange(PixelPut(im, width, height, x, y, lit).data)
  {
    hide Put, Agrees, Sized;
    if 0 <= x < width && 0 <= y < height {
      PutAgrees(im, width, height, y / 8, x, if lit then {y % 8} else {}, {y % 8}, ram);
      PutInRange(im, width, height, y / 8, x, if lit then {y % 8} else {}, {y % 8});
    }
  }

  lemma PutInRange(im: Image, width: nat, height: nat, p: nat, x: nat, value: Pixels, mask: Pixels)
    requires Sized(im, width, height) && value <= ALL_ROWS
    ensures RowsInRange(im.data) ==> RowsInRange(Put(im, width, height, p, x, value, mask).data)
  {
  }

  class FrameBuffer {
    const width: nat
    const height: nat
    var data: seq<seq<Pixels>>
    var dirty: set<nat>
    var minX: seq<nat>
    var maxX: seq<nat>

    function View(): Image
      reads this
    {
      Image(data, dirty, minX, maxX)
    }

    ghost predicate Valid()
      reads this
    {
      Sized(View(), width, height)
    }

    constructor (storage: seq<seq<Pixels>>, width: nat, height: nat)
      requires 0 < width <= 0xFFFF && 0 < height && Pages(height) <= MAX_PAGES
      requires |storage| == Pages(height) && forall p :: 0 <= p < |storage| ==> |storage[p]| == width
      ensures Valid() && data == storage && dirty == {} && this.width == width && this.height == height
    {
      this.width, this.height, data, dirty := width, height, storage, {};
      minX, maxX := seq(MAX_PAGES, _ => SPAN_CLEAN), seq(MAX_PAGES, _ => 0);
    }

    method MarkPageX(p: nat, x: nat)
      requires |minX| == |maxX| == MAX_PAGES && p < MAX_PAGES && x < width
      modifies this`dirty, this`minX, this`maxX
      ensures View() == Marked(old(View()), p, x)
    {
      if p !in dirty {
        minX, maxX, dirty := minX[p := x], maxX[p := x], dirty + {p};
        return;
      }
      if x < minX[p] {
        minX := minX[p := x];
      }
      if x > maxX[p] {
        maxX := maxX[p := x];
      }
    }

    method WriteMaskedByte(p: nat, x: nat, value: Pixels, mask: Pixels) returns (changed: bool)
      requires Valid()
      modifies this
      ensures Valid() && View() == Put(old(View()), width, height, p, x, value, mask)
      ensures changed <==> data != old(data)
    {
      if p >= Pages(height) || x >= width || mask == {} {
        return false;
      }
      var was := data[p][x];
      var now := (was - mask) + (value * mask);
      if now == was {
        return false;
      }
      data := data[p := data[p][x := now]];
      assert data[p][x] != old(data)[p][x];
      MarkPageX(p, x);
      return true;
    }

    method SetPixel(x: int, y: int, lit: bool)
      requires Valid()
      modifies this
      ensures Valid() && View() == PixelPut(old(View()), width, height, x, y, lit)
    {
      if x < 0 || y < 0 || x >= width || y >= height {
        return;
      }
      if lit {
        var _ := WriteMaskedByte(y / 8, x, {y % 8}, {y % 8});
      } else {
        var _ := WriteMaskedByte(y / 8, x, {}, {y % 8});
      }
    }

    method HLine(x: int, y: int, length: int, lit: bool, ghost ram: seq<seq<Pixels>>)
      requires Valid() && Agrees(View(), ram) && RowsInRange(data)
      modifies this
      ensures Valid() && Agrees(View(), ram) && RowsInRange(data)
      ensures forall px: int, py: int ::
                Lit(View(), width, height, px, py) <==>
                if x <= px < x + length && py == y && 0 <= px < width && 0 <= py < height then lit else Lit(old(View()), width, height, px, py)
    {
      hide PixelPut, Lit, Sized, Agrees, RowsInRange;
      if length <= 0 {
        return;
      }
      for i := 0 to length
        invariant Valid() && Agrees(View(), ram) && RowsInRange(data)
        invariant forall px: int, py: int ::
                    Lit(View(), width, height, px, py) <==>
                    if x <= px < x + i && py == y && 0 <= px < width && 0 <= py < height then lit else Lit(old(View()), width, height, px, py)
      {
        ghost var before := View();
        PixelPutAgrees(before, width, height, x + i, y, lit, ram);
        SetPixel(x + i, y, lit);
        forall px: int, py: int
          ensures Lit(View(), width, height, px, py) <==>
                  if px == x + i && py == y && 0 <= px < width && 0 <= py < height then lit else Lit(before, width, height, px, py)
        {
          PixelPutLights(before, width, height, x + i, y, lit, px, py);
        }
      }
    }

    method VLine(x: int, y: int, length: int, lit: bool, ghost ram: seq<seq<Pixels>>)
      requires Valid() && Agrees(View(), ram) && RowsInRange(data)
      modifies this
      ensures Valid() && Agrees(View(), ram) && RowsInRange(data)
      ensures forall px: int, py: int ::
                Lit(View(), width, height, px, py) <==>
                if px == x && y <= py < y + length && 0 <= px < width && 0 <= py < height then lit else Lit(old(View()), width, height, px, py)
    {
      hide PixelPut, Lit, Sized, Agrees, RowsInRange;
      if length <= 0 {
        return;
      }
      for i := 0 to length
        invariant Valid() && Agrees(View(), ram) && RowsInRange(data)
        invariant forall px: int, py: int ::
                    Lit(View(), width, height, px, py) <==>
                    if px == x && y <= py < y + i && 0 <= px < width && 0 <= py < height then lit else Lit(old(View()), width, height, px, py)
      {
        ghost var before := View();
        PixelPutAgrees(before, width, height, x, y + i, lit, ram);
        SetPixel(x, y + i, lit);
        forall px: int, py: int
          ensures Lit(View(), width, height, px, py) <==>
                  if px == x && py == y + i && 0 <= px < width && 0 <= py < height then lit else Lit(before, width, height, px, py)
        {
          PixelPutLights(before, width, height, x, y + i, lit, px, py);
        }
      }
    }

    /** Four lines; the edges of the rectangle, and only they. */
    method Rectangle(x: int, y: int, w: int, h: int, lit: bool, ghost ram: seq<seq<Pixels>>)
      requires Valid() && Agrees(View(), ram) && RowsInRange(data)
      modifies this
      ensures Valid() && Agrees(View(), ram) && RowsInRange(data)
      ensures forall px: int, py: int ::
                Lit(View(), width, height, px, py) <==>
                if x <= px < x + w && y <= py < y + h && (px == x || px == x + w - 1 || py == y || py == y + h - 1)
                   && 0 <= px < width && 0 <= py < height then lit
                else Lit(old(View()), width, height, px, py)
    {
      hide Lit, Sized, Agrees, RowsInRange;
      if w <= 0 || h <= 0 {
        return;
      }
      HLine(x, y, w, lit, ram);
      HLine(x, y + h - 1, w, lit, ram);
      VLine(x, y, h, lit, ram);
      VLine(x + w - 1, y, h, lit, ram);
    }

    method MarkAllDirty()
      requires Valid()
      modifies this`dirty, this`minX, this`maxX
      ensures Valid() && forall p, x :: 0 <= p < Pages(height) && 0 <= x < width ==> InSpan(View(), p, x)
    {
      var pages := Pages(height);
      dirty := {};
      for p := 0 to MAX_PAGES
        invariant |minX| == |maxX| == MAX_PAGES && forall q :: q in dirty <==> 0 <= q < p && q < pages
        invariant forall q :: 0 <= q < p ==> if q < pages then minX[q] == 0 && maxX[q] == width - 1 else minX[q] == SPAN_CLEAN && maxX[q] == 0
      {
        if p < pages {
          dirty, minX, maxX := dirty + {p}, minX[p := 0], maxX[p := width - 1];
        } else {
          minX, maxX := minX[p := SPAN_CLEAN], maxX[p := 0];
        }
      }
    }

    method ClearDirty(p: nat)
      requires Valid() && p < MAX_PAGES
      modifies this`dirty, this`minX, this`maxX
      ensures Valid() && dirty == old(dirty) - {p}
      ensures forall q :: 0 <= q < MAX_PAGES && q != p ==> minX[q] == old(minX)[q] && maxX[q] == old(maxX)[q]
    {
      dirty, minX, maxX := dirty - {p}, minX[p := SPAN_CLEAN], maxX[p := 0];
    }

    /** Blanks every byte; bytes already blank are not touched. The panel stays as covered by the spans as it was. */
    method Clear(ghost ram: seq<seq<Pixels>>)
      requires Valid() && Agrees(View(), ram) && RowsInRange(data)
      modifies this
      ensures Valid() && Agrees(View(), ram) && RowsInRange(data)
      ensures forall p, x :: 0 <= p < Pages(height) && 0 <= x < width ==> data[p][x] == {}
    {
      hide Put;
      for p := 0 to Pages(height)
        invariant Valid() && Agrees(View(), ram) && RowsInRange(data)
        invariant forall q, x :: 0 <= q < p && 0 <= x < width ==> data[q][x] == {}
      {
        for x := 0 to width
          invariant Valid() && Agrees(View(), ram) && RowsInRange(data)
          invariant forall q, z :: 0 <= q < p && 0 <= z < width ==> data[q][z] == {}
          invariant forall z :: 0 <= z < x ==> data[p][z] == {}
        {
          PutAgrees(View(), width, height, p, x, {}, ALL_ROWS, ram);
          PutBlank(View(), width, height, p, x);
          var _ := WriteMaskedByte(p, x, {}, ALL_ROWS);
        }
      }
    }
  }

  /** Bytes have eight bits. */
  predicate RowsInRange(data: seq<seq<Pixels>>) {
    forall p, x :: 0 <= p < |data| && 0 <= x < |data[p]| ==> data[p][x] <= ALL_ROWS
  }

  lemma PutBlank(im: Image, width: nat, height: nat, p: nat, x: nat)
    requires Sized(im, width, height) && p < Pages(height) && x < width && RowsInRange(im.data)
    ensures var r := Put(im, width, height, p, x, {}, ALL_ROWS);
            r.data == im.data[p := im.data[p][x := {}]] && RowsInRange(r.data)
  {
    var b := Blended(im.data[p][x], {}, ALL_ROWS);
    assert b == {};
    if b == im.data[p][x] {
      assert im.data[p][x := {}] == im.data[p];
    }
  }
}
