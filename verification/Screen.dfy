/** Any drawing and presenting, in any order, over a bus that fails at will. */
module Screen {
  import opened MonoFb
  import opened Display
  import opened TextRenderer

  datatype Op =
    | Pixel(x: int, y: int, lit: bool) | Row(x: int, y: int, length: int, lit: bool) | Pillar(x: int, y: int, length: int, lit: bool)
    | Frame(x: int, y: int, w: int, h: int, lit: bool) | Blank | Glyph(clip: Rect, x: int, y: int, glyph: seq<Pixels>)
    | Invalidate | Show(outcomes: seq<Outcome>)

  /** Glyphs come from the 5x7 font: five columns of eight bits with the last row dark. */
  predicate FromFont(op: Op) {
    op.Glyph? ==> |op.glyph| == 5 && GlyphInRange(op.glyph) && forall i :: 0 <= i < 5 ==> 7 !in op.glyph[i]
  }

  // ----- the picture -----

  predicate OnPanel(px: int, py: int) {
    0 <= px < WIDTH && 0 <= py < HEIGHT
  }

  /** A dot in the memory of framebuffer or panel: pages of eight rows, a byte per column. */
  predicate Dot(ram: seq<seq<Pixels>>, px: int, py: int)
    requires RamSized(ram) && OnPanel(px, py)
  {
    py % 8 in ram[py / 8][px]
  }

  /** What an operation makes of a pixel. */
  predicate Shines(op: Op, was: bool, px: int, py: int)
    requires FromFont(op)
  {
    match op
    case Pixel(x, y, lit) => if px == x && py == y then lit else was
    case Row(x, y, length, lit) => if py == y && x <= px < x + length then lit else was
    case Pillar(x, y, length, lit) => if px == x && y <= py < y + length then lit else was
    case Frame(x, y, w, h, lit) =>
      if x <= px < x + w && y <= py < y + h && (px == x || px == x + w - 1 || py == y || py == y + h - 1) then lit else was
    case Blank => false
    case Glyph(clip, x, y, glyph) =>
      if && x <= px < x + 6 && y <= py < y + 8
         && clip.x <= px < clip.x + clip.width && clip.y <= py < clip.y + clip.height
      then px - x < 5 && py - y < 7 && py - y in glyph[px - x] else was
    case Invalidate => was
    case Show(_) => was
  }

  /** The picture after some operations, starting from what the storage held. */
  predicate Picture(storage: seq<seq<Pixels>>, ops: seq<Op>, px: int, py: int)
    requires RamSized(storage) && OnPanel(px, py) && forall i :: 0 <= i < |ops| ==> FromFont(ops[i])
  {
    if ops == [] then Dot(storage, px, py)
    else Shines(ops[|ops| - 1], Picture(storage, ops[..|ops| - 1], px, py), px, py)
  }

  datatype Shown = Shown(ok: bool, panel: seq<seq<Pixels>>, dirty: bool)

  /** The memory shows the picture. */
  ghost predicate Pictures(ram: seq<seq<Pixels>>, storage: seq<seq<Pixels>>, ops: seq<Op>)
    requires RamSized(storage) && forall i :: 0 <= i < |ops| ==> FromFont(ops[i])
  {
    RamSized(ram) && forall px: int, py: int :: OnPanel(px, py) ==> (Dot(ram, px, py) <==> Picture(storage, ops, px, py))
  }

  /**
   The panel starts with anything on it and the framebuffer starts all dirty. After every successful present the panel
   shows exactly the picture drawn so far, dot for dot, and nothing is dirty; after every failed one something is still
   dirty and another try can succeed.
   */
  method Session(ram: seq<seq<Pixels>>, storage: seq<seq<Pixels>>, ops: seq<Op>) returns (shows: seq<Shown>)
    requires RamSized(ram) && RamSized(storage) && RowsInRange(storage) && forall i :: 0 <= i < |ops| ==> FromFont(ops[i])
    ensures |shows| == |ops|
    ensures forall i :: 0 <= i < |ops| && ops[i].Show? && shows[i].ok ==> Pictures(shows[i].panel, storage, ops[..i]) && !shows[i].dirty
    ensures forall i :: 0 <= i < |ops| && ops[i].Show? && !shows[i].ok ==> shows[i].dirty
    ensures forall i :: 0 <= i < |ops| && ops[i].Show? && Healthy(ops[i].outcomes) ==> shows[i].ok
  {
    hide Agrees, Sized, RowsInRange, Generic, Lit, Pictures, Dot, Shines;
    var panel := new Panel(ram, []);
    var fb := StartDirty(ram, storage);
    shows := [];
    FirstPicture(storage);
    assert ops[..0] == [];
    for i := 0 to |ops|
      invariant Consistent(fb, panel) && |shows| == i && fresh(fb) && fresh(panel) && Pictures(fb.data, storage, ops[..i])
      invariant forall j :: 0 <= j < i && ops[j].Show? && shows[j].ok ==> Pictures(shows[j].panel, storage, ops[..j]) && !shows[j].dirty
      invariant forall j :: 0 <= j < i && ops[j].Show? && !shows[j].ok ==> shows[j].dirty
      invariant forall j :: 0 <= j < i && ops[j].Show? && Healthy(ops[j].outcomes) ==> shows[j].ok
    {
      var ok := true;
      ghost var before := fb.data;
      if ops[i].Show? {
        panel.outcomes := ops[i].outcomes;
        ok := Present(fb, panel);
        Showing(before, ops[i]);
      } else {
        Draw(fb, panel, ops[i]);
      }
      NextPicture(before, fb.data, storage, ops, i);
      shows := shows + [Shown(ok, panel.ram, fb.dirty != {})];
    }
  }

  lemma FirstPicture(storage: seq<seq<Pixels>>)
    requires RamSized(storage)
    ensures Pictures(storage, storage, [])
  {
    hide Dot;
  }

  /** The memory after an operation, dot for dot. */
  ghost predicate Drawn(before: seq<seq<Pixels>>, after: seq<seq<Pixels>>, op: Op)
    requires FromFont(op)
  {
    && RamSized(before) && RamSized(after)
    && forall px: int, py: int :: OnPanel(px, py) ==> (Dot(after, px, py) <==> Shines(op, Dot(before, px, py), px, py))
  }

  lemma Showing(ram: seq<seq<Pixels>>, op: Op)
    requires RamSized(ram) && op.Show?
    ensures Drawn(ram, ram, op)
  {
    hide Dot;
  }

  lemma NextPicture(before: seq<seq<Pixels>>, after: seq<seq<Pixels>>, storage: seq<seq<Pixels>>, ops: seq<Op>, i: nat)
    requires RamSized(storage) && i < |ops| && forall k :: 0 <= k < |ops| ==> FromFont(ops[k])
    requires Pictures(before, storage, ops[..i]) && Drawn(before, after, ops[i])
    ensures Pictures(after, storage, ops[..i + 1])
  {
    hide Dot, Shines;
    assert ops[..i + 1][..i] == ops[..i];
  }

  /** Framebuffer and panel fit together: every difference between them is inside a dirty span. */
  ghost predicate Consistent(fb: FrameBuffer, panel: Panel)
    reads fb, panel
  {
    && fb.width == WIDTH && fb.height == HEIGHT && fb.Valid() && RamSized(panel.ram)
    && RowsInRange(fb.data) && Agrees(fb.View(), panel.ram)
  }

  method StartDirty(ghost ram: seq<seq<Pixels>>, storage: seq<seq<Pixels>>) returns (fb: FrameBuffer)
    requires RamSized(ram) && RamSized(storage) && RowsInRange(storage)
    ensures fresh(fb) && fb.width == WIDTH && fb.height == HEIGHT
    ensures fb.Valid() && RowsInRange(fb.data) && Agrees(fb.View(), ram) && fb.data == storage
  {
    hide RowsInRange;
    fb := new FrameBuffer(storage, WIDTH, HEIGHT);
    fb.MarkAllDirty();
  }

  method Draw(fb: FrameBuffer, panel: Panel, op: Op)
    requires Consistent(fb, panel) && FromFont(op) && !op.Show?
    modifies fb
    ensures Consistent(fb, panel) && Drawn(old(fb.data), fb.data, op)
  {
    hide Agrees, RowsInRange, Generic, Lit, PixelPut, Dot;
    ghost var before := fb.View();
    match op {
      case Pixel(x, y, lit) =>
        PixelPutAgrees(fb.View(), fb.width, fb.height, x, y, lit, panel.ram);
        fb.SetPixel(x, y, lit);
        PixelIsDrawn(before, x, y, lit);
      case Row(x, y, length, lit) => fb.HLine(x, y, length, lit, panel.ram);
      case Pillar(x, y, length, lit) => fb.VLine(x, y, length, lit, panel.ram);
      case Frame(x, y, w, h, lit) => fb.Rectangle(x, y, w, h, lit, panel.ram);
      case Blank =>
        fb.Clear(panel.ram);
        BlankIsDark(fb.View());
      case Glyph(clip, x, y, glyph) =>
        var c := Cell(fb.width, fb.height, clip, x, y, glyph, FIVE_BY_SEVEN);
        DrawCell(fb, c, panel.ram);
        GlyphIsDrawn(before, c);
      case Invalidate =>
        fb.MarkAllDirty();
        AllDirtyAgrees(fb.View(), fb.width, fb.height, panel.ram);
    }
    DotsAreLit(before);
    DotsAreLit(fb.View());
  }

  lemma DotsAreLit(im: Image)
    requires Sized(im, WIDTH, HEIGHT)
    ensures RamSized(im.data)
    ensures forall px: int, py: int :: OnPanel(px, py) ==> (Dot(im.data, px, py) <==> Lit(im, WIDTH, HEIGHT, px, py))
  {
  }

  lemma PixelIsDrawn(im: Image, x: int, y: int, lit: bool)
    requires Sized(im, WIDTH, HEIGHT)
    ensures forall px: int, py: int ::
              Lit(PixelPut(im, WIDTH, HEIGHT, x, y, lit), WIDTH, HEIGHT, px, py) <==>
              if px == x && py == y && OnPanel(px, py) then lit else Lit(im, WIDTH, HEIGHT, px, py)
  {
    hide Lit, PixelPut, Sized;
    forall px: int, py: int
      ensures Lit(PixelPut(im, WIDTH, HEIGHT, x, y, lit), WIDTH, HEIGHT, px, py) <==>
              if px == x && py == y && OnPanel(px, py) then lit else Lit(im, WIDTH, HEIGHT, px, py)
    {
      PixelPutLights(im, WIDTH, HEIGHT, x, y, lit, px, py);
    }
  }

  lemma BlankIsDark(im: Image)
    requires Sized(im, WIDTH, HEIGHT) && forall p, x :: 0 <= p < Pages(HEIGHT) && 0 <= x < WIDTH ==> im.data[p][x] == {}
    ensures forall px: int, py: int :: !Lit(im, WIDTH, HEIGHT, px, py)
  {
  }

  lemma GlyphIsDrawn(im: Image, c: Cell)
    requires Drawable(im, c) && c.width == WIDTH && c.height == HEIGHT && c.m == FIVE_BY_SEVEN && |c.glyph| == 5
    ensures forall px: int, py: int ::
              Lit(Generic(im, c, 6), WIDTH, HEIGHT, px, py) <==>
              if && c.x <= px < c.x + 6 && c.y <= py < c.y + 8 && OnPanel(px, py)
                 && c.clip.x <= px < c.clip.x + c.clip.width && c.clip.y <= py < c.clip.y + c.clip.height
              then px - c.x < 5 && py - c.y < 7 && py - c.y in c.glyph[px - c.x] else Lit(im, WIDTH, HEIGHT, px, py)
  {
    hide Lit, Generic, Sized;
    forall px: int, py: int
      ensures Lit(Generic(im, c, 6), WIDTH, HEIGHT, px, py) <==>
              if && c.x <= px < c.x + 6 && c.y <= py < c.y + 8 && OnPanel(px, py)
                 && c.clip.x <= px < c.clip.x + c.clip.width && c.clip.y <= py < c.clip.y + c.clip.height
              then px - c.x < 5 && py - c.y < 7 && py - c.y in c.glyph[px - c.x] else Lit(im, WIDTH, HEIGHT, px, py)
    {
      GenericLights(im, c, 6, px, py);
    }
  }

  lemma AllDirtyAgrees(im: Image, width: nat, height: nat, ram: seq<seq<Pixels>>)
    requires Sized(im, width, height) && |ram| == |im.data| && (forall p :: 0 <= p < |ram| ==> |ram[p]| == width)
    requires forall p, x :: 0 <= p < Pages(height) && 0 <= x < width ==> InSpan(im, p, x)
    ensures Agrees(im, ram)
  {
  }
}
