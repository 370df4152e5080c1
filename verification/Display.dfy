/**
 Presenting the framebuffer on the panel over a bus on which any write may fail. The framebuffer's dirty spans are a
 cache of what the panel shows: they always cover every difference.
 */
module Display {
  import opened MonoFb

  const WIDTH: nat := 128
  const HEIGHT: nat := 32
  const PAGES: nat := 4
  const CHUNK: nat := 16

  /** What becomes of a bus write: it arrives, or it fails after some bytes and leaves the window anywhere. */
  datatype Outcome = Arrives | Fails(bytes: nat, page: nat, x0: nat, x1: nat, column: nat)

  predicate Healthy(outcomes: seq<Outcome>) {
    forall o :: o in outcomes ==> o.Arrives?
  }

  predicate RamSized(ram: seq<seq<Pixels>>) {
    |ram| == PAGES && forall p :: 0 <= p < PAGES ==> |ram[p]| == WIDTH
  }

  /** The page after bytes arrived from a column on. */
  function Poured(page: seq<Pixels>, x: nat, bytes: seq<Pixels>): (r: seq<Pixels>)
    requires x + |bytes| <= |page|
    ensures |r| == |page|
    ensures forall i :: 0 <= i < |page| ==> r[i] == if x <= i < x + |bytes| then bytes[i - x] else page[i]
  {
    page[..x] + bytes + page[x + |bytes|..]
  }

  lemma PouredNone(page: seq<Pixels>, x: nat, bytes: seq<Pixels>)
    requires x <= |page|
    ensures Poured(page, x, bytes[..0]) == page
  {
  }

  lemma PouredMore(page: seq<Pixels>, x: nat, bytes: seq<Pixels>, i: nat)
    requires i < |bytes| && x + |bytes| <= |page|
    ensures Poured(page, x, bytes[..i])[x + i := bytes[i]] == Poured(page, x, bytes[..i + 1])
  {
  }

  class Panel {
    var ram: seq<seq<Pixels>>
    var page: nat
    var x0: nat
    var x1: nat
    var column: nat
    var outcomes: seq<Outcome>

    constructor (ram: seq<seq<Pixels>>, outcomes: seq<Outcome>)
      requires RamSized(ram)
      ensures this.ram == ram && this.outcomes == outcomes
    {
      this.ram, this.outcomes, page, x0, x1, column := ram, outcomes, 0, 0, 0, 0;
    }

    /** One write on the bus. */
    method Bus() returns (outcome: Outcome)
      modifies this`outcomes
      ensures outcome.Fails? ==> old(outcomes) != [] && outcome == old(outcomes)[0]
      ensures Healthy(old(outcomes)) ==> outcome.Arrives? && Healthy(outcomes)
    {
      if outcomes == [] {
        return Arrives;
      }
      outcome, outcomes := outcomes[0], outcomes[1..];
    }

    method SetWindow(p: nat, from: nat, to: nat) returns (ok: bool)
      requires p < PAGES && from <= to < WIDTH
      modifies this`page, this`x0, this`x1, this`column, this`outcomes
      ensures ok ==> page == p && x0 == column == from && x1 == to
      ensures Healthy(old(outcomes)) ==> ok && Healthy(outcomes)
    {
      var outcome := Bus();
      if outcome.Arrives? {
        page, x0, x1, column := p, from, to, from;
        return true;
      }
      page, x0, x1, column := outcome.page, outcome.x0, outcome.x1, outcome.column;
      return false;
    }

    /** Data bytes fill the window column by column; after the last column the panel starts over. */
    method Data(bytes: seq<Pixels>) returns (ok: bool)
      requires RamSized(ram) && page < PAGES && x0 <= column <= x1 < WIDTH && column + |bytes| <= x1 + 1
      modifies this
      ensures RamSized(ram) && exists k :: 0 <= k <= |bytes| && ram == old(ram)[old(page) := Poured(old(ram)[old(page)], old(column), bytes[..k])]
      ensures ok ==> page == old(page) && x0 == old(x0) && x1 == old(x1)
      ensures ok ==> ram == old(ram)[page := Poured(old(ram)[page], old(column), bytes)]
      ensures ok ==> column == if old(column) + |bytes| <= x1 then old(column) + |bytes| else x0
      ensures Healthy(old(outcomes)) ==> ok && Healthy(outcomes)
    {
      hide Poured;
      var outcome := Bus();
      ok := outcome.Arrives?;
      var count := if ok || outcome.bytes > |bytes| then |bytes| else outcome.bytes;
      ghost var start, before := column, ram;
      assert bytes[..|bytes|] == bytes;
      PouredNone(before[page], start, bytes);
      for i := 0 to count
        modifies this`ram, this`column
        invariant RamSized(ram)
        invariant ram == before[page := Poured(before[page], start, bytes[..i])]
        invariant column == if start + i <= x1 then start + i else x0
      {
        PouredMore(before[page], start, bytes, i);
        ram := ram[page := ram[page][column := bytes[i]]];
        column := if column == x1 then x0 else column + 1;
      }
      if !ok {
        page, x0, x1, column := outcome.page, outcome.x0, outcome.x1, outcome.column;
      }
    }
  }

  /** Whatever is written inside a dirty span leaves the cache right. */
  lemma InsideSpanAgrees(im: Image, ram: seq<seq<Pixels>>, p: nat, page: seq<Pixels>)
    requires Agrees(im, ram) && p < |ram| && |page| == |ram[p]|
    requires forall x :: 0 <= x < |page| && page[x] != ram[p][x] ==> InSpan(im, p, x)
    ensures Agrees(im, ram[p := page])
  {
    var ram' := ram[p := page];
    forall q, x | 0 <= q < |ram'| && 0 <= x < |ram'[q]| && ram'[q][x] != im.data[q][x] ensures InSpan(im, q, x) {
      if q == p && page[x] == ram[p][x] {
        assert ram[q][x] != im.data[q][x];
      } else if q != p {
        assert ram[q][x] != im.data[q][x];
      }
    }
  }

  /** Sends one page's span, in chunks. */
  method SendSpan(fb: FrameBuffer, panel: Panel, p: nat) returns (ok: bool)
    requires fb.Valid() && fb.width == WIDTH && fb.height == HEIGHT
    requires RamSized(panel.ram) && Agrees(fb.View(), panel.ram)
    requires p < PAGES && p in fb.dirty
    modifies panel
    ensures RamSized(panel.ram) && Agrees(fb.View(), panel.ram)
    ensures ok ==> panel.ram[p] == fb.data[p] && forall q :: 0 <= q < PAGES && q != p ==> panel.ram[q] == old(panel.ram)[q]
    ensures Healthy(old(panel.outcomes)) ==> ok && Healthy(panel.outcomes)
  {
    hide Sized, Agrees;
    SpanInRange(fb, p);
    var x0, x1 := fb.minX[p], fb.maxX[p];
    ok := panel.SetWindow(p, x0, x1);
    if !ok {
      return;
    }
    ghost var before := panel.ram;
    var offset := x0;
    while offset <= x1
      invariant x0 <= offset <= x1 + 1 && RamSized(panel.ram) && Agrees(fb.View(), panel.ram)
      invariant offset <= x1 ==> panel.page == p && panel.x0 == x0 && panel.x1 == x1 && panel.column == offset
      invariant panel.ram == before[p := panel.ram[p]]
      invariant forall x :: 0 <= x < WIDTH ==> panel.ram[p][x] == if x0 <= x < offset then fb.data[p][x] else before[p][x]
      invariant Healthy(old(panel.outcomes)) ==> Healthy(panel.outcomes)
      decreases x1 + 1 - offset
    {
      var remaining := x1 - offset + 1;
      var chunk := if remaining > CHUNK then CHUNK else remaining;
      ok := SendChunk(fb, panel, p, offset, chunk);
      if !ok {
        return;
      }
      offset := offset + chunk;
    }
    CoveredPage(fb.View(), before, p, panel.ram[p]);
    ok := true;
  }

  /** One packet of a span; a packet that breaks off may still have left some of its bytes. */
  method SendChunk(fb: FrameBuffer, panel: Panel, p: nat, offset: nat, chunk: nat) returns (ok: bool)
    requires |fb.minX| == |fb.maxX| == MAX_PAGES && RamSized(panel.ram)
    requires Agrees(fb.View(), panel.ram) && p < PAGES && p in fb.dirty
    requires panel.page == p && fb.minX[p] == panel.x0 <= panel.column == offset
    requires offset + chunk <= panel.x1 + 1 == fb.maxX[p] + 1 <= WIDTH
    requires chunk >= 1
    modifies panel
    ensures RamSized(panel.ram) && Agrees(fb.View(), panel.ram)
    ensures ok ==> panel.ram == old(panel.ram)[p := panel.ram[p]]
    ensures ok ==> forall x :: 0 <= x < WIDTH ==> panel.ram[p][x] == if offset <= x < offset + chunk then fb.data[p][x] else old(panel.ram)[p][x]
    ensures ok ==> panel.page == p && panel.x0 == old(panel.x0) && panel.x1 == old(panel.x1)
                   && (offset + chunk <= panel.x1 ==> panel.column == offset + chunk)
    ensures Healthy(old(panel.outcomes)) ==> ok && Healthy(panel.outcomes)
  {
    ghost var prior := panel.ram;
    var packet := fb.data[p][offset..offset + chunk];
    ok := panel.Data(packet);
    ghost var k :| 0 <= k <= |packet| && panel.ram == prior[p := Poured(prior[p], offset, packet[..k])];
    InsideSpanAgrees(fb.View(), prior, p, Poured(prior[p], offset, packet[..k]));
  }

  lemma SpanInRange(fb: FrameBuffer, p: nat)
    requires fb.Valid() && fb.width == WIDTH && fb.height == HEIGHT && p < PAGES && p in fb.dirty
    ensures |fb.minX| == |fb.maxX| == MAX_PAGES && fb.minX[p] <= fb.maxX[p] < WIDTH
    ensures |fb.data| == PAGES && |fb.data[p]| == WIDTH
  {
  }

  /** Once the whole span is sent, nothing in the page differs. */
  lemma CoveredPage(im: Image, ram: seq<seq<Pixels>>, p: nat, page: seq<Pixels>)
    requires Agrees(im, ram) && p < |ram| && |page| == |ram[p]|
    requires forall x :: 0 <= x < |page| ==> page[x] == if im.minX[p] <= x <= im.maxX[p] then im.data[p][x] else ram[p][x]
    ensures page == im.data[p]
  {
    forall x | 0 <= x < |page| ensures page[x] == im.data[p][x] {
      if ram[p][x] != im.data[p][x] {
        assert InSpan(im, p, x);
      }
    }
  }

  /**
   `ssd1306_present`. Success leaves the panel equal to the framebuffer and nothing dirty; a failure at any write leaves
   every remaining difference inside a dirty span, so presenting again makes up for it.
   */
  method Present(fb: FrameBuffer, panel: Panel) returns (ok: bool)
    requires fb.Valid() && RamSized(panel.ram) && (fb.width == WIDTH && fb.height == HEIGHT ==> Agrees(fb.View(), panel.ram))
    modifies panel, fb`dirty, fb`minX, fb`maxX
    ensures fb.Valid() && RamSized(panel.ram) && (fb.width == WIDTH && fb.height == HEIGHT ==> Agrees(fb.View(), panel.ram))
    ensures fb.dirty <= old(fb.dirty)
    ensures ok ==> panel.ram == fb.data && fb.dirty == {}
    ensures !ok && fb.width == WIDTH && fb.height == HEIGHT ==> fb.dirty != {}
    ensures fb.width == WIDTH && fb.height == HEIGHT && Healthy(old(panel.outcomes)) ==> ok
    ensures fb.width != WIDTH || fb.height != HEIGHT ==> !ok && unchanged(fb) && unchanged(panel)
    ensures old(fb.dirty) == {} ==> unchanged(panel)
  {
    if fb.width != WIDTH || fb.height != HEIGHT {
      return false;
    }
    ghost var dirty := fb.dirty;
    DirtyPages(fb);
    if fb.dirty == {} {
      NothingDirty(fb.View(), panel.ram);
      return true;
    }
    for p := 0 to PAGES
      invariant fb.Valid() && RamSized(panel.ram) && Agrees(fb.View(), panel.ram) && fb.dirty <= dirty
      invariant forall q :: q in fb.dirty ==> p <= q < PAGES
      invariant Healthy(old(panel.outcomes)) ==> Healthy(panel.outcomes)
    {
      if p in fb.dirty {
        ok := SendSpan(fb, panel, p);
        if !ok {
          return;
        }
        ghost var im := fb.View();
        fb.ClearDirty(p);
        CleanPage(im, fb.View(), panel.ram, p);
      }
    }
    NothingDirty(fb.View(), panel.ram);
    return true;
  }

  lemma DirtyPages(fb: FrameBuffer)
    requires fb.Valid() && fb.width == WIDTH && fb.height == HEIGHT
    ensures forall q :: q in fb.dirty ==> q < PAGES
  {
  }

  lemma NothingDirty(im: Image, ram: seq<seq<Pixels>>)
    requires Agrees(im, ram) && im.dirty == {}
    ensures ram == im.data
  {
    forall p | 0 <= p < |ram| ensures ram[p] == im.data[p] {
      assert forall x :: 0 <= x < |ram[p]| ==> ram[p][x] == im.data[p][x];
    }
  }

  lemma CleanPage(im: Image, after: Image, ram: seq<seq<Pixels>>, p: nat)
    requires |after.minX| == |after.maxX| == MAX_PAGES && Agrees(im, ram) && p < |ram| && ram[p] == im.data[p]
    requires after.data == im.data && after.dirty == im.dirty - {p}
    requires forall q :: 0 <= q < MAX_PAGES && q != p ==> after.minX[q] == im.minX[q] && after.maxX[q] == im.maxX[q]
    ensures Agrees(after, ram)
  {
    forall q, x | 0 <= q < |ram| && 0 <= x < |ram[q]| && ram[q][x] != after.data[q][x] ensures InSpan(after, q, x) {
      assert InSpan(im, q, x);
    }
  }
}
