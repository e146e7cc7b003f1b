/// The `Display` class: a driver instance whose only state is its geometry
/// and the bus trace it has produced. Every method appends to the trace the
/// events of the corresponding specification function, and returns how the
/// call ended: `Done`, or the exception it raised.
module Ili9341 {
  import opened Builtins
  import opened Bus
  import opened Panel
  import opened Window
  import opened Fill
  import opened Raster
  import opened Bitmap
  import opened Text

  /// Once the first `k` blocks have raised, the later ones add nothing.
  lemma BlitsRunRaised(bs: seq<Blit>, k: nat, select: bool, deselect: bool)
    requires k <= |bs| && BlitsRun(bs[..k], select, deselect).out.Raised?
    ensures BlitsRun(bs, select, deselect) == BlitsRun(bs[..k], select, deselect)
  {
    assert bs[..k] + bs[k..] == bs;
    BlitsRunAppend(bs[..k], bs[k..], select, deselect);
  }

  /// After `k` blocks that went through, the first `k + 1` blocks are
  /// those, then block `k`.
  lemma BlitsRunStep(bs: seq<Blit>, k: nat, select: bool, deselect: bool)
    requires k < |bs| && BlitsRun(bs[..k], select, deselect).out == Done
    ensures BlitsRun(bs[..k + 1], select, deselect).events ==
            BlitsRun(bs[..k], select, deselect).events + BlockRun(bs[k], select, deselect).events
    ensures BlitsRun(bs[..k + 1], select, deselect).out == BlockRun(bs[k], select, deselect).out
  {
    assert bs[..k + 1][..k] == bs[..k];
  }

  /// One turn of a loop that sends the blocks `bs[..n]` one by one onto a
  /// trace that began as `t0`: the trace grows by block `k`, and if that
  /// block raised, the rest of the loop adds nothing.
  lemma BlitsLoopStep(t0: seq<Event>, bs: seq<Blit>, k: nat, n: nat, select: bool, deselect: bool)
    requires k < n <= |bs| && BlitsRun(bs[..k], select, deselect).out == Done
    ensures t0 + BlitsRun(bs[..k], select, deselect).events + BlockRun(bs[k], select, deselect).events ==
            t0 + BlitsRun(bs[..k + 1], select, deselect).events
    ensures BlitsRun(bs[..k + 1], select, deselect).out == BlockRun(bs[k], select, deselect).out
    ensures BlockRun(bs[k], select, deselect).out.Raised? ==>
            BlitsRun(bs[..n], select, deselect) == BlitsRun(bs[..k + 1], select, deselect)
  {
    BlitsRunStep(bs, k, select, deselect);
    ConcatAssoc(t0, BlitsRun(bs[..k], select, deselect).events, BlockRun(bs[k], select, deselect).events);
    if BlockRun(bs[k], select, deselect).out.Raised? {
      BlitsRunRaised(bs[..n], k + 1, select, deselect);
      assert bs[..n][..k + 1] == bs[..k + 1];
    }
  }

  /// One iteration of `draw_line`'s loop at `xi = u0 + k`: a flush draws
  /// the pending segment and moves to the next minor coordinate; otherwise
  /// the pending segment grows by one.
  lemma LineStep(L: Line, enc: seq<byte>, k: nat)
    ensures var w, next := WalkTo(L, k), WalkTo(L, k + 1);
      var seg := Segment(L.u0 + k, w.yi, w.temp);
      if Flush(L, L.u0 + k, w.yi) then
        next == Walk(w.yi + L.step, 1, w.segs + [seg]) &&
        BlitsRun(SegmentBlits(L, enc, next.segs), false, false) ==
        Then(BlitsRun(SegmentBlits(L, enc, w.segs), false, false), BlockRun(SegmentBlit(L, enc, seg), false, false))
      else next == Walk(w.yi, w.temp + 1, w.segs)
  {
    var w := WalkTo(L, k);
    var seg := Segment(L.u0 + k, w.yi, w.temp);
    if Flush(L, L.u0 + k, w.yi) {
      SegmentBlitsSnoc(L, enc, w.segs, seg);
      BlitsRunSnoc(SegmentBlits(L, enc, w.segs), SegmentBlit(L, enc, seg), false, false);
    }
  }

  /// Once a segment block of the walk has raised, the later iterations add
  /// nothing.
  lemma LineWalkRaised(L: Line, enc: seq<byte>, k: nat, n: nat)
    requires k <= n && BlitsRun(SegmentBlits(L, enc, WalkTo(L, k).segs), false, false).out.Raised?
    ensures BlitsRun(SegmentBlits(L, enc, WalkTo(L, n).segs), false, false) ==
            BlitsRun(SegmentBlits(L, enc, WalkTo(L, k).segs), false, false)
  {
    var a, b := WalkTo(L, k).segs, WalkTo(L, n).segs;
    WalkGrows(L, k, n);
    var bs := SegmentBlits(L, enc, b);
    assert bs[..|a|] == SegmentBlits(L, enc, a);
    BlitsRunRaised(bs, |a|, false, false);
  }

  lemma SeqRunStep(cmds: seq<Cmd>, i: nat)
    requires i < |cmds| && SeqRun(cmds[..i]).out == Done
    ensures SeqRun(cmds[..i + 1]).events == SeqRun(cmds[..i]).events + CmdRun(cmds[i]).events
    ensures SeqRun(cmds[..i + 1]).out == CmdRun(cmds[i]).out
  {
    assert cmds[..i + 1][..i] == cmds[..i];
  }

  /// One iteration of `run_seq`'s loop, as the trace sees it.
  lemma SeqLoopStep(t0: seq<Event>, cmds: seq<Cmd>, i: nat)
    requires i < |cmds| && SeqRun(cmds[..i]).out == Done
    ensures t0 + SeqRun(cmds[..i]).events + CmdRun(cmds[i]).events == t0 + SeqRun(cmds[..i + 1]).events
    ensures SeqRun(cmds[..i + 1]).out == CmdRun(cmds[i]).out
    ensures CmdRun(cmds[i]).out.Raised? ==> SeqRun(cmds) == SeqRun(cmds[..i + 1])
  {
    SeqRunStep(cmds, i);
    ConcatAssoc(t0, SeqRun(cmds[..i]).events, CmdRun(cmds[i]).events);
    if CmdRun(cmds[i]).out.Raised? {
      SeqRunRaised(cmds, i + 1);
    }
  }

  lemma SeqRunRaised(cmds: seq<Cmd>, k: nat)
    requires k <= |cmds| && SeqRun(cmds[..k]).out.Raised?
    ensures SeqRun(cmds) == SeqRun(cmds[..k])
  {
    assert cmds[..k] + cmds[k..] == cmds;
    SeqRunRaisedPrefix(cmds[..k], cmds[k..]);
  }

  lemma RunSeqShape(cmds: seq<Cmd>, select: bool, deselect: bool)
    ensures var body := SeqRun(cmds);
      RunSeqRun(cmds, select, deselect) ==
        if body.out.Raised? then Run(Select(select) + body.events, body.out)
        else Run(Select(select) + body.events + Deselect(deselect), Done)
  {
  }

  /// `k + 1` copies are `k` copies and one more.
  lemma RepSnoc<T>(s: seq<T>, k: nat)
    ensures Rep(s, k + 1) == Rep(s, k) + s
  {
    RepAppend(s, k, 1);
    assert Rep(s, 1) == s + [];
  }

  class Display {
    const width: int
    const height: int
    const colorBytes: nat
    const maxBytes: nat
    /// The MADCTL byte the constructor computes.
    const rotation: bv8
    /// Every CS, DC and SPI write event since construction.
    var trace: seq<Event>

    function Geometry(): Panel
    {
      Panel(width, height, colorBytes, maxBytes)
    }

    /// The pure part of `__init__`: colour depth, geometry and MADCTL byte.
    /// A colour mode other than 0 or 1 leaves `color_bytes` unset and makes
    /// bring-up fail, and `clear` divides by the width.
    constructor (width: int, height: int, bytesMax: nat, rotate90: bool, flipH: bool, flipV: bool,
                 colorMode: int, bgr: bool)
      requires colorMode == 0 || colorMode == 1
      requires width > 0 && height > 0
      ensures Valid(Geometry())
      ensures Configure(width, height, bytesMax, rotate90, flipH, flipV, colorMode, bgr) ==
              Some(Setup(Geometry(), rotation))
      ensures trace == []
    {
      var setup := Configure(width, height, bytesMax, rotate90, flipH, flipV, colorMode, bgr).value;
      this.width := setup.panel.width;
      this.height := setup.panel.height;
      this.colorBytes := setup.panel.colorBytes;
      this.maxBytes := setup.panel.maxBytes;
      this.rotation := setup.madctl;
      trace := [];
    }

    /// `cs.value(level)`.
    method SetCS(level: Level)
      modifies this
      ensures trace == old(trace) + [CS(level)]
    {
      trace := trace + [CS(level)];
    }

    /// `dc.value(level)`.
    method SetDC(level: Level)
      modifies this
      ensures trace == old(trace) + [DC(level)]
    {
      trace := trace + [DC(level)];
    }

    /// `spi.write(data)`.
    method SpiWrite(data: seq<byte>)
      modifies this
      ensures trace == old(trace) + [Write(data)]
    {
      trace := trace + [Write(data)];
    }

    method WriteData(data: seq<byte>) returns (out: Outcome)
      modifies this
      ensures trace == old(trace) + WriteDataRun(data).events && out == WriteDataRun(data).out
    {
      SetDC(High);
      SetCS(Low);
      SpiWrite(data);
      SetCS(High);
      out := Done;
    }

    method WriteCmd(op: byte, args: seq<int>) returns (out: Outcome)
      modifies this
      ensures trace == old(trace) + WriteCmdRun(op, args).events && out == WriteCmdRun(op, args).out
    {
      SetDC(Low);
      SetCS(Low);
      SpiWrite([op]);
      SetCS(High);
      if |args| > 0 {
        var data := ToBytes(args);
        if data.None? {
          return Raised(ValueError);
        }
        out := WriteData(data.value);
        return;
      }
      out := Done;
    }

    /// One iteration of `run_seq`'s loop.
    method SendCmd(c: Cmd) returns (out: Outcome)
      modifies this
      ensures trace == old(trace) + CmdRun(c).events && out == CmdRun(c).out
    {
      SetDC(Low);
      SpiWrite([c.op]);
      match c.payload {
        case NoData =>
        case Bytes(bs) =>
          SetDC(High);
          SpiWrite(bs);
        case Ints(xs) =>
          SetDC(High);
          var bs := ToBytes(xs);
          if bs.None? {
            return Raised(ValueError);
          }
          SpiWrite(bs.value);
      }
      out := Done;
    }

    /// The loop of `run_seq` over its commands.
    method SendCmds(cmds: seq<Cmd>) returns (out: Outcome)
      modifies this
      ensures trace == old(trace) + SeqRun(cmds).events && out == SeqRun(cmds).out
    {
      for i := 0 to |cmds|
        invariant SeqRun(cmds[..i]).out == Done
        invariant trace == old(trace) + SeqRun(cmds[..i]).events
      {
        out := SendCmd(cmds[i]);
        SeqLoopStep(old(trace), cmds, i);
        if out.Raised? {
          return;
        }
      }
      assert cmds[..|cmds|] == cmds;
      out := Done;
    }

    method RunSeq(cmds: seq<Cmd>, select: bool, deselect: bool) returns (out: Outcome)
      modifies this
      ensures var r := RunSeqRun(cmds, select, deselect); trace == old(trace) + r.events && out == r.out
    {
      if select {
        SetCS(Low);
      }
      out := SendCmds(cmds);
      RunSeqShape(cmds, select, deselect);
      ConcatAssoc(old(trace), Select(select), SeqRun(cmds).events);
      if out.Raised? {
        return;
      }
      if deselect {
        SetCS(High);
      }
      ConcatAssoc(old(trace), Select(select) + SeqRun(cmds).events, Deselect(deselect));
    }

    method SetBlock(x0: int, y0: int, x1: int, y1: int) returns (out: Outcome)
      modifies this
      ensures var r := SetBlockRun(x0, y0, x1, y1); trace == old(trace) + r.events && out == r.out
    {
      out := RunSeq(WindowCmds(x0, y0, x1, y1, NoData), true, true);
    }

    method Block(x0: int, y0: int, x1: int, y1: int, data: seq<byte>, select: bool, deselect: bool)
      returns (out: Outcome)
      modifies this
      ensures var r := BlockRun(Blit(x0, y0, x1, y1, data), select, deselect);
        trace == old(trace) + r.events && out == r.out
    {
      out := RunSeq(WindowCmds(x0, y0, x1, y1, Bytes(data)), select, deselect);
    }

    /// `block` called with the window and data of `b`.
    method Send(b: Blit, select: bool, deselect: bool) returns (out: Outcome)
      modifies this
      ensures trace == old(trace) + BlockRun(b, select, deselect).events && out == BlockRun(b, select, deselect).out
    {
      out := Block(b.x0, b.y0, b.x1, b.y1, b.data, select, deselect);
    }

    method DrawPixel(x: int, y: int, color: int, select: bool, deselect: bool) returns (out: Outcome)
      modifies this
      ensures var r := PixelRun(Geometry(), x, y, color, select, deselect);
        trace == old(trace) + r.events && out == r.out
    {
      var enc := IntToBytes(color, colorBytes);
      if enc.None? {
        return Raised(OverflowError);
      }
      out := RunSeq([Cmd(CASET, Ints(CoordArgs(x, 0))), Cmd(PASET, Ints(CoordArgs(y, 0))),
                     Cmd(RAMWR, Bytes(enc.value))], select, deselect);
    }

    method Scroll(y: int) returns (out: Outcome)
      modifies this
      ensures trace == old(trace) + ScrollRun(y).events && out == ScrollRun(y).out
    {
      out := WriteCmd(VSCRSADD, [y / 256, y % 256]);
    }

    method SetScroll(top: int, bottom: int) returns (out: Outcome)
      modifies this
      ensures var r := SetScrollRun(Geometry(), top, bottom); trace == old(trace) + r.events && out == r.out
    {
      if top + bottom <= height {
        var middle := height - (top + bottom);
        out := WriteCmd(VSCRDEF, [top / 256, top % 256, middle / 256, middle % 256, bottom / 256, bottom % 256]);
        assert CoordArgs(top, middle) + [bottom / 256, bottom % 256] ==
               [top / 256, top % 256, middle / 256, middle % 256, bottom / 256, bottom % 256];
      } else {
        out := Done;
      }
    }

    /// `for i in range(0, h, chunk_height): spi.write(chunk)`, over the
    /// `count` elements of the range.
    method WriteChunks(chunk: seq<byte>, count: nat)
      modifies this
      ensures trace == old(trace) + Rep([Write(chunk)], count)
    {
      for k := 0 to count
        invariant trace == old(trace) + Rep([Write(chunk)], k)
      {
        SpiWrite(chunk);
        RepSnoc([Write(chunk)], k);
        ConcatAssoc(old(trace), Rep([Write(chunk)], k), [Write(chunk)]);
      }
    }

    method Clear(color: int) returns (out: Outcome)
      requires Valid(Geometry())
      modifies this
      ensures var r := ClearRun(Geometry(), color); trace == old(trace) + r.events && out == r.out
    {
      var w, h := width, height;
      var chunkHeight := ClearChunkHeight(Geometry());
      if chunkHeight == 0 {
        return Raised(ZeroDivisionError);
      }
      var finalChunkHeight, remainder := h / chunkHeight, h % chunkHeight;
      DivPositive(h, chunkHeight);
      var enc := IntToBytes(color, colorBytes);
      if enc.None? {
        return Raised(OverflowError);
      }
      var chunk := Rep(enc.value, chunkHeight * w);
      ghost var opening := RunSeqRun(WindowCmds(0, 0, w - 1, h - 1, NoData), true, false);
      ghost var stream := ClearStream(enc.value, chunkHeight, w, h);
      assert ClearRun(Geometry(), color) == Then(opening, Emit(stream));
      out := RunSeq(WindowCmds(0, 0, w - 1, h - 1, NoData), true, false);
      if out.Raised? {
        return;
      }
      ghost var start := trace;
      SetDC(High);
      WriteChunks(chunk, RangeLen(0, h, chunkHeight));
      if remainder != 0 {
        SpiWrite(Rep(Rep(enc.value, remainder), finalChunkHeight));
        ClearTail(enc.value, remainder, finalChunkHeight);
      }
      SetCS(High);
      assert trace == start + stream;
      ConcatAssoc(old(trace), opening.events, stream);
      out := Done;
    }

    /// `for c in range(0, chunk_count)` of `fill_hrect`: one block of
    /// `chunk_height` rows per chunk, `chunk_y` moving down by `chunk_height`.
    method FillChunks(x: int, y: int, w: int, ch: int, count: int, enc: seq<byte>)
      returns (chunkY: int, out: Outcome)
      modifies this
      ensures var r := BlitsRun(ChunkBlits(x, y, w, ch, RangeLen(0, count, 1), enc), true, true);
        trace == old(trace) + r.events && out == r.out
      ensures chunkY == y + RangeLen(0, count, 1) * ch
    {
      var n := RangeLen(0, count, 1);
      ghost var bs := ChunkBlits(x, y, w, ch, n, enc);
      chunkY := y;
      out := Done;
      for c := 0 to n
        invariant chunkY == y + c * ch
        invariant out == Done
        invariant BlitsRun(bs[..c], true, true).out == Done
        invariant trace == old(trace) + BlitsRun(bs[..c], true, true).events
      {
        out := ChunkStep(x, y, w, ch, enc, n, c, chunkY, bs, old(trace));
        if out.Raised? {
          BlitsRunRaised(bs, c + 1, true, true);
          chunkY := y + n * ch;
          return;
        }
        chunkY := chunkY + ch;
        MulSucc(c + 1, ch);
      }
      assert bs[..n] == bs;
    }

    /// One iteration of `fill_hrect`'s chunk loop: the chunk at row `chunkY`.
    method ChunkStep(x: int, y: int, w: int, ch: int, enc: seq<byte>, n: nat, c: nat, chunkY: int,
                     ghost bs: seq<Blit>, ghost t0: seq<Event>)
      returns (out: Outcome)
      requires c < n && bs == ChunkBlits(x, y, w, ch, n, enc) && chunkY == y + c * ch
      requires BlitsRun(bs[..c], true, true).out == Done
      requires trace == t0 + BlitsRun(bs[..c], true, true).events
      modifies this
      ensures trace == t0 + BlitsRun(bs[..c + 1], true, true).events
      ensures out == BlitsRun(bs[..c + 1], true, true).out
    {
      out := Send(ChunkBlit(x, chunkY, w, ch, enc), true, true);
      BlitsLoopStep(t0, bs, c, n, true, true);
    }

    /// `fill_hrect`'s chunks and then its remainder block, the colour encoded as `enc`.
    method FillBlocks(x: int, y: int, w: int, ch: int, count: int, rem: int, enc: seq<byte>)
      returns (out: Outcome)
      modifies this
      ensures var r := BlitsRun(FillBlits(x, y, w, ch, count, rem, enc), true, true);
        trace == old(trace) + r.events && out == r.out
    {
      var chunkY;
      chunkY, out := FillChunks(x, y, w, ch, count, enc);
      FillTail(x, y, w, ch, count, rem, enc, chunkY);
      if out.Raised? || rem == 0 {
        return;
      }
      var last := Blit(x, chunkY, x + w - 1, chunkY + rem - 1, Rep(Rep(enc, rem), w));
      out := Send(last, true, true);
      ThenTrace(old(trace), BlitsRun(ChunkBlits(x, y, w, ch, RangeLen(0, count, 1), enc), true, true),
                BlockRun(last, true, true));
    }

    /// The drawing part of `fill_hrect`, once `chunk_height`, `chunk_count`
    /// and `remainder` are known: the colour is encoded on 2 bytes only when
    /// there is a chunk or a remainder to draw.
    method FillBody(x: int, y: int, w: int, ch: int, count: int, rem: int, color: int) returns (out: Outcome)
      modifies this
      ensures var r := match IntToBytes(color, 2)
                       case None => (if count != 0 || rem != 0 then Fail(OverflowError) else Emit([]))
                       case Some(enc) => BlitsRun(FillBlits(x, y, w, ch, count, rem, enc), true, true);
        trace == old(trace) + r.events && out == r.out
    {
      if count == 0 && rem == 0 {
        ghost var enc := IntToBytes(color, 2);
        if enc.Some? {
          FillTail(x, y, w, ch, count, rem, enc.value, y + RangeLen(0, count, 1) * ch);
        }
        return Done;
      }
      var enc := IntToBytes(color, 2);
      if enc.None? {
        return Raised(OverflowError);
      }
      out := FillBlocks(x, y, w, ch, count, rem, enc.value);
    }

    method FillHRect(x: int, y: int, w: int, h: int, color: int) returns (out: Outcome)
      modifies this
      ensures var r := FillHRectRun(Geometry(), x, y, w, h, color); trace == old(trace) + r.events && out == r.out
    {
      if IsOffGrid(Geometry(), x, y, x + w - 1, y + h - 1) {
        return Done;
      }
      if w == 0 {
        return Raised(ZeroDivisionError);
      }
      var chunkHeight := FloorDiv(1024, w);
      if chunkHeight == 0 {
        return Raised(ZeroDivisionError);
      }
      var chunkCount, remainder := FloorDiv(h, chunkHeight), FloorMod(h, chunkHeight);
      out := FillBody(x, y, w, chunkHeight, chunkCount, remainder, color);
    }

    method DrawHLine(x: int, y: int, l: int, color: int) returns (out: Outcome)
      modifies this
      ensures var r := HLineRun(Geometry(), x, y, l, color); trace == old(trace) + r.events && out == r.out
    {
      var enc := IntToBytes(color, colorBytes);
      if enc.None? {
        return Raised(OverflowError);
      }
      out := Block(x, y, x + l - 1, y, Rep(enc.value, l), true, true);
    }

    method DrawVLine(x: int, y: int, l: int, color: int) returns (out: Outcome)
      modifies this
      ensures var r := VLineRun(Geometry(), x, y, l, color); trace == old(trace) + r.events && out == r.out
    {
      var enc := IntToBytes(color, colorBytes);
      if enc.None? {
        return Raised(OverflowError);
      }
      out := Block(x, y, x, y + l - 1, Rep(enc.value, l), true, true);
    }

    /// `for i in range(y, y + h + 1, chunk_height)` of `draw_sprite`: the
    /// blocks before the final one.
    method SpriteChunks(data: seq<byte>, w: int, h: int, x: int, y: int, ch: int, rem: int)
      returns (out: Outcome)
      requires ch != 0
      modifies this
      ensures var bs := SpriteBlits(data, w, h, x, y, ch, rem);
        var r := BlitsRun(bs[..RangeLen(y, y + h + 1, ch)], true, true);
        trace == old(trace) + r.events && out == r.out
    {
      var n := RangeLen(y, y + h + 1, ch);
      ghost var bs := SpriteBlits(data, w, h, x, y, ch, rem);
      out := Done;
      for k := 0 to n
        invariant out == Done
        invariant BlitsRun(bs[..k], true, true).out == Done
        invariant trace == old(trace) + BlitsRun(bs[..k], true, true).events
      {
        SpriteBlitAt(data, w, h, x, y, ch, rem, k);
        out := Send(SpriteRow(data, w, x, y + k * ch, ch), true, true);
        BlitsLoopStep(old(trace), bs, k, n, true, true);
        if out.Raised? {
          return;
        }
      }
    }

    method DrawSprite(data: seq<byte>, w: int, h: int, x: int, y: int) returns (out: Outcome)
      modifies this
      ensures var r := SpriteRun(Geometry(), data, w, h, x, y); trace == old(trace) + r.events && out == r.out
    {
      if |data| <= maxBytes {
        out := Block(x, y, x + w - 1, y + h - 1, data, true, true);
        return;
      }
      if w * colorBytes == 0 {
        return Raised(ZeroDivisionError);
      }
      var chunkHeight, remainder := FloorDiv(maxBytes, w * colorBytes), FloorMod(maxBytes, w * colorBytes);
      if chunkHeight == 0 {
        return Raised(ValueError);
      }
      out := SpriteChunked(data, w, h, x, y, chunkHeight, remainder);
    }

    /// `draw_sprite` above the byte budget: the loop's blocks, then the
    /// final block of `remainder` rows.
    method SpriteChunked(data: seq<byte>, w: int, h: int, x: int, y: int, ch: int, rem: int)
      returns (out: Outcome)
      requires ch != 0
      modifies this
      ensures var r := BlitsRun(SpriteBlits(data, w, h, x, y, ch, rem), true, true);
        trace == old(trace) + r.events && out == r.out
    {
      ghost var bs := SpriteBlits(data, w, h, x, y, ch, rem);
      ghost var n := RangeLen(y, y + h + 1, ch);
      SpriteBlitAt(data, w, h, x, y, ch, rem, n);
      out := SpriteChunks(data, w, h, x, y, ch, rem);
      if out.Raised? {
        BlitsRunRaised(bs, n, true, true);
        return;
      }
      var last := Blit(x, y + h - rem, x + w - 1, y + h, Slice(data, (h - rem) * w, |data|));
      out := Send(last, true, true);
      BlitsRunStep(bs, n, true, true);
      ThenTrace(old(trace), BlitsRun(bs[..n], true, true), BlockRun(last, true, true));
      assert bs[..n + 1] == bs;
    }

    /// The loop of `draw_line`, `for xi in range(u0, u1 + 1)` (iteration
    /// `k` has `xi = u0 + k`), with CS already asserted: it returns `yi` and
    /// `temp` as the loop leaves them.
    method WalkSegments(L: Line, enc: seq<byte>) returns (yi: int, temp: int, out: Outcome)
      requires L.u0 <= L.u1
      modifies this
      ensures var w := WalkTo(L, L.u1 - L.u0 + 1);
        var r := BlitsRun(SegmentBlits(L, enc, w.segs), false, false);
        trace == old(trace) + r.events && out == r.out && (out == Done ==> yi == w.yi && temp == w.temp)
    {
      yi, temp := L.v0, 1;
      out := Done;
      var n := L.u1 - L.u0 + 1;
      ghost var all := BlitsRun(SegmentBlits(L, enc, WalkTo(L, n).segs), false, false);
      for k := 0 to n
        invariant yi == WalkTo(L, k).yi && temp == WalkTo(L, k).temp
        invariant out == Done
        invariant BlitsRun(SegmentBlits(L, enc, WalkTo(L, k).segs), false, false).out == Done
        invariant trace == old(trace) + BlitsRun(SegmentBlits(L, enc, WalkTo(L, k).segs), false, false).events
      {
        yi, temp, out := WalkStep(L, enc, k, yi, temp, old(trace));
        if out.Raised? {
          assert all == BlitsRun(SegmentBlits(L, enc, WalkTo(L, k + 1).segs), false, false) by {
            LineWalkRaised(L, enc, k + 1, n);
          }
          return;
        }
      }
    }

    /// One iteration of `draw_line`'s loop, at `xi = u0 + k`.
    method WalkStep(L: Line, enc: seq<byte>, k: nat, yi: int, temp: int, ghost t0: seq<Event>)
      returns (yi': int, temp': int, out: Outcome)
      requires yi == WalkTo(L, k).yi && temp == WalkTo(L, k).temp
      requires BlitsRun(SegmentBlits(L, enc, WalkTo(L, k).segs), false, false).out == Done
      requires trace == t0 + BlitsRun(SegmentBlits(L, enc, WalkTo(L, k).segs), false, false).events
      modifies this
      ensures var r := BlitsRun(SegmentBlits(L, enc, WalkTo(L, k + 1).segs), false, false);
        trace == t0 + r.events && out == r.out
      ensures yi' == WalkTo(L, k + 1).yi && temp' == WalkTo(L, k + 1).temp
    {
      ghost var done := BlitsRun(SegmentBlits(L, enc, WalkTo(L, k).segs), false, false);
      LineStep(L, enc, k);
      if Flush(L, L.u0 + k, yi) {
        var seg := SegmentBlit(L, enc, Segment(L.u0 + k, yi, temp));
        out := Send(seg, false, false);
        ThenTrace(t0, done, BlockRun(seg, false, false));
        yi', temp' := yi + L.step, 1;
      } else {
        yi', temp', out := yi, temp + 1, Done;
      }
    }

    method DrawLine(x0: int, y0: int, x1: int, y1: int, color: int) returns (out: Outcome)
      modifies this
      ensures var r := LineRun(Geometry(), x0, y0, x1, y1, color); trace == old(trace) + r.events && out == r.out
    {
      if x0 == x1 {
        out := DrawVLine(x0, if y0 < y1 then y0 else y1, Abs(y1 - y0), color);
        return;
      } else if y0 == y1 {
        out := DrawHLine(if x0 < x1 then x0 else x1, y0, Abs(x1 - x0), color);
        return;
      }
      var enc := IntToBytes(color, colorBytes);
      if enc.None? {
        return Raised(OverflowError);
      }
      var L := Normalise(x0, y0, x1, y1);
      out := DrawSegments(L, enc.value);
    }

    /// `draw_any_line`: the x and the y coordinates are each put in order;
    /// a line inside the panel is drawn with `draw_line`, and otherwise only
    /// the slope `m` is computed, which divides by zero for a vertical line
    /// and then (`-b / m`) for a horizontal one.
    method DrawAnyLine(x0: int, y0: int, x1: int, y1: int, color: int) returns (out: Outcome)
      modifies this
      ensures var r := AnyLineRun(Geometry(), x0, y0, x1, y1, color); trace == old(trace) + r.events && out == r.out
    {
      var a0, a1, b0, b1 := x0, x1, y0, y1;
      if a0 > a1 {
        a0, a1 := a1, a0;
      }
      if b0 > b1 {
        b0, b1 := b1, b0;
      }
      if 0 <= a0 < width && 0 <= a1 < width && 0 <= b0 < height && 0 <= b1 < height {
        out := DrawLine(a0, b0, a1, b1, color);
        return;
      }
      if a1 - a0 == 0 {
        return Raised(ZeroDivisionError);
      }
      if b1 - b0 == 0 {
        return Raised(ZeroDivisionError);
      }
      out := Done;
    }

    /// `for i in range(4): v += ord(f.read(1)) << (8 * i)` with the file
    /// at `at`: `ord` of the empty read past the end raises TypeError.
    method ReadField(file: seq<byte>, at: nat) returns (r: Result<nat>)
      ensures at + 4 <= |file| ==> r == Ok(Field(file, at))
      ensures at + 4 > |file| ==> r == Err(TypeError)
    {
      var v: nat := 0;
      for i := 0 to 4
        invariant i == 0 || at + i <= |file|
        invariant at + i <= |file| ==> v == LittleEndian(file[at..at + i])
      {
        if at + i >= |file| {
          return Err(TypeError);
        }
        LittleEndianSnoc(file[at..at + i], file[at + i]);
        assert file[at..at + i + 1] == file[at..at + i] + [file[at + i]];
        v := v + file[at + i] as nat * Pow256(i);
      }
      return Ok(v);
    }

    /// `get_image_properties(path)` on the file's bytes.
    method GetImageProperties(file: seq<byte>) returns (r: Result<Props>)
      ensures r == ImageProperties(file, colorBytes)
    {
      if |file| < 2 || file[..2] != Signature {
        return Err(TypeError);
      }
      var offset := ReadField(file, 0x0A);
      if offset.Err? {
        return Err(offset.error);
      }
      var w := ReadField(file, 0x12);
      if w.Err? {
        return Err(w.error);
      }
      var h := ReadField(file, 0x16);
      if h.Err? {
        return Err(h.error);
      }
      var bpp := ReadField(file, 0x1C);
      if bpp.Err? {
        return Err(bpp.error);
      }
      if bpp.value / 8 != colorBytes {
        return Err(TypeError);
      }
      var dataSize := ReadField(file, 0x22);
      if dataSize.Err? {
        return Err(dataSize.error);
      }
      var padding := (w.value * (bpp.value / 8)) % 4;
      return Ok(Props(offset.value, w.value, h.value, bpp.value, dataSize.value, padding));
    }

    /// The row loop of `draw_image`: `h` reads of `n` bytes from `offset`,
    /// each sent reversed as panel row `y + row`, then `f.seek(pb, 1)`.
    method ImageRows(file: seq<byte>, x: int, y: int, w: int, offset: nat, n: nat, pb: nat, h: nat)
      returns (out: Outcome)
      modifies this
      ensures var r := BlitsRun(ImageBlits(x, y, w, ReadRows(file, offset, n, pb, h).rows), true, true);
        trace == old(trace) + r.events && out == r.out
    {
      ghost var bs := ImageBlits(x, y, w, ReadRows(file, offset, n, pb, h).rows);
      var pos := offset;
      out := Done;
      for row := 0 to h
        invariant pos == ReadRows(file, offset, n, pb, row).pos
        invariant out == Done
        invariant BlitsRun(bs[..row], true, true).out == Done
        invariant trace == old(trace) + BlitsRun(bs[..row], true, true).events
      {
        pos, out := ImageRow(file, x, y, w, offset, n, pb, h, row, pos, bs, old(trace));
        if out.Raised? {
          BlitsRunRaised(bs, row + 1, true, true);
          return;
        }
      }
      assert bs[..h] == bs;
    }

    /// One iteration of `draw_image`'s row loop: read, reverse, send, skip
    /// the padding.
    method ImageRow(file: seq<byte>, x: int, y: int, w: int, offset: nat, n: nat, pb: nat, h: nat,
                    row: nat, pos: nat, ghost bs: seq<Blit>, ghost t0: seq<Event>)
      returns (pos': nat, out: Outcome)
      requires row < h && bs == ImageBlits(x, y, w, ReadRows(file, offset, n, pb, h).rows)
      requires pos == ReadRows(file, offset, n, pb, row).pos
      requires BlitsRun(bs[..row], true, true).out == Done
      requires trace == t0 + BlitsRun(bs[..row], true, true).events
      modifies this
      ensures trace == t0 + BlitsRun(bs[..row + 1], true, true).events
      ensures out == BlitsRun(bs[..row + 1], true, true).out
      ensures pos' == ReadRows(file, offset, n, pb, row + 1).pos
    {
      var pixels := ReadAt(file, pos, n);
      var b := Blit(x, y + row, x + w - 1, y + row, Reverse(pixels));
      assert bs[row] == b && ReadRows(file, offset, n, pb, row + 1).pos == pos + |pixels| + pb by {
        ImageBlitAt(file, offset, n, pb, h, x, y, w, row);
      }
      out := Send(b, true, true);
      BlitsLoopStep(t0, bs, row, h, true, true);
      pos' := pos + |pixels| + pb;
    }

    /// `draw_image(path, x, y)` on the file's bytes.
    method DrawImage(file: seq<byte>, x: int, y: int) returns (out: Outcome)
      modifies this
      ensures var r := ImageRun(Geometry(), file, x, y); trace == old(trace) + r.events && out == r.out
    {
      var props := GetImageProperties(file);
      if props.Err? {
        return Raised(props.error);
      }
      var pr := props.value;
      out := ImageRows(file, x, y, pr.width, pr.offset, pr.width * (pr.bpp / 8), pr.padding, pr.height);
    }

    /// The loop of `load_sprite`: `count` reads of `n` bytes from `offset`,
    /// each appended reversed to `raw_data`, then `f.seek(pb, 1)`.
    method SpriteRows(file: seq<byte>, offset: nat, n: nat, pb: nat, count: nat) returns (raw: seq<byte>)
      ensures raw == Unpack(ReadRows(file, offset, n, pb, count).rows)
    {
      var pos := offset;
      raw := [];
      for b := 0 to count
        invariant pos == ReadRows(file, offset, n, pb, b).pos
        invariant raw == Unpack(ReadRows(file, offset, n, pb, b).rows)
      {
        var row := ReadAt(file, pos, n);
        UnpackSnoc(ReadRows(file, offset, n, pb, b).rows, row);
        raw := raw + Reverse(row);
        pos := pos + |row| + pb;
      }
    }

    /// `load_sprite(path)` on the file's bytes.
    method LoadSprite(file: seq<byte>) returns (r: Result<Sprite>)
      ensures r == Bitmap.LoadSprite(Geometry(), file)
    {
      var header := file[..Min(HeaderSize, |file|)];
      if |header| < 2 || header[..2] != Signature {
        return Err(TypeError);
      }
      if |header| < 0x1A {
        return Err(IndexError);
      }
      var offset, w, h := Field(header, 0x0A), Field(header, 0x12), Field(header, 0x16);
      if w > width || h > height {
        return Err(ValueError);
      }
      if |header| < 0x26 {
        return Err(IndexError);
      }
      var dataSize := Field(header, 0x22);
      var bpp := header[0x1C] as nat + header[0x1D] as nat * 256;
      assert bpp == SpriteDepth(header);
      if bpp / 8 != colorBytes {
        return Err(TypeError);
      }
      var padding := (w * colorBytes) % 4;
      if w == 0 {
        return Err(ValueError);
      }
      ghost var n := RowBytes(w, Geometry().colorBytes);
      assert w * colorBytes == n && padding == n % 4;
      var raw := SpriteRows(file, offset, w * colorBytes, padding, RangeLen(0, dataSize, w));
      if |raw| % w != 0 {
        return Err(UserWarning);
      }
      if h == 0 {
        return Err(ZeroDivisionError);
      }
      if |raw| % h != 0 {
        return Err(UserWarning);
      }
      return Ok(Sprite(raw, w, h));
    }

    /// The `rotate_180` loop of `draw_letter`: a zeroed buffer of the same
    /// length receives pixel `i` of `buf` as pixel `num_pixels - 1 - i`.
    method Rotate180(buf: seq<byte>) returns (r: seq<byte>)
      ensures r == Rotated(buf)
    {
      var newBuf := new byte[|buf|](_ => 0);
      var numPixels := |buf| / 2;
      ghost var rotated := Rotated(buf);
      for i := 0 to numPixels
        invariant forall k :: 0 <= k < |buf| ==>
          newBuf[k] == if 2 * (numPixels - i) <= k < 2 * numPixels then rotated[k] else 0
      {
        var newIdx, oldIdx := (numPixels - 1 - i) * 2, i * 2;
        RotatedPixel(buf, numPixels - 1 - i);
        newBuf[newIdx], newBuf[newIdx + 1] := buf[oldIdx], buf[oldIdx + 1];
      }
      r := newBuf[..];
    }

    /// `draw_letter(x, y, letter, font, ...)`: returns the glyph's `w` and
    /// `h` as the source reports them.
    method DrawLetter(x: int, y: int, c: char, font: Font, style: Style) returns (w: int, h: int, out: Outcome)
      modifies this
      ensures var l := LetterRun(Geometry(), font, style, x, y, c);
        trace == old(trace) + l.run.events && out == l.run.out && w == l.w && h == l.h
    {
      var g := font(c, style.color, style.background, style.landscape);
      var buf := g.buf;
      if style.rotate180 {
        buf := Rotate180(buf);
      }
      if g.w == 0 {
        assert old(trace) + [] == old(trace);
        return g.w, g.h, Done;
      }
      if style.landscape {
        var top := y - g.w;
        if IsOffGrid(Geometry(), x, top, x + g.h - 1, top + g.w - 1) {
          assert old(trace) + [] == old(trace);
          return 0, 0, Done;
        }
        out := Block(x, top, x + g.h - 1, top + g.w - 1, buf, true, true);
      } else {
        if IsOffGrid(Geometry(), x, y, x + g.w - 1, y + g.h - 1) {
          assert old(trace) + [] == old(trace);
          return 0, 0, Done;
        }
        out := Block(x, y, x + g.w - 1, y + g.h - 1, buf, true, true);
      }
      w, h := g.w, g.h;
    }

    /// One iteration of `draw_text`'s loop with the pen at `(x, y)`: the
    /// letter, and unless it reports a zero size, the gap after it.
    method TextLetter(x: int, y: int, c: char, font: Font, style: Style) returns (w: int, h: int, out: Outcome)
      modifies this
      ensures var l := LetterRun(Geometry(), font, style, x, y, c);
        var r := if l.w == 0 || l.h == 0 then l.run else Then(l.run, GapRun(Geometry(), style, x, y, l.w, l.h));
        trace == old(trace) + r.events && out == r.out && w == l.w && h == l.h
    {
      w, h, out := DrawLetter(x, y, c, font, style);
      if w == 0 || h == 0 || out.Raised? {
        return;
      }
      ghost var letter := LetterRun(Geometry(), font, style, x, y, c).run;
      if style.spacing != 0 {
        if style.landscape {
          out := FillHRect(x, y - w - style.spacing, h, style.spacing, style.background);
        } else {
          out := FillHRect(x + w, y, style.spacing, h, style.background);
        }
      } else {
        assert trace == old(trace) + letter.events + [];
      }
      ThenTrace(old(trace), letter, GapRun(Geometry(), style, x, y, w, h));
    }

    /// `draw_text(x, y, text, font, ...)`: the letters in visiting order
    /// until one reports a zero size.
    method DrawText(x: int, y: int, text: seq<char>, font: Font, style: Style) returns (out: Outcome)
      modifies this
      ensures var r := TextRun(Geometry(), font, style, x, y, text); trace == old(trace) + r.events && out == r.out
    {
      var letters := if style.rotate180 then Reverse(text) else text;
      assert letters == Visit(text, style.rotate180);
      out := TextLetters(x, y, letters, font, style);
    }

    /// `draw_text`'s loop over the letters in visiting order.
    method TextLetters(x: int, y: int, letters: seq<char>, font: Font, style: Style) returns (out: Outcome)
      modifies this
      ensures var r := TextSteps(Geometry(), font, style, x, y, letters); trace == old(trace) + r.events && out == r.out
    {
      ghost var p := Geometry();
      var px, py := x, y;
      out := Done;
      for i := 0 to |letters|
        invariant AllDrawn(p, font, style, x, y, letters[..i])
        invariant (px, py) == Pen(p, font, style, x, y, letters[..i])
        invariant out == Done
        invariant TextSteps(p, font, style, x, y, letters[..i]).out == Done
        invariant trace == old(trace) + TextSteps(p, font, style, x, y, letters[..i]).events
      {
        var stop;
        px, py, stop, out := TextStep(x, y, letters, i, px, py, font, style, old(trace));
        if stop {
          return;
        }
      }
      assert letters[..|letters|] == letters;
    }

    /// One turn of `draw_text`'s loop over `letters`, at letter `i` with the
    /// pen at `(px, py)`: `stop` when the letter reported a zero size or
    /// something raised, and then the whole text has been sent.
    method TextStep(ghost x: int, ghost y: int, letters: seq<char>, i: nat, px: int, py: int,
                    font: Font, style: Style, ghost t0: seq<Event>)
      returns (px': int, py': int, stop: bool, out: Outcome)
      requires i < |letters|
      requires AllDrawn(Geometry(), font, style, x, y, letters[..i])
      requires (px, py) == Pen(Geometry(), font, style, x, y, letters[..i])
      requires TextSteps(Geometry(), font, style, x, y, letters[..i]).out == Done
      requires trace == t0 + TextSteps(Geometry(), font, style, x, y, letters[..i]).events
      modifies this
      ensures stop ==> var r := TextSteps(Geometry(), font, style, x, y, letters);
        trace == t0 + r.events && out == r.out
      ensures !stop ==> out == Done && AllDrawn(Geometry(), font, style, x, y, letters[..i + 1])
      ensures !stop ==> (px', py') == Pen(Geometry(), font, style, x, y, letters[..i + 1])
      ensures !stop ==> TextSteps(Geometry(), font, style, x, y, letters[..i + 1]).out == Done
      ensures !stop ==> trace == t0 + TextSteps(Geometry(), font, style, x, y, letters[..i + 1]).events
    {
      var w, h;
      w, h, out := TextLetter(px, py, letters[i], font, style);
      TextStepDone(Geometry(), font, style, x, y, letters, i, px, py, t0, trace, w, h, out);
      if w == 0 || h == 0 || out.Raised? {
        return px, py, true, out;
      }
      stop := false;
      px', py' := Advance(style, px, py, w).0, Advance(style, px, py, w).1;
    }

    /// `draw_line` past the fast paths, on the normalised line `L`: CS low,
    /// the segments, CS high.
    method DrawSegments(L: Line, enc: seq<byte>) returns (out: Outcome)
      requires L.u0 <= L.u1
      modifies this
      ensures var r := Then(Emit([CS(Low)]),
                            Then(BlitsRun(SegmentBlits(L, enc, Segments(L)), false, false), Emit([CS(High)])));
        trace == old(trace) + r.events && out == r.out
    {
      SetCS(Low);
      ghost var t1 := trace;
      ghost var segs := BlitsRun(SegmentBlits(L, enc, Segments(L)), false, false);
      out := SendSegments(L, enc);
      if out.Raised? {
        ConcatAssoc(old(trace), [CS(Low)], segs.events);
        return;
      }
      SetCS(High);
      ConcatAssoc(t1, segs.events, [CS(High)]);
      ConcatAssoc(old(trace), [CS(Low)], segs.events + [CS(High)]);
    }

    /// The segments of `draw_line` with CS held low: those of the walk, then
    /// the remainder `temp - 1` when it is not zero.
    method SendSegments(L: Line, enc: seq<byte>) returns (out: Outcome)
      requires L.u0 <= L.u1
      modifies this
      ensures var r := BlitsRun(SegmentBlits(L, enc, Segments(L)), false, false);
        trace == old(trace) + r.events && out == r.out
    {
      ghost var w := WalkTo(L, L.u1 - L.u0 + 1);
      ghost var loop := BlitsRun(SegmentBlits(L, enc, w.segs), false, false);
      ghost var last := SegmentBlit(L, enc, Segment(L.u1, w.yi, w.temp - 1));
      assert BlitsRun(SegmentBlits(L, enc, Segments(L)), false, false) ==
             if w.temp - 1 != 0 then Then(loop, BlockRun(last, false, false)) else loop by {
        LineTail(L, enc);
      }
      var yi, temp;
      yi, temp, out := WalkSegments(L, enc);
      if out.Raised? {
        return;
      }
      temp := temp - 1;
      if temp != 0 {
        var seg := SegmentBlit(L, enc, Segment(L.u1, yi, temp));
        out := Send(seg, false, false);
        ThenTrace(old(trace), loop, BlockRun(seg, false, false));
      }
    }
  }
}
