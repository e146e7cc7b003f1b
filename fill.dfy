/// Chunked fills: `clear` sizes its chunks from `MAX_BYTES`, `fill_hrect` from
/// a fixed pool of 1024 pixels, `draw_hline`/`draw_vline` are one block each
/// and `draw_sprite` sends one block or splits the sprite by rows.
module Fill {
  import opened Builtins
  import opened Bus
  import opened Panel
  import opened Window

  /// `(MAX_BYTES // 3) // width`: rows per chunk in `clear`.
  function ClearChunkHeight(p: Panel): nat
    requires Valid(p)
  {
    (p.maxBytes / 3) / p.width
  }

  /// `clear(color)`: opens the whole panel without deselecting, then streams
  /// the colour in chunks.
  function ClearRun(p: Panel, color: int): Run
    requires Valid(p)
  {
    var w, h := p.width, p.height;
    var ch := ClearChunkHeight(p);
    if ch == 0 then Fail(ZeroDivisionError)
    else match IntToBytes(color, p.colorBytes)
      case None => Fail(OverflowError)
      case Some(enc) =>
        Then(RunSeqRun(WindowCmds(0, 0, w - 1, h - 1, NoData), true, false),
             Emit(ClearStream(enc, ch, w, h)))
  }

  /// What `clear` sends after RAMWR: DC high, one full chunk per step of
  /// `range(0, h, chunk_height)`, `color * remainder * final_chunk_height`
  /// if the remainder is not zero (one repetition of `remainder *
  /// final_chunk_height` copies, by ClearTail), and CS high.
  function ClearStream(enc: seq<byte>, ch: int, w: int, h: int): seq<Event>
    requires ch > 0
  {
    var finalChunkHeight, remainder := h / ch, h % ch;
    [DC(High)] + Rep([Write(Rep(enc, ch * w))], RangeLen(0, h, ch))
    + (if remainder != 0 then [Write(Rep(enc, remainder * finalChunkHeight))] else [])
    + [CS(High)]
  }

  /// The window opening `clear` sends, once CS is low.
  function ClearWindow(p: Panel): seq<Event>
    requires InWord(p.width - 1) && InWord(p.height - 1)
  {
    [DC(Low), Write([CASET]), DC(High), Write(Word16(0) + Word16(p.width - 1)),
     DC(Low), Write([PASET]), DC(High), Write(Word16(0) + Word16(p.height - 1)),
     DC(Low), Write([RAMWR])]
  }

  lemma ChunkFitsBudget(p: Panel)
    requires Valid(p)
    ensures ClearChunkHeight(p) * p.width * p.colorBytes <= p.maxBytes
  {
    var ch, w, cb := ClearChunkHeight(p), p.width, p.colorBytes;
    assert ch * w <= p.maxBytes / 3;
    assert ch * w * cb <= (p.maxBytes / 3) * cb;
    assert (p.maxBytes / 3) * cb <= (p.maxBytes / 3) * 3;
  }

  /// `clear` raises ZeroDivisionError before sending anything when a row is
  /// wider than a third of the budget, and OverflowError when the colour does
  /// not fit in the panel's colour bytes.
  lemma ClearGuards(p: Panel, color: int)
    requires Valid(p)
    ensures ClearChunkHeight(p) == 0 ==> ClearRun(p, color) == Fail(ZeroDivisionError)
    ensures ClearChunkHeight(p) > 0 && !(0 <= color < Pow256(p.colorBytes)) ==>
      ClearRun(p, color) == Fail(OverflowError)
  {
  }

  lemma ClearOpening(p: Panel)
    requires Valid(p) && InWord(p.width - 1) && InWord(p.height - 1)
    ensures RunSeqRun(WindowCmds(0, 0, p.width - 1, p.height - 1, NoData), true, false) ==
            Emit([CS(Low)] + ClearWindow(p))
  {
    var cmds := WindowCmds(0, 0, p.width - 1, p.height - 1, NoData);
    CoordArgsBytes(0, p.width - 1);
    CoordArgsBytes(0, p.height - 1);
    SeqRunThree(cmds[0], cmds[1], cmds[2]);
    assert cmds == [cmds[0], cmds[1], cmds[2]];
  }

  lemma MulMono(a: int, b: int, c: int)
    requires a <= b && c >= 0
    ensures a * c <= b * c
  {
    assert b * c - a * c == (b - a) * c;
  }

  /// `range(0, h, ch)` has `ceil(h / ch)` steps: they reach `h`, and pass it
  /// exactly when `ch` does not divide `h`.
  lemma ChunkCover(h: int, ch: int)
    requires h > 0 && ch > 0
    ensures var n := RangeLen(0, h, ch);
      (n - 1) * ch < h <= n * ch && (h % ch != 0 <==> h < n * ch) &&
      (h % ch == 0 ==> n == h / ch)
  {
    var n, q, r := RangeLen(0, h, ch), h / ch, h % ch;
    assert h == q * ch + r;
    if n <= q - 1 {
      MulMono(n, q - 1, ch);
    }
    assert q <= n;
    if r == 0 {
      if q <= n - 1 {
        MulMono(q, n - 1, ch);
      }
      assert n == q;
    } else {
      if n <= q {
        MulMono(n, q, ch);
      }
      MulMono(q + 1, n, ch);
      assert (q + 1) * ch == q * ch + ch;
    }
  }

  /// Repeating `color` `remainder` times and the result `final_chunk_height`
  /// times is one repetition of their product.
  lemma ClearTail(enc: seq<byte>, rem: int, fch: int)
    requires rem > 0 && fch >= 0
    ensures Rep(Rep(enc, rem), fch) == Rep(enc, rem * fch)
  {
    if fch > 0 {
      RepRep(enc, rem, fch);
    } else {
      assert rem * fch == 0;
    }
  }

  lemma ClearStreamShape(enc: seq<byte>, ch: int, w: int, h: int)
    requires ch > 0 && h > 0
    ensures var e := ClearStream(enc, ch, w, h);
      var n := RangeLen(0, h, ch);
      var tail := if h % ch != 0 then 1 else 0;
      |e| == n + tail + 2 && e[0] == DC(High) && e[|e| - 1] == CS(High) &&
      (forall k :: 1 <= k <= n ==> e[k] == Write(Rep(enc, ch * w))) &&
      (tail == 1 ==> e[n + 1] == Write(Rep(enc, (h % ch) * (h / ch))))
  {
    var n := RangeLen(0, h, ch);
    var chunk := Rep(enc, ch * w);
    var writes := Rep([Write(chunk)], n);
    var rem, fch := h % ch, h / ch;
    var tailEvents := if rem != 0 then [Write(Rep(enc, rem * fch))] else [];
    var e := ClearStream(enc, ch, w, h);
    assert e == [DC(High)] + writes + tailEvents + [CS(High)];
    RepSingle(Write(chunk), n);
    forall k | 1 <= k <= n ensures e[k] == Write(chunk) {
      assert e[k] == writes[k - 1];
    }
    if rem != 0 {
      assert e[n + 1] == tailEvents[0];
    }
  }

  lemma ClearWindowNoCS(p: Panel)
    requires InWord(p.width - 1) && InWord(p.height - 1)
    ensures CS(Low) !in ClearWindow(p) && CS(High) !in ClearWindow(p)
  {
    var win := ClearWindow(p);
    assert forall k :: 0 <= k < |win| ==> !win[k].CS?;
  }

  /// For a colour that fits and a chunk height above zero, `clear` opens the
  /// window (0, 0)-(w-1, h-1) with CS low, raises DC, and writes
  /// `ceil(h / chunk_height)` identical chunks of `chunk_height * w` pixels
  /// (each no larger than `MAX_BYTES`, by ChunkFitsBudget, and together
  /// reaching or passing row `h`, by ChunkCover); then the remainder write of
  /// `(h % chunk_height) * (h // chunk_height)` pixels if the remainder is
  /// non-zero, and finally CS high, all within one CS-low span.
  lemma ClearChunks(p: Panel, color: int)
    requires Valid(p) && ClearChunkHeight(p) > 0 && 0 <= color < Pow256(p.colorBytes)
    requires InWord(p.width - 1) && InWord(p.height - 1)
    ensures var r := ClearRun(p, color);
      var ch, h := ClearChunkHeight(p), p.height;
      var n := RangeLen(0, h, ch);
      var enc := BigEndian(color, p.colorBytes);
      var tail := if h % ch != 0 then 1 else 0;
      r.out == Done && |r.events| == 12 + n + tail + 1 &&
      r.events[..11] == [CS(Low)] + ClearWindow(p) && r.events[11] == DC(High) &&
      (forall k :: 12 <= k < 12 + n ==> r.events[k] == Write(Rep(enc, ch * p.width))) &&
      (tail == 1 ==> r.events[12 + n] == Write(Rep(enc, (h % ch) * (h / ch)))) &&
      r.events[|r.events| - 1] == CS(High) &&
      CS(Low) !in r.events[1..] && CS(High) !in r.events[..|r.events| - 1]
  {
    var ch, w, h := ClearChunkHeight(p), p.width, p.height;
    var enc := BigEndian(color, p.colorBytes);
    ClearOpening(p);
    ClearStreamShape(enc, ch, w, h);
    var opening := [CS(Low)] + ClearWindow(p);
    var stream := ClearStream(enc, ch, w, h);
    var r := ClearRun(p, color);
    assert r == Then(Emit(opening), Emit(stream));
    assert r.events == opening + stream;
    var n := RangeLen(0, h, ch);
    forall k | 12 <= k < 12 + n ensures r.events[k] == Write(Rep(enc, ch * w)) {
      assert r.events[k] == stream[k - 11];
    }
    ClearWindowNoCS(p);
    assert opening[1..] == ClearWindow(p);
    assert r.events[1..] == ClearWindow(p) + stream;
    assert r.events[..|r.events| - 1] == [CS(Low)] + ClearWindow(p) + stream[..|stream| - 1];
    forall k | 0 <= k < |stream| - 1 ensures stream[k] != CS(High) && stream[k] != CS(Low) {
      if 1 <= k <= n {
      } else if k > 0 {
        assert k == n + 1;
      }
    }
    assert CS(High) !in stream[..|stream| - 1];
    assert CS(Low) !in stream;
  }

  /// The blocks of `fill_hrect` once `divmod(h, chunk_height)` is known:
  /// `chunk_count` full chunks of `chunk_height` rows (none when the count is
  /// not positive), then a remainder block of `remainder` rows if it is not zero.
  function FillBlits(x: int, y: int, w: int, ch: int, count: int, rem: int, enc: seq<byte>): seq<Blit>
  {
    var n := if count > 0 then count else 0;
    var cy := y + n * ch;
    ChunkBlits(x, y, w, ch, n, enc)
    + (if rem != 0 then [Blit(x, cy, x + w - 1, cy + rem - 1, Rep(Rep(enc, rem), w))] else [])
  }

  /// The `n` full chunks of `fill_hrect`, `ch` rows each, from row `y` down.
  function ChunkBlits(x: int, y: int, w: int, ch: int, n: nat, enc: seq<byte>): (bs: seq<Blit>)
    ensures |bs| == n
  {
    seq(n, k => ChunkBlit(x, y + k * ch, w, ch, enc))
  }

  /// One full chunk of `fill_hrect` at row `cy`: `ch` rows of `w` pixels.
  function ChunkBlit(x: int, cy: int, w: int, ch: int, enc: seq<byte>): (b: Blit)
    ensures b.x0 == x && b.x1 == x + w - 1 && b.y0 == cy && b.y1 == cy + ch - 1
  {
    Blit(x, cy, x + w - 1, cy + ch - 1, Rep(enc, ch * w))
  }

  /// One more block runs after the others, unless they raised.
  lemma BlitsRunSnoc(bs: seq<Blit>, b: Blit, select: bool, deselect: bool)
    ensures BlitsRun(bs + [b], select, deselect) == Then(BlitsRun(bs, select, deselect), BlockRun(b, select, deselect))
  {
    assert (bs + [b])[..|bs|] == bs;
  }

  /// The blocks of `fill_hrect` are its chunks, then its remainder block:
  /// if the chunks raised, the remainder is never drawn.
  lemma FillTail(x: int, y: int, w: int, ch: int, count: int, rem: int, enc: seq<byte>, cy: int)
    requires cy == y + RangeLen(0, count, 1) * ch
    ensures var chunks := BlitsRun(ChunkBlits(x, y, w, ch, RangeLen(0, count, 1), enc), true, true);
      rem == 0 ==> BlitsRun(FillBlits(x, y, w, ch, count, rem, enc), true, true) == chunks
    ensures var chunks := BlitsRun(ChunkBlits(x, y, w, ch, RangeLen(0, count, 1), enc), true, true);
      var last := Blit(x, cy, x + w - 1, cy + rem - 1, Rep(Rep(enc, rem), w));
      rem != 0 ==> BlitsRun(FillBlits(x, y, w, ch, count, rem, enc), true, true) ==
                   Then(chunks, BlockRun(last, true, true))
  {
    var n := RangeLen(0, count, 1);
    var last := Blit(x, cy, x + w - 1, cy + rem - 1, Rep(Rep(enc, rem), w));
    assert n == if count > 0 then count else 0;
    FillBlitsSplit(x, y, w, ch, count, rem, enc, n, last);
    BlitsRunTail(FillBlits(x, y, w, ch, count, rem, enc), ChunkBlits(x, y, w, ch, n, enc), last, rem != 0);
  }

  /// Blocks followed by an optional last block run as the blocks, then the
  /// last one unless they raised.
  lemma BlitsRunTail(all: seq<Blit>, bs: seq<Blit>, last: Blit, more: bool)
    requires all == bs + (if more then [last] else [])
    ensures !more ==> BlitsRun(all, true, true) == BlitsRun(bs, true, true)
    ensures more ==> BlitsRun(all, true, true) == Then(BlitsRun(bs, true, true), BlockRun(last, true, true))
  {
    if more {
      BlitsRunSnoc(bs, last, true, true);
    } else {
      assert bs + [] == bs;
    }
  }

  lemma FillBlitsSplit(x: int, y: int, w: int, ch: int, count: int, rem: int, enc: seq<byte>, n: nat, last: Blit)
    requires n == if count > 0 then count else 0
    requires last == Blit(x, y + n * ch, x + w - 1, y + n * ch + rem - 1, Rep(Rep(enc, rem), w))
    ensures FillBlits(x, y, w, ch, count, rem, enc) ==
            ChunkBlits(x, y, w, ch, n, enc) + (if rem != 0 then [last] else [])
  {
  }

  /// `fill_hrect(x, y, w, h, color)`: nothing when the rectangle is off the
  /// grid; ZeroDivisionError when `1024 // w` or `divmod(h, chunk_height)`
  /// divides by zero; the colour always encoded on 2 bytes, and only when
  /// there is a chunk or a remainder to draw.
  function FillHRectRun(p: Panel, x: int, y: int, w: int, h: int, color: int): Run
  {
    if IsOffGrid(p, x, y, x + w - 1, y + h - 1) then Emit([])
    else if w == 0 then Fail(ZeroDivisionError)
    else
      var ch := FloorDiv(1024, w);
      if ch == 0 then Fail(ZeroDivisionError)
      else
        var count, rem := FloorDiv(h, ch), FloorMod(h, ch);
        match IntToBytes(color, 2)
        case None => if count != 0 || rem != 0 then Fail(OverflowError) else Emit([])
        case Some(enc) => BlitsRun(FillBlits(x, y, w, ch, count, rem, enc), true, true)
  }

  /// `fill_hrect` sends nothing for an off-grid rectangle, and raises
  /// ZeroDivisionError without sending anything for an on-grid one of width
  /// 0 or wider than 1024 pixels. On the grid, 1 to 1024 pixels wide and at
  /// least one row high, a colour that does not fit 2 bytes raises
  /// OverflowError before anything is sent; a 16-bit colour draws the blocks of FillBlits for
  /// `chunk_height = 1024 // w`, whose chunk count and remainder add back up
  /// to `h` rows.
  lemma FillHRectShape(p: Panel, x: int, y: int, w: int, h: int, color: int)
    ensures IsOffGrid(p, x, y, x + w - 1, y + h - 1) ==> FillHRectRun(p, x, y, w, h, color) == Emit([])
    ensures !IsOffGrid(p, x, y, x + w - 1, y + h - 1) && w > 1024 ==>
      FillHRectRun(p, x, y, w, h, color) == Fail(ZeroDivisionError)
    ensures !IsOffGrid(p, x, y, x + w - 1, y + h - 1) && w == 0 ==>
      FillHRectRun(p, x, y, w, h, color) == Fail(ZeroDivisionError)
    ensures !IsOffGrid(p, x, y, x + w - 1, y + h - 1) && 1 <= w <= 1024 && h >= 1 && !(0 <= color < 0x1_0000) ==>
      FillHRectRun(p, x, y, w, h, color) == Fail(OverflowError)
    ensures !IsOffGrid(p, x, y, x + w - 1, y + h - 1) && 1 <= w <= 1024 && h >= 1 && 0 <= color < 0x1_0000 ==>
      var ch := 1024 / w;
      var count, rem := h / ch, h % ch;
      ch >= 1 && count >= 0 && 0 <= rem < ch && count * ch + rem == h &&
      FillHRectRun(p, x, y, w, h, color) ==
        BlitsRun(FillBlits(x, y, w, ch, count, rem, BigEndian(color, 2)), true, true)
  {
    var off := IsOffGrid(p, x, y, x + w - 1, y + h - 1);
    if !off && w > 1024 {
      DivPositive(1024, w);
    }
    if !off && 1 <= w <= 1024 && h >= 1 && !(0 <= color < 0x1_0000) {
      ChunkSplit(w, h);
      assert IntToBytes(color, 2) == None by {
        assert Pow256(2) == 0x1_0000;
      }
      var ch := 1024 / w;
      assert h / ch != 0 || h % ch != 0;
    }
    if !off && 1 <= w <= 1024 && h >= 1 && 0 <= color < 0x1_0000 {
      ChunkSplit(w, h);
      assert IntToBytes(color, 2) == Some(BigEndian(color, 2)) by {
        assert Pow256(2) == 0x1_0000;
      }
    }
  }

  /// `chunk_height = 1024 // w`, and `h` rows split into `h // chunk_height`
  /// chunks and `h % chunk_height` rows.
  lemma ChunkSplit(w: int, h: int)
    requires 1 <= w <= 1024 && h >= 1
    ensures var ch := 1024 / w;
      ch >= 1 && FloorDiv(1024, w) == ch &&
      FloorDiv(h, ch) == h / ch && FloorMod(h, ch) == h % ch &&
      h / ch >= 0 && 0 <= h % ch < ch && h / ch * ch + h % ch == h
  {
    DivPositive(1024, w);
    var ch := 1024 / w;
    assert h == ch * (h / ch) + h % ch;
  }

  /// Block `k` of `fill_hrect`: a full chunk before `chunk_count`, the
  /// remainder block at `chunk_count`.
  lemma FillBlitAt(x: int, y: int, w: int, ch: int, count: int, rem: int, enc: seq<byte>, k: nat)
    requires count >= 0 && 0 <= rem && w >= 1
    requires k < |FillBlits(x, y, w, ch, count, rem, enc)|
    ensures |FillBlits(x, y, w, ch, count, rem, enc)| == count + (if rem != 0 then 1 else 0)
    ensures var b := FillBlits(x, y, w, ch, count, rem, enc)[k];
      var top := y + k * ch;
      (k < count ==> b == Blit(x, top, x + w - 1, top + ch - 1, Rep(enc, ch * w))) &&
      (k >= count ==> k == count && rem != 0 &&
                      b == Blit(x, top, x + w - 1, top + rem - 1, Rep(enc, rem * w)))
  {
    if k >= count {
      RepRep(enc, rem, w);
    }
  }

  /// Every block of `fill_hrect` spans columns x..x+w-1 and is between one
  /// row and `chunk_height` rows tall, exactly `chunk_height` unless it is the
  /// last, and carries the colour once per pixel of its window.
  lemma FillBlocks(x: int, y: int, w: int, ch: int, count: int, rem: int, enc: seq<byte>)
    requires w >= 1 && ch >= 1 && count >= 0 && 0 <= rem < ch
    ensures var bs := FillBlits(x, y, w, ch, count, rem, enc);
      forall k :: 0 <= k < |bs| ==>
        bs[k].x0 == x && bs[k].x1 == x + w - 1 &&
        1 <= bs[k].y1 - bs[k].y0 + 1 <= ch &&
        (k < |bs| - 1 ==> bs[k].y1 - bs[k].y0 + 1 == ch) &&
        bs[k].data == Rep(enc, (bs[k].y1 - bs[k].y0 + 1) * w)
  {
    var bs := FillBlits(x, y, w, ch, count, rem, enc);
    forall k | 0 <= k < |bs|
      ensures bs[k].x0 == x && bs[k].x1 == x + w - 1
      ensures 1 <= bs[k].y1 - bs[k].y0 + 1 <= ch
      ensures k < |bs| - 1 ==> bs[k].y1 - bs[k].y0 + 1 == ch
      ensures bs[k].data == Rep(enc, (bs[k].y1 - bs[k].y0 + 1) * w)
    {
      FillBlitAt(x, y, w, ch, count, rem, enc, k);
    }
  }

  /// The blocks of `fill_hrect` start at row y, follow one another with no
  /// gap or overlap, and end at row `y + chunk_count * chunk_height +
  /// remainder - 1`, which is y+h-1: together they cover the rectangle's rows
  /// exactly once.
  lemma FillRows(x: int, y: int, w: int, ch: int, count: int, rem: int, enc: seq<byte>)
    requires w >= 1 && ch >= 1 && count >= 0 && 0 <= rem < ch && count + rem >= 1
    ensures var bs := FillBlits(x, y, w, ch, count, rem, enc);
      |bs| >= 1 && bs[0].y0 == y && bs[|bs| - 1].y1 == y + count * ch + rem - 1 &&
      forall k :: 0 <= k < |bs| - 1 ==> bs[k + 1].y0 == bs[k].y1 + 1
  {
    var bs := FillBlits(x, y, w, ch, count, rem, enc);
    FillBlitAt(x, y, w, ch, count, rem, enc, 0);
    forall k | 0 <= k < |bs| - 1 ensures bs[k + 1].y0 == bs[k].y1 + 1 {
      FillBlitAt(x, y, w, ch, count, rem, enc, k);
      FillBlitAt(x, y, w, ch, count, rem, enc, k + 1);
      assert (k + 1) * ch == k * ch + ch;
    }
    FillBlitAt(x, y, w, ch, count, rem, enc, |bs| - 1);
    if rem == 0 {
      assert (count - 1) * ch + ch == count * ch;
    }
  }

  /// `draw_hline(x, y, l, color)`: one row of `l` pixels.
  function HLineRun(p: Panel, x: int, y: int, l: int, color: int): Run
  {
    match IntToBytes(color, p.colorBytes)
    case None => Fail(OverflowError)
    case Some(enc) => BlockRun(Blit(x, y, x + l - 1, y, Rep(enc, l)), true, true)
  }

  /// `draw_vline(x, y, l, color)`: one column of `l` pixels.
  function VLineRun(p: Panel, x: int, y: int, l: int, color: int): Run
  {
    match IntToBytes(color, p.colorBytes)
    case None => Fail(OverflowError)
    case Some(enc) => BlockRun(Blit(x, y, x, y + l - 1, Rep(enc, l)), true, true)
  }

  /// On a 16-bit panel, an on-grid horizontal line up to 1024 pixels long is
  /// the one-row rectangle `fill_hrect` draws: the same single block.
  lemma HLineIsOneRowFill(p: Panel, x: int, y: int, l: int, color: int)
    requires p.colorBytes == 2 && 1 <= l <= 1024 && 0 <= color < 0x1_0000
    requires !IsOffGrid(p, x, y, x + l - 1, y)
    ensures HLineRun(p, x, y, l, color) == FillHRectRun(p, x, y, l, 1, color)
  {
    var ch := 1024 / l;
    var enc := BigEndian(color, 2);
    var count, rem := 1 / ch, 1 % ch;
    var bs := FillBlits(x, y, l, ch, count, rem, enc);
    var b := Blit(x, y, x + l - 1, y, Rep(enc, l));
    assert FillHRectRun(p, x, y, l, 1, color) == BlitsRun(bs, true, true) by {
      FillHRectShape(p, x, y, l, 1, color);
    }
    DivPositive(1024, l);
    OneRowBlits(x, y, l, ch, enc);
    assert HLineRun(p, x, y, l, color) == BlockRun(b, true, true) by {
      assert Pow256(2) == 0x1_0000;
    }
    assert [b][..0] == [];
    assert BlitsRun([b], true, true) == Then(BlitsRun([], true, true), BlockRun(b, true, true));
    ThenEmitNil(BlockRun(b, true, true));
  }

  /// One row split into chunks of `ch` rows is a single block.
  lemma OneRowBlits(x: int, y: int, l: int, ch: int, enc: seq<byte>)
    requires ch >= 1
    ensures FillBlits(x, y, l, ch, 1 / ch, 1 % ch, enc) == [Blit(x, y, x + l - 1, y, Rep(enc, l))]
  {
    var bs := FillBlits(x, y, l, ch, 1 / ch, 1 % ch, enc);
    var b := Blit(x, y, x + l - 1, y, Rep(enc, l));
    DivOne(ch);
    if ch == 1 {
      var cb := ChunkBlits(x, y, l, 1, 1, enc);
      assert cb[0] == Blit(x, y + 0 * 1, x + l - 1, y + 0 * 1 + 1 - 1, Rep(enc, 1 * l));
      assert |bs| == 1 && bs[0] == cb[0] && cb[0] == b;
    } else {
      assert Rep(enc, 1) == enc + [] == enc;
      var last := Blit(x, y + 0 * ch, x + l - 1, y + 0 * ch + 1 - 1, Rep(Rep(enc, 1), l));
      assert bs == ChunkBlits(x, y, l, ch, 0, enc) + [last];
      assert |bs| == 1 && bs[0] == last && last == b;
    }
    assert bs == [b];
  }

  lemma DivOne(ch: int)
    requires ch >= 1
    ensures ch == 1 ==> 1 / ch == 1 && 1 % ch == 0
    ensures ch > 1 ==> 1 / ch == 0 && 1 % ch == 1
  {
  }

  /// On a 16-bit panel, an on-grid vertical line up to 1024 pixels long is
  /// the one-column rectangle `fill_hrect` draws: the same single block.
  lemma VLineIsOneColumnFill(p: Panel, x: int, y: int, l: int, color: int)
    requires p.colorBytes == 2 && 1 <= l <= 1024 && 0 <= color < 0x1_0000
    requires !IsOffGrid(p, x, y, x, y + l - 1)
    ensures VLineRun(p, x, y, l, color) == FillHRectRun(p, x, y, 1, l, color)
  {
    var enc := BigEndian(color, 2);
    var bs := FillBlits(x, y, 1, 1024, l / 1024, l % 1024, enc);
    var b := Blit(x, y, x, y + l - 1, Rep(enc, l));
    assert FillHRectRun(p, x, y, 1, l, color) == BlitsRun(bs, true, true) by {
      FillHRectShape(p, x, y, 1, l, color);
    }
    assert bs == [b] by {
      OneColumnBlits(x, y, l, enc);
    }
    assert VLineRun(p, x, y, l, color) == BlockRun(b, true, true) by {
      assert Pow256(2) == 0x1_0000;
    }
    assert [b][..0] == [];
    assert BlitsRun([b], true, true) == Then(BlitsRun([], true, true), BlockRun(b, true, true));
    ThenEmitNil(BlockRun(b, true, true));
  }

  /// One column up to 1024 pixels long is a single block of `fill_hrect`.
  lemma OneColumnBlits(x: int, y: int, l: int, enc: seq<byte>)
    requires 1 <= l <= 1024
    ensures FillBlits(x, y, 1, 1024, l / 1024, l % 1024, enc) == [Blit(x, y, x, y + l - 1, Rep(enc, l))]
  {
    if l == 1024 {
      assert l / 1024 == 1 && l % 1024 == 0;
      FullColumnBlits(x, y, enc);
    } else {
      assert l / 1024 == 0 && l % 1024 == l;
      ShortColumnBlits(x, y, l, enc);
    }
  }

  lemma FullColumnBlits(x: int, y: int, enc: seq<byte>)
    ensures FillBlits(x, y, 1, 1024, 1, 0, enc) == [Blit(x, y, x, y + 1023, Rep(enc, 1024))]
  {
    var bs := FillBlits(x, y, 1, 1024, 1, 0, enc);
    FillBlitAt(x, y, 1, 1024, 1, 0, enc, 0);
    assert |bs| == 1 && bs[0] == Blit(x, y, x, y + 1023, Rep(enc, 1024));
  }

  lemma ShortColumnBlits(x: int, y: int, l: int, enc: seq<byte>)
    requires 1 <= l < 1024
    ensures FillBlits(x, y, 1, 1024, 0, l, enc) == [Blit(x, y, x, y + l - 1, Rep(enc, l))]
  {
    var bs := FillBlits(x, y, 1, 1024, 0, l, enc);
    FillBlitAt(x, y, 1, 1024, 0, l, enc, 0);
    assert |bs| == 1 && bs[0] == Blit(x, y, x, y + l - 1, Rep(enc, l * 1));
  }

  /// The blocks of `draw_sprite`'s large branch: one per step of
  /// `range(y, y + h + 1, chunk_height)`, each `chunk_height + 1` rows tall and
  /// sliced from `i * w`, then the final `remainder` block.
  function SpriteBlits(data: seq<byte>, w: int, h: int, x: int, y: int, ch: int, rem: int): seq<Blit>
    requires ch != 0
  {
    seq(RangeLen(y, y + h + 1, ch), k => SpriteRow(data, w, x, y + k * ch, ch))
    + [Blit(x, y + h - rem, x + w - 1, y + h, Slice(data, (h - rem) * w, |data|))]
  }

  /// The block of `draw_sprite`'s loop at row `i`: `chunk_height + 1` rows
  /// whose bytes are sliced from `i * w`.
  function SpriteRow(data: seq<byte>, w: int, x: int, i: int, ch: int): (b: Blit)
    ensures b.x0 == x && b.x1 == x + w - 1 && b.y0 == i && b.y1 == i + ch
  {
    Blit(x, i, x + w - 1, i + ch, Slice(data, i * w, w * (i + ch)))
  }

  /// Block `k` of `draw_sprite`'s loop starts on row `y + k * chunk_height`.
  lemma SpriteBlitAt(data: seq<byte>, w: int, h: int, x: int, y: int, ch: int, rem: int, k: nat)
    requires ch != 0 && k <= RangeLen(y, y + h + 1, ch)
    ensures var bs := SpriteBlits(data, w, h, x, y, ch, rem);
      var n := RangeLen(y, y + h + 1, ch);
      var i := y + k * ch;
      |bs| == n + 1 &&
      (k < n ==> bs[k] == SpriteRow(data, w, x, i, ch)) &&
      bs[n] == Blit(x, y + h - rem, x + w - 1, y + h, Slice(data, (h - rem) * w, |data|))
  {
  }

  /// The bytes of a list of blocks, one block after the other.
  function BlitBytes(bs: seq<Blit>): seq<byte>
  {
    if bs == [] then [] else BlitBytes(bs[..|bs| - 1]) + bs[|bs| - 1].data
  }

  /// Two clamped slices that share a non-negative bound join into one.
  lemma SliceJoin<T>(s: seq<T>, a: int, b: int, c: int)
    requires 0 <= a <= b <= c
    ensures Slice(s, a, b) + Slice(s, b, c) == Slice(s, a, c)
  {
    var i, j, l := SliceBound(a, |s|), SliceBound(b, |s|), SliceBound(c, |s|);
    assert i <= j <= l;
    if i < j && j < l {
      assert s[i..j] + s[j..l] == s[i..l];
    }
  }

  /// The chunk blocks of `draw_sprite`'s large branch slice the data by
  /// `i * w`, where `i` is a screen row: each chunk's bytes end where the
  /// next chunk's begin, and the first k chunks together hold exactly the
  /// bytes from `y * w` to `(y + k * chunk_height) * w`. For y > 0 the first
  /// `y * w` bytes of the sprite go out in no chunk.
  lemma SpriteSlices(data: seq<byte>, w: int, h: int, x: int, y: int, ch: int, rem: int)
    requires w >= 1 && ch >= 1 && y >= 0
    ensures var bs := SpriteBlits(data, w, h, x, y, ch, rem);
      var n := RangeLen(y, y + h + 1, ch);
      n < |bs| && BlitBytes(bs[..n]) == Slice(data, y * w, (y + n * ch) * w)
  {
    var bs := SpriteBlits(data, w, h, x, y, ch, rem);
    var n := RangeLen(y, y + h + 1, ch);
    assert n < |bs| by {
      SpriteBlitAt(data, w, h, x, y, ch, rem, n);
    }
    var pos := seq(n + 1, j => (y + j * ch) * w);
    forall j | 0 <= j < n
      ensures pos[j] <= pos[j + 1] && bs[j].data == Slice(data, pos[j], pos[j + 1])
    {
      SpriteRowChunk(data, w, h, x, y, ch, rem, j);
    }
    assert pos[0] == y * w && pos[n] == (y + n * ch) * w;
    ConsecutiveSlices(data, bs, pos, n);
  }

  /// Chunk `j` of the large branch is the slice between the first bytes of
  /// rows `y + j * ch` and `y + (j + 1) * ch`.
  lemma SpriteRowChunk(data: seq<byte>, w: int, h: int, x: int, y: int, ch: int, rem: int, j: nat)
    requires w >= 1 && ch >= 1 && y >= 0 && j < RangeLen(y, y + h + 1, ch)
    ensures var bs := SpriteBlits(data, w, h, x, y, ch, rem);
      j < |bs| && 0 <= (y + j * ch) * w <= (y + (j + 1) * ch) * w &&
      bs[j].data == Slice(data, (y + j * ch) * w, (y + (j + 1) * ch) * w)
  {
    SpriteBlitAt(data, w, h, x, y, ch, rem, j);
    ChunkBoundary(y, j + 1, ch, w);
  }

  /// Blocks holding the slices between consecutive positions hold, together,
  /// the slice from the first position to the last.
  lemma {:induction false} ConsecutiveSlices(data: seq<byte>, bs: seq<Blit>, pos: seq<int>, k: nat)
    requires k <= |bs| && k < |pos| && 0 <= pos[0]
    requires forall j :: 0 <= j < k ==> pos[j] <= pos[j + 1] && bs[j].data == Slice(data, pos[j], pos[j + 1])
    ensures pos[0] <= pos[k] && BlitBytes(bs[..k]) == Slice(data, pos[0], pos[k])
  {
    if k == 0 {
      assert Slice(data, pos[0], pos[0]) == [];
    } else {
      ConsecutiveSlices(data, bs, pos, k - 1);
      BlitBytesJoin(data, bs, pos[0], pos[k - 1], pos[k], k);
    }
  }

  lemma BlitBytesJoin(data: seq<byte>, bs: seq<Blit>, a: int, b: int, c: int, k: nat)
    requires 0 < k <= |bs| && 0 <= a <= b <= c
    requires BlitBytes(bs[..k - 1]) == Slice(data, a, b) && bs[k - 1].data == Slice(data, b, c)
    ensures BlitBytes(bs[..k]) == Slice(data, a, c)
  {
    BlitBytesSnoc(bs, k);
    SliceJoin(data, a, b, c);
  }

  lemma BlitBytesSnoc(bs: seq<Blit>, k: nat)
    requires 0 < k <= |bs|
    ensures BlitBytes(bs[..k]) == BlitBytes(bs[..k - 1]) + bs[k - 1].data
  {
    assert bs[..k][..k - 1] == bs[..k - 1];
  }

  /// Row `i = y + (k - 1) * ch` starts at byte `i * w` and its chunk ends at
  /// the start of the next one.
  lemma ChunkBoundary(y: int, k: int, ch: int, w: int)
    requires y >= 0 && k >= 1 && ch >= 1 && w >= 1
    ensures var i := y + (k - 1) * ch;
      0 <= y * w <= i * w <= (y + k * ch) * w && w * (i + ch) == (y + k * ch) * w
  {
    var i := y + (k - 1) * ch;
    assert i + ch == y + k * ch;
    MulMono(y, i, w);
    MulMono(i, i + ch, w);
  }

  /// `draw_sprite(data, w, h, x, y)`.
  function SpriteRun(p: Panel, data: seq<byte>, w: int, h: int, x: int, y: int): Run
  {
    if |data| <= p.maxBytes then BlockRun(Blit(x, y, x + w - 1, y + h - 1, data), true, true)
    else if w * p.colorBytes == 0 then Fail(ZeroDivisionError)
    else
      var ch, rem := FloorDiv(p.maxBytes, w * p.colorBytes), FloorMod(p.maxBytes, w * p.colorBytes);
      if ch == 0 then Fail(ValueError)
      else BlitsRun(SpriteBlits(data, w, h, x, y, ch, rem), true, true)
  }

  /// A quotient is positive exactly when the divisor fits in the dividend.
  lemma DivPositive(a: nat, b: int)
    requires b > 0
    ensures a / b >= 1 <==> a >= b
    ensures a / b == 0 <==> a < b
  {
    var q := a / b;
    assert a == b * q + a % b;
    if q >= 1 {
      MulMono(1, q, b);
    }
  }

  /// A sprite within the budget is one block with the whole data. Above the
  /// budget, `w == 0` makes `divmod` raise ZeroDivisionError; with `w > 0`, a row wider than the budget gives `chunk_height ==
  /// 0`, and `range` raises ValueError before anything is sent; otherwise the
  /// sprite is sent as the blocks of SpriteBlits.
  lemma SpriteShape(p: Panel, data: seq<byte>, w: int, h: int, x: int, y: int)
    requires Valid(p)
    ensures |data| <= p.maxBytes ==>
      SpriteRun(p, data, w, h, x, y) == BlockRun(Blit(x, y, x + w - 1, y + h - 1, data), true, true)
    ensures |data| > p.maxBytes && w == 0 ==> SpriteRun(p, data, w, h, x, y) == Fail(ZeroDivisionError)
    ensures |data| > p.maxBytes && w > 0 && p.maxBytes < w * p.colorBytes ==>
      SpriteRun(p, data, w, h, x, y) == Fail(ValueError)
    ensures |data| > p.maxBytes && w > 0 && p.maxBytes >= w * p.colorBytes ==>
      var ch := p.maxBytes / (w * p.colorBytes);
      ch >= 1 &&
      SpriteRun(p, data, w, h, x, y) ==
        BlitsRun(SpriteBlits(data, w, h, x, y, ch, p.maxBytes % (w * p.colorBytes)), true, true)
  {
    if |data| > p.maxBytes && w > 0 {
      var wb := w * p.colorBytes;
      assert wb > 0;
      assert FloorDiv(p.maxBytes, wb) == p.maxBytes / wb;
      assert FloorMod(p.maxBytes, wb) == p.maxBytes % wb;
      DivPositive(p.maxBytes, wb);
    }
  }

  /// The large branch of `draw_sprite` sends `ceil((h + 1) / chunk_height)`
  /// chunk blocks and a remainder block; every chunk block's window is
  /// `chunk_height + 1` rows tall although its slice holds at most
  /// `chunk_height * w` bytes, fewer than the window's pixels take.
  lemma SpriteChunks(data: seq<byte>, w: int, h: int, x: int, y: int, ch: int, rem: int, colorBytes: nat)
    requires w >= 1 && h >= 0 && ch >= 1 && colorBytes >= 1
    ensures var bs := SpriteBlits(data, w, h, x, y, ch, rem);
      |bs| == (h + ch) / ch + 1 &&
      forall k :: 0 <= k < |bs| - 1 ==>
        bs[k].y1 - bs[k].y0 + 1 == ch + 1 && |bs[k].data| <= ch * w < (ch + 1) * w * colorBytes
  {
    var bs := SpriteBlits(data, w, h, x, y, ch, rem);
    forall k | 0 <= k < |bs| - 1
      ensures bs[k].y1 - bs[k].y0 + 1 == ch + 1 && |bs[k].data| <= ch * w < (ch + 1) * w * colorBytes
    {
      var i := y + k * ch;
      assert bs[k] == Blit(x, i, x + w - 1, i + ch, Slice(data, i * w, w * (i + ch)));
      SliceLength(data, i * w, w * (i + ch));
      assert w * (i + ch) - i * w == ch * w;
      var wide := (ch + 1) * w;
      assert wide == ch * w + w;
      MulMono(1, colorBytes, wide);
      assert wide * colorBytes == (ch + 1) * w * colorBytes;
    }
  }
}
