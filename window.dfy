/// The window protocol: Column Address Set (2Ah), Page Address Set (2Bh) and
/// Memory Write (2Ch), sections 8.2.20 to 8.2.22 of the ILI9341 datasheet,
/// each coordinate sent as a big-endian 16-bit pair; and the scrolling
/// commands, which share the same encoding.
module Window {
  import opened Builtins
  import opened Bus
  import opened Panel

  /// `[a >> 8, a & 0xff, b >> 8, b & 0xff]`; for every int, Python's `>> 8` is
  /// floor division by 256 and `& 0xff` the non-negative remainder.
  function CoordArgs(a: int, b: int): seq<int>
  {
    [a / 256, a % 256, b / 256, b % 256]
  }

  predicate InWord(v: int) { 0 <= v < 0x1_0000 }

  /// The two bytes of a 16-bit coordinate, most significant first.
  function Word16(v: int): (r: seq<byte>)
    requires InWord(v)
    ensures |r| == 2 && FromBigEndian(r) == v
  {
    var r := [(v / 256) as byte, (v % 256) as byte];
    assert r[..1] == [r[0]] && [r[0]][..0] == [];
    assert FromBigEndian(r[..1]) == r[0] as nat;
    assert FromBigEndian(r) == (v / 256) * 256 + v % 256;
    r
  }

  /// `bytes(CoordArgs(a, b))` succeeds exactly for two 16-bit coordinates,
  /// and then holds their big-endian encodings.
  lemma CoordArgsBytes(a: int, b: int)
    ensures ToBytes(CoordArgs(a, b)).Some? <==> InWord(a) && InWord(b)
    ensures InWord(a) && InWord(b) ==> ToBytes(CoordArgs(a, b)).value == Word16(a) + Word16(b)
  {
    var xs := CoordArgs(a, b);
    if InWord(a) && InWord(b) {
      var bs := ToBytes(xs).value;
      assert bs == Word16(a) + Word16(b);
    } else if !InWord(a) {
      assert !(0 <= xs[0] < 256);
    } else {
      assert !(0 <= xs[2] < 256);
    }
  }

  /// One rectangle and the pixel bytes streamed into it.
  datatype Blit = Blit(x0: int, y0: int, x1: int, y1: int, data: seq<byte>)

  predicate Addressable(b: Blit)
  {
    InWord(b.x0) && InWord(b.y0) && InWord(b.x1) && InWord(b.y1)
  }

  function WindowCmds(x0: int, y0: int, x1: int, y1: int, ramwr: Payload): seq<Cmd>
  {
    [Cmd(CASET, Ints(CoordArgs(x0, x1))), Cmd(PASET, Ints(CoordArgs(y0, y1))), Cmd(RAMWR, ramwr)]
  }

  /// `block(x0, y0, x1, y1, data, select, deselect)`.
  function BlockRun(b: Blit, select: bool, deselect: bool): Run
  {
    RunSeqRun(WindowCmds(b.x0, b.y0, b.x1, b.y1, Bytes(b.data)), select, deselect)
  }

  /// `set_block(x0, y0, x1, y1)`: the window commands and RAMWR with no data.
  function SetBlockRun(x0: int, y0: int, x1: int, y1: int): Run
  {
    RunSeqRun(WindowCmds(x0, y0, x1, y1, NoData), true, true)
  }

  /// `draw_pixel(x, y, color, select, deselect)`: the end coordinates sent are 0.
  function PixelRun(p: Panel, x: int, y: int, color: int, select: bool, deselect: bool): Run
  {
    match IntToBytes(color, p.colorBytes)
    case None => Fail(OverflowError)
    case Some(enc) =>
      RunSeqRun([Cmd(CASET, Ints(CoordArgs(x, 0))), Cmd(PASET, Ints(CoordArgs(y, 0))),
                 Cmd(RAMWR, Bytes(enc))], select, deselect)
  }

  /// What the window protocol puts on the bus for an addressable rectangle.
  function WindowEvents(b: Blit): seq<Event>
    requires Addressable(b)
  {
    [DC(Low), Write([CASET]), DC(High), Write(Word16(b.x0) + Word16(b.x1)),
     DC(Low), Write([PASET]), DC(High), Write(Word16(b.y0) + Word16(b.y1)),
     DC(Low), Write([RAMWR]), DC(High), Write(b.data)]
  }

  /// `block` sends CASET with the two column words, PASET with the two row
  /// words and RAMWR with the data, every opcode under DC low and every
  /// payload under DC high, asserting CS first only if `select` and releasing
  /// it last only if `deselect`. A coordinate outside 0..65535 makes
  /// `bytes(...)` raise ValueError before any pixel data is sent, leaving CS
  /// as it was.
  lemma {:induction false} BlockWire(b: Blit, select: bool, deselect: bool)
    ensures var r := BlockRun(b, select, deselect);
      (r.out == Done <==> Addressable(b)) &&
      (r.out == Done ==> r.events == Select(select) + WindowEvents(b) + Deselect(deselect)) &&
      (r.out.Raised? ==> r.out.error == ValueError && Write([RAMWR]) !in r.events &&
                         CS(High) !in r.events)
  {
    if Addressable(b) {
      BlockSent(b, select, deselect);
    } else {
      BlockRefused(b, select, deselect);
    }
  }

  /// The three commands of a block, run one after the other.
  lemma BlockSteps(b: Blit, select: bool, deselect: bool)
    ensures var cmds := WindowCmds(b.x0, b.y0, b.x1, b.y1, Bytes(b.data));
      BlockRun(b, select, deselect) ==
      Then(Then(Emit(Select(select)), Then(Then(CmdRun(cmds[0]), CmdRun(cmds[1])), CmdRun(cmds[2]))),
           Emit(Deselect(deselect)))
  {
    var cmds := WindowCmds(b.x0, b.y0, b.x1, b.y1, Bytes(b.data));
    SeqRunThree(cmds[0], cmds[1], cmds[2]);
    assert cmds == [cmds[0], cmds[1], cmds[2]];
  }

  lemma BlockSent(b: Blit, select: bool, deselect: bool)
    requires Addressable(b)
    ensures var r := BlockRun(b, select, deselect);
      r.out == Done && r.events == Select(select) + WindowEvents(b) + Deselect(deselect)
  {
    var cmds := WindowCmds(b.x0, b.y0, b.x1, b.y1, Bytes(b.data));
    CoordArgsBytes(b.x0, b.x1);
    CoordArgsBytes(b.y0, b.y1);
    BlockSteps(b, select, deselect);
    var e0 := [DC(Low), Write([CASET]), DC(High), Write(Word16(b.x0) + Word16(b.x1))];
    var e1 := [DC(Low), Write([PASET]), DC(High), Write(Word16(b.y0) + Word16(b.y1))];
    var e2 := [DC(Low), Write([RAMWR]), DC(High), Write(b.data)];
    assert CmdRun(cmds[0]) == Emit(e0);
    assert CmdRun(cmds[1]) == Emit(e1);
    assert CmdRun(cmds[2]) == Emit(e2);
    assert WindowEvents(b) == e0 + e1 + e2;
  }

  lemma BlockRefused(b: Blit, select: bool, deselect: bool)
    requires !Addressable(b)
    ensures var r := BlockRun(b, select, deselect);
      r.out == Raised(ValueError) && Write([RAMWR]) !in r.events && CS(High) !in r.events
  {
    var cmds := WindowCmds(b.x0, b.y0, b.x1, b.y1, Bytes(b.data));
    CoordArgsBytes(b.x0, b.x1);
    CoordArgsBytes(b.y0, b.y1);
    BlockSteps(b, select, deselect);
    var r := BlockRun(b, select, deselect);
    var fail0 := [DC(Low), Write([CASET]), DC(High)];
    if !(InWord(b.x0) && InWord(b.x1)) {
      assert CmdRun(cmds[0]) == Run(fail0, Raised(ValueError));
      assert r == Run(Select(select) + fail0, Raised(ValueError));
    } else {
      var e0 := [DC(Low), Write([CASET]), DC(High), Write(Word16(b.x0) + Word16(b.x1))];
      var fail1 := [DC(Low), Write([PASET]), DC(High)];
      assert CmdRun(cmds[0]) == Emit(e0);
      assert CmdRun(cmds[1]) == Run(fail1, Raised(ValueError));
      assert r == Run(Select(select) + (e0 + fail1), Raised(ValueError));
    }
    forall k | 0 <= k < |r.events|
      ensures r.events[k] != Write([RAMWR]) && r.events[k] != CS(High)
    {
    }
  }

  /// A pixel is a one-colour block whose end corner is (0, 0), not (x, y).
  lemma PixelIsBlockToOrigin(p: Panel, x: int, y: int, color: int, select: bool, deselect: bool)
    requires 0 <= color < Pow256(p.colorBytes)
    ensures PixelRun(p, x, y, color, select, deselect) ==
            BlockRun(Blit(x, y, 0, 0, BigEndian(color, p.colorBytes)), select, deselect)
  {
  }

  /// A sequence of blocks with the same select/deselect flags, stopping at
  /// the first one that raises.
  function BlitsRun(bs: seq<Blit>, select: bool, deselect: bool): Run
  {
    if bs == [] then Emit([])
    else Then(BlitsRun(bs[..|bs| - 1], select, deselect), BlockRun(bs[|bs| - 1], select, deselect))
  }

  lemma {:induction false} BlitsRunAppend(a: seq<Blit>, b: seq<Blit>, select: bool, deselect: bool)
    ensures BlitsRun(a + b, select, deselect) ==
            Then(BlitsRun(a, select, deselect), BlitsRun(b, select, deselect))
    decreases |b|
  {
    if b == [] {
      assert a + b == a;
    } else {
      var ab := a + b;
      assert ab[..|ab| - 1] == a + b[..|b| - 1];
      BlitsRunAppend(a, b[..|b| - 1], select, deselect);
      ThenAssoc(BlitsRun(a, select, deselect), BlitsRun(b[..|b| - 1], select, deselect),
                BlockRun(b[|b| - 1], select, deselect));
    }
  }

  /// The blocks all complete exactly when every rectangle is addressable.
  lemma {:induction false} BlitsRunDone(bs: seq<Blit>, select: bool, deselect: bool)
    ensures BlitsRun(bs, select, deselect).out == Done <==> forall i :: 0 <= i < |bs| ==> Addressable(bs[i])
  {
    if bs != [] {
      var init, last := bs[..|bs| - 1], bs[|bs| - 1];
      BlitsRunDone(init, select, deselect);
      BlockWire(last, select, deselect);
      forall i | 0 <= i < |bs| - 1 ensures bs[i] == init[i] { }
    }
  }

  /// Blocks that neither select nor deselect leave CS alone, whether or not they raise.
  lemma {:induction false} BlitsRunKeepsSelect(bs: seq<Blit>)
    ensures CS(Low) !in BlitsRun(bs, false, false).events
    ensures CS(High) !in BlitsRun(bs, false, false).events
  {
    if bs != [] {
      var init, last := bs[..|bs| - 1], bs[|bs| - 1];
      BlitsRunKeepsSelect(init);
      RunSeqFraming(WindowCmds(last.x0, last.y0, last.x1, last.y1, Bytes(last.data)), false, false);
      var a, b := BlitsRun(init, false, false), BlockRun(last, false, false);
      assert bs[..|bs| - 1] == init;
      assert BlitsRun(bs, false, false) == Then(a, b);
      assert b == RunSeqRun(WindowCmds(last.x0, last.y0, last.x1, last.y1, Bytes(last.data)), false, false);
      assert CS(Low) !in b.events && CS(High) !in b.events;

    }
  }

  /// `scroll(y)`: VSCRSADD with the start line as a 16-bit word.
  function ScrollRun(y: int): Run
  {
    WriteCmdRun(VSCRSADD, [y / 256, y % 256])
  }

  /// `scroll(y)` sends VSCRSADD followed by the start line as a big-endian
  /// word when y fits 16 bits; for any other y, `y >> 8` is outside 0..255,
  /// so `bytes()` raises ValueError once the opcode is out, with CS high.
  lemma ScrollWire(y: int)
    ensures InWord(y) ==>
      ScrollRun(y) == Emit([DC(Low), CS(Low), Write([VSCRSADD]), CS(High),
                            DC(High), CS(Low), Write(Word16(y)), CS(High)])
    ensures !InWord(y) ==>
      ScrollRun(y) == Run([DC(Low), CS(Low), Write([VSCRSADD]), CS(High)], Raised(ValueError))
  {
    var args := [y / 256, y % 256];
    if InWord(y) {
      assert ToBytes(args).value == Word16(y);
    } else {
      assert !(0 <= args[0] < 256);
    }
  }

  /// `set_scroll(top, bottom)`: nothing unless the margins fit the height.
  function SetScrollRun(p: Panel, top: int, bottom: int): Run
  {
    if top + bottom <= p.height then
      var middle := p.height - (top + bottom);
      WriteCmdRun(VSCRDEF, CoordArgs(top, middle) + [bottom / 256, bottom % 256])
    else Emit([])
  }

  /// `set_scroll` sends nothing when the two margins exceed the height, and
  /// otherwise sends VSCRDEF with top, middle and bottom words that add up to
  /// the height.
  lemma SetScrollWire(p: Panel, top: int, bottom: int)
    ensures top + bottom > p.height ==> SetScrollRun(p, top, bottom) == Emit([])
    ensures var middle := p.height - (top + bottom);
      top + bottom <= p.height && InWord(top) && InWord(middle) && InWord(bottom) ==>
      SetScrollRun(p, top, bottom) ==
        Emit([DC(Low), CS(Low), Write([VSCRDEF]), CS(High),
              DC(High), CS(Low), Write(Word16(top) + Word16(middle) + Word16(bottom)), CS(High)]) &&
      top + middle + bottom == p.height
    ensures var middle := p.height - (top + bottom);
      top + bottom <= p.height && !(InWord(top) && InWord(middle) && InWord(bottom)) ==>
      SetScrollRun(p, top, bottom) == Run([DC(Low), CS(Low), Write([VSCRDEF]), CS(High)], Raised(ValueError))
  {
    var middle := p.height - (top + bottom);
    var args := CoordArgs(top, middle) + [bottom / 256, bottom % 256];
    if top + bottom <= p.height && InWord(top) && InWord(middle) && InWord(bottom) {
      CoordArgsBytes(top, middle);
      assert ToBytes(args).value == Word16(top) + Word16(middle) + Word16(bottom);
    } else if top + bottom <= p.height {
      if !InWord(top) {
        assert !(0 <= args[0] < 256);
      } else if !InWord(middle) {
        assert !(0 <= args[2] < 256);
      } else {
        assert !(0 <= args[4] < 256);
      }
    }
  }
}
