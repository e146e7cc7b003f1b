/// The serial bus as the driver sees it: chip-select (CS) and data/command (DC)
/// line levels and SPI writes, recorded as an append-only trace of events.
/// A `Run` is what one call appends plus how it ended; `Then` runs a second
/// step only when the first did not raise, as a Python statement sequence does.
module Bus {
  import opened Builtins

  datatype Level = Low | High

  datatype Event =
    | CS(level: Level)        // cs.value(level)
    | DC(level: Level)        // dc.value(level): Low = command, High = data
    | Write(data: seq<byte>)  // spi.write(data)

  datatype Outcome = Done | Raised(error: Error)

  datatype Run = Run(events: seq<Event>, out: Outcome)

  function Emit(events: seq<Event>): Run { Run(events, Done) }

  function Fail(e: Error): Run { Run([], Raised(e)) }

  /// `a` followed by `b`; if `a` raised, `b` never happens.
  function Then(a: Run, b: Run): Run
  {
    if a.out.Raised? then a else Run(a.events + b.events, b.out)
  }

  lemma ThenAssoc(a: Run, b: Run, c: Run)
    ensures Then(Then(a, b), c) == Then(a, Then(b, c))
  {
  }

  lemma ThenEmitNil(a: Run)
    ensures Then(Emit([]), a) == a
  {
    assert [] + a.events == a.events;
  }

  // ILI9341 command opcodes used by the modelled operations.
  const CASET: byte := 0x2A     // column address set
  const PASET: byte := 0x2B     // page (row) address set
  const RAMWR: byte := 0x2C     // memory write
  const VSCRDEF: byte := 0x33   // vertical scrolling definition
  const VSCRSADD: byte := 0x37  // vertical scrolling start address

  /// The data part of one `run_seq` entry: `None`, a list of ints still to be
  /// converted by `bytes(...)`, or a ready `bytes` object.
  datatype Payload = NoData | Ints(values: seq<int>) | Bytes(data: seq<byte>)

  datatype Cmd = Cmd(op: byte, payload: Payload)

  /// One iteration of the `run_seq` loop: the opcode under DC low, then the
  /// payload under DC high; `bytes(list)` raises after DC has gone high.
  function CmdRun(c: Cmd): Run
  {
    var head := [DC(Low), Write([c.op])];
    match c.payload
    case NoData => Emit(head)
    case Bytes(bs) => Emit(head + [DC(High), Write(bs)])
    case Ints(xs) =>
      match ToBytes(xs)
      case None => Run(head + [DC(High)], Raised(ValueError))
      case Some(bs) => Emit(head + [DC(High), Write(bs)])
  }

  /// The loop of `run_seq` over `cmds`, stopping at the first entry that raises.
  function SeqRun(cmds: seq<Cmd>): Run
  {
    if cmds == [] then Emit([])
    else Then(SeqRun(cmds[..|cmds| - 1]), CmdRun(cmds[|cmds| - 1]))
  }

  function Select(select: bool): seq<Event> { if select then [CS(Low)] else [] }

  function Deselect(deselect: bool): seq<Event> { if deselect then [CS(High)] else [] }

  /// `run_seq(*cmds, select=select, deselect=deselect)`.
  function RunSeqRun(cmds: seq<Cmd>, select: bool, deselect: bool): Run
  {
    Then(Then(Emit(Select(select)), SeqRun(cmds)), Emit(Deselect(deselect)))
  }

  /// `write_data(data)`.
  function WriteDataRun(data: seq<byte>): Run
  {
    Emit([DC(High), CS(Low), Write(data), CS(High)])
  }

  /// `write_cmd(op, *args)`: the opcode in its own CS-low span; `bytes(args)` is
  /// evaluated before `write_data` is entered, so a bad argument raises with CS high.
  function WriteCmdRun(op: byte, args: seq<int>): Run
  {
    var head := [DC(Low), CS(Low), Write([op]), CS(High)];
    if |args| == 0 then Emit(head)
    else match ToBytes(args)
      case None => Run(head, Raised(ValueError))
      case Some(bs) => Then(Emit(head), WriteDataRun(bs))
  }

  lemma SeqRunThree(c0: Cmd, c1: Cmd, c2: Cmd)
    ensures SeqRun([c0, c1, c2]) == Then(Then(CmdRun(c0), CmdRun(c1)), CmdRun(c2))
  {
    var s := [c0, c1, c2];
    assert s[..2] == [c0, c1] && [c0, c1][..1] == [c0] && [c0][..0] == [];
    assert SeqRun([c0]) == Then(Emit([]), CmdRun(c0));
    ThenEmitNil(CmdRun(c0));
    assert SeqRun([c0, c1]) == Then(CmdRun(c0), CmdRun(c1));
    assert SeqRun(s) == Then(SeqRun(s[..2]), CmdRun(c2));
  }

  /// Once a sequence of commands has raised, later commands add nothing.
  lemma {:induction false} SeqRunRaisedPrefix(a: seq<Cmd>, b: seq<Cmd>)
    requires SeqRun(a).out.Raised?
    ensures SeqRun(a + b) == SeqRun(a)
    decreases |b|
  {
    if b != [] {
      var ab := a + b;
      assert ab[..|ab| - 1] == a + b[..|b| - 1];
      SeqRunRaisedPrefix(a, b[..|b| - 1]);
    } else {
      assert a + b == a;
    }
  }

  /// The events of `run_seq`'s loop: no CS event, every write directly preceded
  /// by a DC event, and one DC-low (command) event per command completed.
  ghost predicate Framed(events: seq<Event>)
  {
    (forall k :: 0 <= k < |events| ==> !events[k].CS?) && WritesFollowDC(events)
  }

  /// Every write directly preceded by a DC event.
  ghost predicate WritesFollowDC(events: seq<Event>)
  {
    forall k :: 0 <= k < |events| && events[k].Write? ==> k > 0 && events[k - 1].DC?
  }

  function CountCommands(events: seq<Event>): nat
  {
    if events == [] then 0
    else CountCommands(events[..|events| - 1]) + (if events[|events| - 1] == DC(Low) then 1 else 0)
  }

  lemma CountCommandsAppend(a: seq<Event>, b: seq<Event>)
    ensures CountCommands(a + b) == CountCommands(a) + CountCommands(b)
    decreases |b|
  {
    if b != [] {
      assert (a + b)[..|a + b| - 1] == a + b[..|b| - 1];
      CountCommandsAppend(a, b[..|b| - 1]);
    } else {
      assert a + b == a;
    }
  }

  lemma NoCommands(events: seq<Event>)
    requires DC(Low) !in events
    ensures CountCommands(events) == 0
    decreases |events|
  {
    if events != [] {
      NoCommands(events[..|events| - 1]);
    }
  }

  lemma CmdRunShape(c: Cmd)
    ensures var e := CmdRun(c).events;
      Framed(e) && |e| >= 2 && e[0] == DC(Low) && DC(Low) !in e[1..]
  {
  }

  lemma FramedAppend(a: seq<Event>, b: seq<Event>)
    requires Framed(a) && Framed(b)
    requires b != [] ==> !b[0].Write?
    ensures Framed(a + b)
  {
    WritesAppend(a, b);
  }

  lemma WritesAppend(a: seq<Event>, b: seq<Event>)
    requires WritesFollowDC(a) && WritesFollowDC(b)
    requires b != [] ==> !b[0].Write?
    ensures WritesFollowDC(a + b)
  {
    var ab := a + b;
    forall k | 0 <= k < |ab| && ab[k].Write? ensures k > 0 && ab[k - 1].DC? {
      if k >= |a| {
        assert ab[k] == b[k - |a|];
      }
    }
  }

  lemma {:induction false} SeqRunFramed(cmds: seq<Cmd>)
    ensures Framed(SeqRun(cmds).events)
    ensures SeqRun(cmds).out == Done ==> CountCommands(SeqRun(cmds).events) == |cmds|
  {
    if cmds != [] {
      var init, last := cmds[..|cmds| - 1], cmds[|cmds| - 1];
      SeqRunFramed(init);
      var a, c := SeqRun(init), CmdRun(last);
      if a.out == Done {
        CmdRunShape(last);
        FramedAppend(a.events, c.events);
        CountCommandsAppend(a.events, c.events);
        var e := c.events;
        assert e == [DC(Low)] + e[1..];
        NoCommands(e[1..]);
        CountCommandsAppend([DC(Low)], e[1..]);
        assert [DC(Low)][..0] == [];
      }
    }
  }

  /// The loop of `run_seq` completes exactly when every int-list payload is a valid byte list.
  lemma {:induction false} SeqRunDone(cmds: seq<Cmd>)
    ensures SeqRun(cmds).out == Done <==>
      forall i :: 0 <= i < |cmds| && cmds[i].payload.Ints? ==> ToBytes(cmds[i].payload.values).Some?
  {
    if cmds != [] {
      var init := cmds[..|cmds| - 1];
      SeqRunDone(init);
      forall i | 0 <= i < |cmds| - 1 ensures cmds[i] == init[i] { }
    }
  }

  /// `run_seq` asserts CS only when asked to select, first of all, and
  /// releases it only when asked to deselect and nothing raised, last of all.
  lemma RunSeqFraming(cmds: seq<Cmd>, select: bool, deselect: bool)
    ensures var r := RunSeqRun(cmds, select, deselect);
      (select <==> CS(Low) in r.events) &&
      (select ==> r.events[0] == CS(Low)) &&
      (CS(High) in r.events <==> deselect && r.out == Done) &&
      (deselect && r.out == Done ==> r.events[|r.events| - 1] == CS(High))
  {
    var r := RunSeqRun(cmds, select, deselect);
    var body := SeqRun(cmds);
    assert Framed(body.events) by { SeqRunFramed(cmds); }
    var pre, post := Select(select), Deselect(deselect);
    if body.out == Done {
      assert r.events == pre + body.events + post;
    } else {
      assert r.events == pre + body.events;
    }
    assert CS(High) in r.events ==> CS(High) in post;
    assert CS(Low) in r.events ==> CS(Low) in pre;
  }

  /// Inside `run_seq`, every write follows a DC event, and when it completes
  /// each command contributes exactly one DC-low event.
  lemma RunSeqWrites(cmds: seq<Cmd>, select: bool, deselect: bool)
    ensures var r := RunSeqRun(cmds, select, deselect);
      WritesFollowDC(r.events) && (r.out == Done ==> CountCommands(r.events) == |cmds|)
  {
    var body := SeqRun(cmds);
    assert WritesFollowDC(body.events) && (body.out == Done ==> CountCommands(body.events) == |cmds|) by {
      SeqRunFramed(cmds);
    }
    FramingKeepsWrites(body, |cmds|, select, deselect);
  }

  /// Adding the CS events around a run keeps its writes after DC events and
  /// adds no command.
  lemma FramingKeepsWrites(body: Run, n: nat, select: bool, deselect: bool)
    requires WritesFollowDC(body.events) && (body.out == Done ==> CountCommands(body.events) == n)
    ensures var r := Then(Then(Emit(Select(select)), body), Emit(Deselect(deselect)));
      WritesFollowDC(r.events) && (r.out == Done ==> CountCommands(r.events) == n)
  {
    var pre, post := Select(select), Deselect(deselect);
    WritesAppend(pre, body.events);
    if body.out == Done {
      WritesAppend(pre + body.events, post);
      CountCommandsAppend(pre + body.events, post);
      CountCommandsAppend(pre, body.events);
    }
  }

  /// A run that went through, then another: the trace grows by both.
  lemma ThenTrace(t0: seq<Event>, a: Run, b: Run)
    requires a.out == Done
    ensures t0 + a.events + b.events == t0 + Then(a, b).events && Then(a, b).out == b.out
  {
    ConcatAssoc(t0, a.events, b.events);
  }

  lemma ConcatAssoc<T>(a: seq<T>, b: seq<T>, c: seq<T>)
    ensures a + b + c == a + (b + c)
  {
  }
}
