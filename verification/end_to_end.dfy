/** The pipeline from the two kernel handlers to the printed line: the record
    the exit handler sends is the 48-byte image the userland decoder reads. */
module EndToEnd {
  import opened Wrappers
  import opened Bytes
  import opened Text
  import opened Events
  import opened EpollEvent
  import opened Wire
  import opened Capture
  import opened Correlation
  import EpollCtl

  /** An entry captured for a watched pid and the matching exit: the sent
      record, once encoded and decoded in userland, shows the pid, the entry
      context's arguments, the user-memory event and the exit's return code. */
  lemma EntryThenExit(s: ProbeState, enter: TraceContext, exit: TraceContext)
    requires Watched(s.pids, enter.pid) && exit.pid == enter.pid
    requires EventPtr(enter) in enter.userMemory
    requires enter.pid in s.pending || |s.pending| < PendingMaxEntries
    ensures var r := OnExit(OnEnter(s, enter).state, exit).state;
      && |r.sent| == |s.sent| + 1
      && r.sent[..|s.sent|] == s.sent
      && EpollCtl.Decode(Encode(r.sent[|s.sent|])) == Some(EpollCtl.EpollCtl(
           enter.pid,
           ReadAt(enter, EpfdArg).GetOr(0),
           ReadAt(enter, OpArg).GetOr(0),
           ReadAt(enter, FdArg).GetOr(0),
           DecodeEvent(enter.userMemory[EventPtr(enter)]),
           ExitCode(exit)))
  {
    var a := FromCtx(enter).value;
    EnterOverwrites(s, enter);
    var r := OnExit(OnEnter(s, enter).state, exit).state;
    assert r.sent[|s.sent|] == a.(returnValue := ExitCode(exit));
    EpollCtl.DecodeEncode(a.(returnValue := ExitCode(exit)), []);
    assert Encode(a.(returnValue := ExitCode(exit))) + [] == Encode(a.(returnValue := ExitCode(exit)));
  }

  /** The user-memory address the example's event lives at. */
  const EventAddress: U64 := 0x7FFC_0000

  /** `struct epoll_event { .events = EPOLLIN, .data.u64 = 0 }`. */
  const InEvent: EventImage := [1, 0, 0, 0, 0, 0, 0, 0, 0, 0, 0, 0]

  /** `epoll_ctl(5, EPOLL_CTL_ADD, 7, &ev)` entered by pid 42. */
  const EntryContext: TraceContext :=
    TraceContext(42, map[16 := 5, 24 := 1, 32 := 7, 40 := EventAddress], map[EventAddress := InEvent])

  /** Its exit, returning 0. */
  const ExitContext: TraceContext := TraceContext(42, map[16 := 0], map[])

  /** The record sent when pid 42 is watched. */
  lemma ScenarioRecord()
    ensures InitialPids([42]) == map[42 := 1]
    ensures Run(ProbeState(InitialPids([42]), map[], []), [Enter(EntryContext), Exit(ExitContext)]).sent
      == [EpollCtlArgs(42, 5, 1, 7, InEvent, 0)]
  {
    assert [42][..0] == [];
    var s0 := ProbeState(map[42 := 1], map[], []);
    var hooks := [Enter(EntryContext), Exit(ExitContext)];
    assert hooks[..1][..0] == [];
    assert hooks[..1] == [Enter(EntryContext)];
    assert FromCtx(EntryContext) == Some(EpollCtlArgs(42, 5, 1, 7, InEvent, 0));
    assert Run(s0, hooks[..1]).pending == map[42 := EpollCtlArgs(42, 5, 1, 7, InEvent, 0)];
    assert ExitCode(ExitContext) == 0;
  }

  lemma {:induction false} ZerosValue(bs: seq<byte>)
    requires forall i :: 0 <= i < |bs| ==> bs[i] == 0
    ensures LeValue(bs) == 0
  {
    if bs != [] {
      ZerosValue(bs[1..]);
    }
  }

  /** The example event decodes to `EPOLLIN` with zero data. */
  lemma ScenarioDecode()
    ensures DecodeEvent(InEvent) == EpollEvent(FromBits(1), EpollData(0))
  {
    ZerosValue(InEvent[1..4]);
    assert InEvent[..4][1..] == InEvent[1..4];
    ZerosValue(InEvent[4..]);
  }

  lemma RenderIn()
    ensures Render(FromBits(1)) == "EPOLLIN"
  {
    FromBitsSingleExample();
  }

  /** How an event carrying only `EPOLLIN` and zero data renders. */
  lemma RenderInEvent(e: EpollEvent)
    requires Render(e.events) == "EPOLLIN" && e.data.uint64 == 0
    ensures RenderEvent(e) == "{ events={ EPOLLIN }, data={ u32: 0, u64: 0 } }"
  {
    assert Decimal.NatToString(0) == "0";
    EventLiteral();
  }

  lemma EventLiteral()
    ensures "{ events={ " + "EPOLLIN" + " }, data=" + ("{ u32: " + "0" + ", u64: " + "0" + " }") + " }"
      == "{ events={ EPOLLIN }, data={ u32: 0, u64: 0 } }"
  {
  }

  /** ... and renders as the example shows. */
  lemma ScenarioEvent()
    ensures RenderEvent(DecodeEvent(InEvent)) == "{ events={ EPOLLIN }, data={ u32: 0, u64: 0 } }"
  {
    ScenarioDecode();
    RenderIn();
    RenderInEvent(DecodeEvent(InEvent));
  }

  /** How the example's call renders, for any event text. */
  lemma RenderScenarioCall(e: EpollEvent, ev: string)
    requires RenderEvent(e) == ev
    ensures EpollCtl.RenderCall(5, 1, 7, e) == "epoll_ctl(5, EPOLL_CTL_ADD, 7, " + ev + ")"
  {
    assert Decimal.NatToString(5) == "5";
    assert Decimal.NatToString(7) == "7";
    CallLiteral(ev);
  }

  lemma CallLiteral(ev: string)
    ensures "epoll_ctl(" + "5" + ", " + "EPOLL_CTL_ADD" + ", " + "7" + ", " + ev + ")"
      == "epoll_ctl(5, EPOLL_CTL_ADD, 7, " + ev + ")"
  {
  }

  /** How the example's line renders, for any call text. */
  lemma RenderScenarioLine(c: EpollCtl.EpollCtl, call: string)
    requires c.pid == 42 && c.returnValue == 0
    requires EpollCtl.RenderCall(c.epfd, c.op, c.fd, c.epollEvent) == call
    ensures EpollCtl.RenderLine(c) == "(pid: 42) " + call + " = 0"
  {
    ScenarioNumerals();
    LinePieces(call);
  }

  /** The numbers of the example line, spelt out. */
  lemma ScenarioNumerals()
    ensures Decimal.NatToString(42) == "42" && Decimal.IntToString(0) == "0"
  {
    assert Decimal.NatToString(4) == "4";
  }

  lemma LinePieces(call: string)
    ensures "(pid: " + "42" + ") " + call + " = " + "0" == "(pid: 42) " + call + " = 0"
  {
  }

  /** The example's printed line. */
  lemma ScenarioLine()
    ensures var sent := Run(ProbeState(InitialPids([42]), map[], []), [Enter(EntryContext), Exit(ExitContext)]).sent;
      && |sent| == 1
      && EpollCtl.Decode(Encode(sent[0])).Some?
      && EpollCtl.RenderLine(EpollCtl.Decode(Encode(sent[0])).value)
         == "(pid: 42) " + ("epoll_ctl(5, EPOLL_CTL_ADD, 7, " + "{ events={ EPOLLIN }, data={ u32: 0, u64: 0 } }" + ")") + " = 0"
  {
    ScenarioRecord();
    var a := EpollCtlArgs(42, 5, 1, 7, InEvent, 0);
    EpollCtl.DecodeEncode(a, []);
    assert Encode(a) + [] == Encode(a);
    ScenarioEvent();
    var ev := "{ events={ EPOLLIN }, data={ u32: 0, u64: 0 } }";
    RenderScenarioCall(DecodeEvent(InEvent), ev);
    RenderScenarioLine(EpollCtl.Decoded(a), "epoll_ctl(5, EPOLL_CTL_ADD, 7, " + ev + ")");
  }
}
