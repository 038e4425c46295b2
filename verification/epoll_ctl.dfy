/** The userland decoder for 48-byte records (`RawEpollCtl::new` and
    `EpollCtl::new`) and the `Display` impl that prints one line per call. */
module EpollCtl {
  import opened Wrappers
  import opened Bytes
  import opened Decimal
  import opened Text
  import opened Events
  import opened EpollEvent
  import opened Wire

  /** A decoded call: the raw record with its event image decoded. */
  datatype EpollCtl = EpollCtl(
    pid: U32,
    epfd: U64,
    op: U64,
    fd: U64,
    epollEvent: EpollEvent,
    returnValue: I64)

  /** `RawEpollCtl::new`: a buffer shorter than the record is refused; otherwise
      the record is read from its first 48 bytes and any further bytes are ignored. */
  function RawDecode(bs: seq<byte>): (r: Option<EpollCtlArgs>)
    ensures r.Some? <==> |bs| >= RecordSize
  {
    if |bs| < RecordSize then None
    else Some(EpollCtlArgs(
      LeU32(bs[PidOffset..EpfdOffset]),
      LeU64(bs[EpfdOffset..OpOffset]),
      LeU64(bs[OpOffset..FdOffset]),
      LeU64(bs[FdOffset..EventOffset]),
      bs[EventOffset..ReturnOffset],
      AsI64(LeU64(bs[ReturnOffset..RecordSize]))))
  }

  /** `EpollCtl::new`. */
  function Decode(bs: seq<byte>): (r: Option<EpollCtl>)
    ensures r.Some? <==> |bs| >= RecordSize
    ensures r.Some? ==>
      && r.value.pid == LeValue(bs[0..4])
      && r.value.epfd == LeValue(bs[4..12])
      && r.value.op == LeValue(bs[12..20])
      && r.value.fd == LeValue(bs[20..28])
      && r.value.epollEvent.events == FromBits(LeValue(bs[28..32]))
      && r.value.epollEvent.data.uint64 == LeValue(bs[32..40])
      && r.value.returnValue == AsI64(LeU64(bs[40..48]))
  {
    match RawDecode(bs)
    case None => None
    case Some(raw) =>
      assert raw.epollEvent[..4] == bs[28..32] && raw.epollEvent[4..] == bs[32..40];
      Some(EpollCtl(raw.pid, raw.epfd, raw.op, raw.fd, DecodeEvent(raw.epollEvent), raw.returnValue))
  }

  /** The decoded view of a record that arrived intact. */
  function Decoded(a: EpollCtlArgs): EpollCtl {
    EpollCtl(a.pid, a.epfd, a.op, a.fd, DecodeEvent(a.epollEvent), a.returnValue)
  }

  /** Reading the image of a record, followed by any trailing bytes, recovers
      the record field for field. */
  lemma RawDecodeEncode(a: EpollCtlArgs, trailing: seq<byte>)
    ensures RawDecode(Encode(a) + trailing) == Some(a)
  {
    var bs := Encode(a) + trailing;
    assert bs[..RecordSize] == Encode(a);
    assert bs[PidOffset..EpfdOffset] == Encode(a)[PidOffset..EpfdOffset];
    assert bs[EpfdOffset..OpOffset] == Encode(a)[EpfdOffset..OpOffset];
    assert bs[OpOffset..FdOffset] == Encode(a)[OpOffset..FdOffset];
    assert bs[FdOffset..EventOffset] == Encode(a)[FdOffset..EventOffset];
    assert bs[EventOffset..ReturnOffset] == Encode(a)[EventOffset..ReturnOffset];
    assert bs[ReturnOffset..RecordSize] == Encode(a)[ReturnOffset..RecordSize];
    AsI64OfAsU64(LeU64(bs[ReturnOffset..RecordSize]), a.returnValue);
  }

  lemma AsI64OfAsU64(u: U64, i: I64)
    requires AsI64(u) == i
    ensures u == AsU64(i)
  {
  }

  /** Decoding the image of a record yields its decoded view. */
  lemma DecodeEncode(a: EpollCtlArgs, trailing: seq<byte>)
    ensures Decode(Encode(a) + trailing) == Some(Decoded(a))
  {
    RawDecodeEncode(a, trailing);
  }

  /** Re-encoding a decoded record reproduces the 48 bytes it was read from. */
  lemma EncodeRawDecode(bs: seq<byte>)
    requires |bs| >= RecordSize
    ensures Encode(RawDecode(bs).value) == bs[..RecordSize]
  {
    var a := RawDecode(bs).value;
    var e := Encode(a);
    LeValueInjective(e[PidOffset..EpfdOffset], bs[PidOffset..EpfdOffset]);
    LeValueInjective(e[EpfdOffset..OpOffset], bs[EpfdOffset..OpOffset]);
    LeValueInjective(e[OpOffset..FdOffset], bs[OpOffset..FdOffset]);
    LeValueInjective(e[FdOffset..EventOffset], bs[FdOffset..EventOffset]);
    AsI64OfAsU64(LeU64(bs[ReturnOffset..RecordSize]), a.returnValue);
    AsI64OfAsU64(LeU64(e[ReturnOffset..RecordSize]), a.returnValue);
    LeValueInjective(e[ReturnOffset..RecordSize], bs[ReturnOffset..RecordSize]);
    assert e == e[PidOffset..EpfdOffset] + e[EpfdOffset..OpOffset] + e[OpOffset..FdOffset]
      + e[FdOffset..EventOffset] + e[EventOffset..ReturnOffset] + e[ReturnOffset..RecordSize];
    assert bs[..RecordSize] == bs[PidOffset..EpfdOffset] + bs[EpfdOffset..OpOffset] + bs[OpOffset..FdOffset]
      + bs[FdOffset..EventOffset] + bs[EventOffset..ReturnOffset] + bs[ReturnOffset..RecordSize];
  }

  /** Only the first 48 bytes matter: buffers agreeing on them decode alike. */
  lemma DecodeIgnoresTrailing(b1: seq<byte>, b2: seq<byte>)
    requires |b1| >= RecordSize && |b2| >= RecordSize
    requires b1[..RecordSize] == b2[..RecordSize]
    ensures Decode(b1) == Decode(b2)
  {
    var p1, p2 := b1[..RecordSize], b2[..RecordSize];
    assert b1[PidOffset..EpfdOffset] == p1[PidOffset..EpfdOffset];
    assert b2[PidOffset..EpfdOffset] == p2[PidOffset..EpfdOffset];
    assert b1[EpfdOffset..OpOffset] == p1[EpfdOffset..OpOffset];
    assert b2[EpfdOffset..OpOffset] == p2[EpfdOffset..OpOffset];
    assert b1[OpOffset..FdOffset] == p1[OpOffset..FdOffset];
    assert b2[OpOffset..FdOffset] == p2[OpOffset..FdOffset];
    assert b1[FdOffset..EventOffset] == p1[FdOffset..EventOffset];
    assert b2[FdOffset..EventOffset] == p2[FdOffset..EventOffset];
    assert b1[EventOffset..ReturnOffset] == p1[EventOffset..ReturnOffset];
    assert b2[EventOffset..ReturnOffset] == p2[EventOffset..ReturnOffset];
    assert b1[ReturnOffset..RecordSize] == p1[ReturnOffset..RecordSize];
    assert b2[ReturnOffset..RecordSize] == p2[ReturnOffset..RecordSize];
  }

  /** The symbolic name `Display` prints for an op code. */
  function OpName(op: U64): string {
    match op
    case 1 => "EPOLL_CTL_ADD"
    case 2 => "EPOLL_CTL_DEL"
    case 3 => "EPOLL_CTL_MOD"
    case _ => "INVALID_OPCODE"
  }

  /** Each valid op code has its own name; every other code shares `INVALID_OPCODE`. */
  lemma OpNames(op: U64)
    ensures OpName(op) == "EPOLL_CTL_ADD" <==> op == 1
    ensures OpName(op) == "EPOLL_CTL_DEL" <==> op == 2
    ensures OpName(op) == "EPOLL_CTL_MOD" <==> op == 3
    ensures OpName(op) == "INVALID_OPCODE" <==> op !in {1, 2, 3}
    ensures |OpName(op)| > 0 && AllOf(OpName(op), IsNameChar)
  {
  }

  /** The `epoll_ctl(EPFD, OPNAME, FD, EVENT)` part both line formats share. */
  function RenderCall(epfd: U64, op: U64, fd: U64, e: EpollEvent): string {
    "epoll_ctl(" + NatToString(epfd) + ", " + OpName(op) + ", " + NatToString(fd) + ", "
      + RenderEvent(e) + ")"
  }

  /** `Display for EpollCtl`: `(pid: P) epoll_ctl(EPFD, OPNAME, FD, EVENT) = RET`. */
  function RenderLine(c: EpollCtl): string {
    "(pid: " + NatToString(c.pid) + ") " + RenderCall(c.epfd, c.op, c.fd, c.epollEvent)
      + " = " + IntToString(c.returnValue)
  }

  /** What can be read back from the call part of a line. */
  datatype CallText = CallText(epfd: nat, opName: string, fd: nat, event: string)

  /** What can be read back from a whole line. */
  datatype LineText = LineText(pid: nat, call: CallText, returnValue: int)

  /** Reads the call part at the front of s, returning it and what follows. */
  function ParseCall(s: string): Option<(CallText, string)> {
    var r1 :- Expect(s, "epoll_ctl(");
    var head :- ParseHead(r1);
    var tail :- ParseTail(head.2);
    Some((CallText(head.0, head.1, tail.0, tail.1), tail.2))
  }

  /** Reads `EPFD, OPNAME, ` */
  function ParseHead(s: string): Option<(nat, string, string)> {
    var t :- TakeNat(s);
    var r1 :- Expect(t.1, ", ");
    var k := PrefixWhile(r1, IsNameChar);
    var r2 :- Expect(r1[k..], ", ");
    Some((t.0, r1[..k], r2))
  }

  /** Reads `FD, EVENT)` */
  function ParseTail(s: string): Option<(nat, string, string)> {
    var t :- TakeNat(s);
    var r1 :- Expect(t.1, ", ");
    var j := PrefixWhile(r1, NotCloseParen);
    var r2 :- Expect(r1[j..], ")");
    Some((t.0, r1[..j], r2))
  }

  /** Reads a whole line. */
  function ParseLine(s: string): Option<LineText> {
    var r1 :- Expect(s, "(pid: ");
    var t :- TakeNat(r1);
    var r2 :- Expect(t.1, ") ");
    var c :- ParseCall(r2);
    var r3 :- Expect(c.1, " = ");
    var ret :- ParseInt(r3);
    Some(LineText(t.0, c.0, ret))
  }

  /** A rendered event contains no closing parenthesis, so the call ends at the first one. */
  lemma RenderEventLacksParen(e: EpollEvent)
    ensures AllOf(RenderEvent(e), NotCloseParen)
  {
    RenderLacksBraces(e.events);
    EventTextLacksParen(Render(e.events), NatToString(e.data.Uint32()), NatToString(e.data.uint64));
  }

  lemma EventTextLacksParen(flags: string, x: string, y: string)
    requires AllOf(flags, NotCloseParen) && AllDigits(x) && AllDigits(y)
    ensures AllOf("{ events={ " + flags + " }, data={ u32: " + x + ", u64: " + y + " } }", NotCloseParen)
  {
    assert AllOf(x, NotCloseParen) && AllOf(y, NotCloseParen);
    AllOfConcat("{ events={ ", flags, NotCloseParen);
    AllOfConcat("{ events={ " + flags, " }, data={ u32: ", NotCloseParen);
    AllOfConcat("{ events={ " + flags + " }, data={ u32: ", x, NotCloseParen);
    AllOfConcat("{ events={ " + flags + " }, data={ u32: " + x, ", u64: ", NotCloseParen);
    AllOfConcat("{ events={ " + flags + " }, data={ u32: " + x + ", u64: ", y, NotCloseParen);
    AllOfConcat("{ events={ " + flags + " }, data={ u32: " + x + ", u64: " + y, " } }", NotCloseParen);
  }

  lemma ParseRenderHead(epfd: U64, op: U64, rest: string)
    ensures ParseHead(NatToString(epfd) + (", " + (OpName(op) + (", " + rest))))
      == Some((epfd as nat, OpName(op), rest))
  {
    var name := OpName(op);
    var tail2 := name + (", " + rest);
    TakeNatOf(epfd, ", " + tail2);
    ExpectConcat(", ", tail2);
    OpNames(op);
    PrefixWhileConcat(name, ", " + rest, IsNameChar);
    assert tail2[..|name|] == name && tail2[|name|..] == ", " + rest;
    ExpectConcat(", ", rest);
  }

  lemma ParseTailOf(fd: U64, ev: string, rest: string)
    requires AllOf(ev, NotCloseParen)
    ensures ParseTail(NatToString(fd) + (", " + (ev + (")" + rest)))) == Some((fd as nat, ev, rest))
  {
    var tail := ev + (")" + rest);
    TakeNatOf(fd, ", " + tail);
    ExpectConcat(", ", tail);
    PrefixWhileConcat(ev, ")" + rest, NotCloseParen);
    assert tail[..|ev|] == ev && tail[|ev|..] == ")" + rest;
    ExpectConcat(")", rest);
  }

  lemma ParseCallOf(epfd: U64, op: U64, fd: U64, ev: string, rest: string)
    requires AllOf(ev, NotCloseParen)
    ensures ParseCall("epoll_ctl(" + NatToString(epfd) + ", " + OpName(op) + ", " + NatToString(fd) + ", " + ev + ")" + rest)
      == Some((CallText(epfd, OpName(op), fd, ev), rest))
  {
    var tail := NatToString(fd) + (", " + (ev + (")" + rest)));
    var head := NatToString(epfd) + (", " + (OpName(op) + (", " + tail)));
    CallPieces(NatToString(epfd), OpName(op), NatToString(fd), ev, rest);
    ExpectConcat("epoll_ctl(", head);
    ParseRenderHead(epfd, op, tail);
    ParseTailOf(fd, ev, rest);
  }

  /** Regrouping a call text so that each piece is read off the front in turn. */
  lemma CallPieces(a: string, b: string, c: string, ev: string, rest: string)
    ensures "epoll_ctl(" + a + ", " + b + ", " + c + ", " + ev + ")" + rest
      == "epoll_ctl(" + (a + (", " + (b + (", " + (c + (", " + (ev + (")" + rest))))))))
  {
  }

  lemma ParseRenderCall(epfd: U64, op: U64, fd: U64, e: EpollEvent, rest: string)
    ensures ParseCall(RenderCall(epfd, op, fd, e) + rest)
      == Some((CallText(epfd, OpName(op), fd, RenderEvent(e)), rest))
  {
    RenderEventLacksParen(e);
    ParseCallOf(epfd, op, fd, RenderEvent(e), rest);
  }

  /** Reading a rendered line gives back the pid, the call's fields (the op as
      its name) and the return value. */
  lemma ParseRenderLine(c: EpollCtl)
    ensures ParseLine(RenderLine(c)) == Some(LineText(
      c.pid, CallText(c.epfd, OpName(c.op), c.fd, RenderEvent(c.epollEvent)), c.returnValue))
  {
    var call := RenderCall(c.epfd, c.op, c.fd, c.epollEvent);
    var ret := IntToString(c.returnValue);
    var tail2 := call + (" = " + ret);
    var tail1 := NatToString(c.pid) + (") " + tail2);
    assert RenderLine(c) == "(pid: " + tail1;
    ExpectConcat("(pid: ", tail1);
    TakeNatOf(c.pid, ") " + tail2);
    ExpectConcat(") ", tail2);
    ParseRenderCall(c.epfd, c.op, c.fd, c.epollEvent, " = " + ret);
    ExpectConcat(" = ", ret);
    ParseIntToString(c.returnValue);
  }

  /** Two decoded calls print the same line only if they agree on every field,
      except that invalid op codes all print alike. */
  lemma RenderLineInjective(c1: EpollCtl, c2: EpollCtl)
    requires c1.epollEvent.events & !DeclaredMask == 0 && c2.epollEvent.events & !DeclaredMask == 0
    requires RenderLine(c1) == RenderLine(c2)
    ensures c1.pid == c2.pid && c1.epfd == c2.epfd && c1.fd == c2.fd
    ensures c1.epollEvent == c2.epollEvent && c1.returnValue == c2.returnValue
    ensures OpName(c1.op) == OpName(c2.op)
    ensures c1.op in {1, 2, 3} ==> c1.op == c2.op
  {
    ParseRenderLine(c1);
    ParseRenderLine(c2);
    RenderEventInjective(c1.epollEvent, c2.epollEvent);
    OpNames(c1.op);
    OpNames(c2.op);
  }
}
