/** The older userland decoder (`epoll-spy/src/epoll_ctl.rs`): a 36-byte record
    without pid or return value, accepted only at exactly that length, and
    printed as the bare call. Its flag set and event rendering are the same as
    the newer decoder's. */
module LegacyCtl {
  import opened Wrappers
  import opened Bytes
  import opened Decimal
  import opened Events
  import opened EpollEvent
  import EpollCtl

  const EpfdOffset: nat := 0
  const OpOffset: nat := 8
  const FdOffset: nat := 16
  const EventOffset: nat := 24
  const RecordSize: nat := 36

  /** The packed record: three `u64`s and the 12-byte event image. */
  datatype RawLegacyCtl = RawLegacyCtl(epfd: U64, op: U64, fd: U64, epollEvent: EventImage)

  /** The decoded call. */
  datatype LegacyCtl = LegacyCtl(epfd: U64, op: U64, fd: U64, epollEvent: EpollEvent)

  /** The byte image of a record. */
  function Encode(a: RawLegacyCtl): (bs: seq<byte>)
    ensures |bs| == RecordSize
    ensures LeValue(bs[EpfdOffset..OpOffset]) == a.epfd
    ensures LeValue(bs[OpOffset..FdOffset]) == a.op
    ensures LeValue(bs[FdOffset..EventOffset]) == a.fd
    ensures bs[EventOffset..RecordSize] == a.epollEvent
  {
    var bs := U64Bytes(a.epfd) + U64Bytes(a.op) + U64Bytes(a.fd) + a.epollEvent;
    assert bs[EpfdOffset..OpOffset] == U64Bytes(a.epfd);
    assert bs[OpOffset..FdOffset] == U64Bytes(a.op);
    assert bs[FdOffset..EventOffset] == U64Bytes(a.fd);
    assert bs[EventOffset..RecordSize] == a.epollEvent;
    bs
  }

  /** `RawEpollCtl::new`: any length other than exactly 36 is refused. */
  function RawDecode(bs: seq<byte>): (r: Option<RawLegacyCtl>)
    ensures r.Some? <==> |bs| == RecordSize
  {
    if |bs| != RecordSize then None
    else Some(RawLegacyCtl(
      LeU64(bs[EpfdOffset..OpOffset]),
      LeU64(bs[OpOffset..FdOffset]),
      LeU64(bs[FdOffset..EventOffset]),
      bs[EventOffset..RecordSize]))
  }

  /** `EpollCtl::new`. */
  function Decode(bs: seq<byte>): (r: Option<LegacyCtl>)
    ensures r.Some? <==> |bs| == RecordSize
    ensures r.Some? ==>
      && r.value.epfd == LeValue(bs[0..8])
      && r.value.op == LeValue(bs[8..16])
      && r.value.fd == LeValue(bs[16..24])
      && r.value.epollEvent.events == FromBits(LeValue(bs[24..28]))
      && r.value.epollEvent.data.uint64 == LeValue(bs[28..36])
  {
    match RawDecode(bs)
    case None => None
    case Some(raw) =>
      assert raw.epollEvent[..4] == bs[24..28] && raw.epollEvent[4..] == bs[28..36];
      Some(LegacyCtl(raw.epfd, raw.op, raw.fd, DecodeEvent(raw.epollEvent)))
  }

  /** Decoding the image of a record recovers it. */
  lemma RawDecodeEncode(a: RawLegacyCtl)
    ensures RawDecode(Encode(a)) == Some(a)
  {
  }

  /** Re-encoding a decoded record reproduces the bytes it came from. */
  lemma EncodeRawDecode(bs: seq<byte>)
    requires |bs| == RecordSize
    ensures Encode(RawDecode(bs).value) == bs
  {
    var e := Encode(RawDecode(bs).value);
    LeValueInjective(e[EpfdOffset..OpOffset], bs[EpfdOffset..OpOffset]);
    LeValueInjective(e[OpOffset..FdOffset], bs[OpOffset..FdOffset]);
    LeValueInjective(e[FdOffset..EventOffset], bs[FdOffset..EventOffset]);
    assert e == e[EpfdOffset..OpOffset] + e[OpOffset..FdOffset] + e[FdOffset..EventOffset] + e[EventOffset..RecordSize];
    assert bs == bs[EpfdOffset..OpOffset] + bs[OpOffset..FdOffset] + bs[FdOffset..EventOffset] + bs[EventOffset..RecordSize];
  }

  /** A record with anything appended is refused, unlike in the newer decoder. */
  lemma TrailingRefused(a: RawLegacyCtl, trailing: seq<byte>)
    requires trailing != []
    ensures Decode(Encode(a) + trailing) == None
  {
  }

  /** `Display for EpollCtl`: `epoll_ctl(EPFD, OPNAME, FD, EVENT)`. */
  function RenderLine(c: LegacyCtl): (s: string)
    ensures EpollCtl.ParseCall(s) == Some((EpollCtl.CallText(c.epfd, EpollCtl.OpName(c.op), c.fd, RenderEvent(c.epollEvent)), ""))
  {
    var s := EpollCtl.RenderCall(c.epfd, c.op, c.fd, c.epollEvent);
    EpollCtl.ParseRenderCall(c.epfd, c.op, c.fd, c.epollEvent, "");
    assert s + "" == s;
    s
  }

  /** A line of the newer format is the older line framed by the pid and the
      return value. */
  lemma LinesAgree(c: EpollCtl.EpollCtl)
    ensures EpollCtl.RenderLine(c)
      == "(pid: " + NatToString(c.pid) + ") " + RenderLine(LegacyCtl(c.epfd, c.op, c.fd, c.epollEvent))
        + " = " + IntToString(c.returnValue)
  {
  }

  /** The two decoders agree on the call: the newer record's bytes from the
      epfd field to the end of the event image are laid out as the older record. */
  lemma DecodersAgree(a: EpollCtl.EpollCtl, bs: seq<byte>)
    requires |bs| >= 48
    requires EpollCtl.Decode(bs) == Some(a)
    ensures Decode(bs[4..40]) == Some(LegacyCtl(a.epfd, a.op, a.fd, a.epollEvent))
  {
    var old36 := bs[4..40];
    assert old36[0..8] == bs[4..12];
    assert old36[8..16] == bs[12..20];
    assert old36[16..24] == bs[20..28];
    assert old36[24..36] == bs[28..40];
    assert old36[24..28] == bs[28..32];
    assert old36[28..36] == bs[32..40];
  }
}
