/** The packed `EpollCtlArgs` record that the kernel probe emits and the
    userland decoder reads back as `RawEpollCtl`: both are `repr(C, packed)`
    structs with the same fields in the same order, so one layout serves both.

      offset  0: pid           u32
      offset  4: epfd          u64
      offset 12: op            u64
      offset 20: fd            u64
      offset 28: epoll_event   [u8; 12]
      offset 40: return_value  i64
      size    48
*/
module Wire {
  import opened Bytes
  import opened EpollEvent

  const PidOffset: nat := 0
  const EpfdOffset: nat := 4
  const OpOffset: nat := 12
  const FdOffset: nat := 20
  const EventOffset: nat := 28
  const ReturnOffset: nat := 40
  const RecordSize: nat := 48

  datatype EpollCtlArgs = EpollCtlArgs(
    pid: U32,
    epfd: U64,
    op: U64,
    fd: U64,
    epollEvent: EventImage,
    returnValue: I64)

  /** The in-memory image of a record, little-endian and without padding. */
  function Encode(a: EpollCtlArgs): (bs: seq<byte>)
    ensures |bs| == RecordSize
    ensures LeValue(bs[PidOffset..EpfdOffset]) == a.pid
    ensures LeValue(bs[EpfdOffset..OpOffset]) == a.epfd
    ensures LeValue(bs[OpOffset..FdOffset]) == a.op
    ensures LeValue(bs[FdOffset..EventOffset]) == a.fd
    ensures bs[EventOffset..ReturnOffset] == a.epollEvent
    ensures AsI64(LeU64(bs[ReturnOffset..RecordSize])) == a.returnValue
  {
    var bs := U32Bytes(a.pid) + U64Bytes(a.epfd) + U64Bytes(a.op) + U64Bytes(a.fd)
      + a.epollEvent + U64Bytes(AsU64(a.returnValue));
    assert bs[PidOffset..EpfdOffset] == U32Bytes(a.pid);
    assert bs[EpfdOffset..OpOffset] == U64Bytes(a.epfd);
    assert bs[OpOffset..FdOffset] == U64Bytes(a.op);
    assert bs[FdOffset..EventOffset] == U64Bytes(a.fd);
    assert bs[EventOffset..ReturnOffset] == a.epollEvent;
    assert bs[ReturnOffset..RecordSize] == U64Bytes(AsU64(a.returnValue));
    bs
  }
}
