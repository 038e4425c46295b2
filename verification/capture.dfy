/** The kernel-side record builder `EpollCtlArgs::from_ctx` and `send`. The
    tracepoint context is abstracted as the calling pid, the words its record
    holds at given offsets, and the user memory a probe read may copy from. */
module Capture {
  import opened Wrappers
  import opened Bytes
  import opened EpollEvent
  import opened Wire

  /** Offsets in the `sys_enter_epoll_ctl` record of the arguments read. */
  const EpfdArg: nat := 16
  const OpArg: nat := 24
  const FdArg: nat := 32
  const EventPtrArg: nat := 40

  /** Offset in the `sys_exit_epoll_ctl` record of the return code. */
  const ReturnArg: nat := 16

  /** A tracepoint context: the pid the helper reports, the words of the
      tracepoint record that can be read (an offset missing from `words`
      makes `read_at` fail), and the 12-byte user-memory images a
      `bpf_probe_read_user_buf` can copy (an address missing from
      `userMemory` makes it fail). */
  datatype TraceContext = TraceContext(
    pid: U32,
    words: map<nat, U64>,
    userMemory: map<U64, EventImage>)

  /** `ctx.read_at::<u64>(off)`. */
  function ReadAt(ctx: TraceContext, off: nat): (r: Option<U64>)
    ensures r.Some? <==> off in ctx.words
    ensures r.Some? ==> r.value == ctx.words[off]
  {
    if off in ctx.words then Some(ctx.words[off]) else None
  }

  /** `bpf_probe_read_user_buf(ptr, &mut [u8; 12])`. */
  function ReadUser(ctx: TraceContext, ptr: U64): (r: Option<EventImage>)
    ensures r.Some? <==> ptr in ctx.userMemory
    ensures r.Some? ==> r.value == ctx.userMemory[ptr]
  {
    if ptr in ctx.userMemory then Some(ctx.userMemory[ptr]) else None
  }

  /** The user pointer to the `struct epoll_event`, 0 when it cannot be read. */
  function EventPtr(ctx: TraceContext): (p: U64)
    ensures EventPtrArg in ctx.words ==> p == ctx.words[EventPtrArg]
    ensures EventPtrArg !in ctx.words ==> p == 0
  {
    ReadAt(ctx, EventPtrArg).GetOr(0)
  }

  /** `EpollCtlArgs::from_ctx`: nothing is captured unless the event copy
      succeeds; the numeric arguments fall back to 0 when unreadable, and
      the return value is left at 0 for the exit handler to fill in. */
  function FromCtx(ctx: TraceContext): (r: Option<EpollCtlArgs>)
    ensures r.Some? <==> EventPtr(ctx) in ctx.userMemory
    ensures r.Some? ==>
      && r.value.pid == ctx.pid
      && r.value.epollEvent == ctx.userMemory[EventPtr(ctx)]
      && r.value.returnValue == 0
  {
    var image :- ReadUser(ctx, EventPtr(ctx));
    Some(EpollCtlArgs(
      ctx.pid,
      ReadAt(ctx, EpfdArg).GetOr(0),
      ReadAt(ctx, OpArg).GetOr(0),
      ReadAt(ctx, FdArg).GetOr(0),
      image,
      0))
  }

  /** Each numeric argument is the word at its offset, or 0 when that read fails. */
  lemma FromCtxArguments(ctx: TraceContext)
    requires FromCtx(ctx).Some?
    ensures FromCtx(ctx).value.epfd == (if EpfdArg in ctx.words then ctx.words[EpfdArg] else 0)
    ensures FromCtx(ctx).value.op == (if OpArg in ctx.words then ctx.words[OpArg] else 0)
    ensures FromCtx(ctx).value.fd == (if FdArg in ctx.words then ctx.words[FdArg] else 0)
  {
  }

  /** Whether a capture happens depends only on the event copy, never on the
      numeric arguments: two contexts that differ only in those agree on it. */
  lemma CaptureIndependentOfArguments(c1: TraceContext, c2: TraceContext)
    requires c1.userMemory == c2.userMemory
    requires ReadAt(c1, EventPtrArg) == ReadAt(c2, EventPtrArg)
    ensures FromCtx(c1).Some? <==> FromCtx(c2).Some?
  {
  }

  /** `send`: the record is appended to the output stream as it is. */
  function Send(out: seq<EpollCtlArgs>, a: EpollCtlArgs): (r: seq<EpollCtlArgs>)
    ensures |r| == |out| + 1
    ensures r[..|out|] == out && r[|out|] == a
  {
    out + [a]
  }
}
