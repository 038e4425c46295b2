# epoll-spy in Dafny

epoll-spy watches the `epoll_ctl` calls of chosen processes. An eBPF probe on
the `sys_enter_epoll_ctl` tracepoint captures the arguments of calls made by
watched pids, including the 12-byte `struct epoll_event` they point to. A second
probe on `sys_exit_epoll_ctl` attaches the return code and sends a packed
48-byte record to userland. There the record is decoded and printed as one line:

    (pid: 42) epoll_ctl(5, EPOLL_CTL_ADD, 7, { events={ EPOLLIN }, data={ u32: 0, u64: 0 } }) = 0

The userland helper `get_threads` widens a set of pids with the thread ids of
their tasks and, recursively, of their child processes. The loader in
`epoll-spy/src/main.rs` fills the `PIDS` filter from the command line. It
attaches only the entry probe, and it neither calls `get_threads` nor reads the
perf array. The model covers the two probes, both decoders and `get_threads` each on
their own terms.

This project models those pieces as pure functions over immutable data:

- `bytes.dfy` (`Bytes`): fixed-width integers, little-endian images, and
  two's-complement `i64`.
- `text.dfy`, `decimal.dfy` (`Text`, `Decimal`): Rust's `join` and `{}`
  formatting of integers. They also hold the scanners used to read a
  rendered line back.
- `events.dfy` (`Events`): the fifteen `Events` flags, `from_bits(..).unwrap_or_default()`,
  and the `Display` impl that names the set flags in a fixed order.
- `epoll_event.dfy` (`EpollEvent`): the 12-byte event image, the `epoll_data`
  union and its two views, and the event rendering.
- `wire.dfy` (`Wire`): the packed `EpollCtlArgs` / `RawEpollCtl` layout.
- `epoll_ctl.dfy` (`EpollCtl`): the 48-byte userland decoder and its line format.
- `legacy_ctl.dfy` (`LegacyCtl`): the older 36-byte decoder and its line format.
- `capture.dfy` (`Capture`): `EpollCtlArgs::from_ctx` and `send`. The
  tracepoint context becomes a value: the pid, the readable words of the
  tracepoint record by offset, and the readable user memory by address.
- `correlation.dfy` (`Correlation`): the entry and exit handlers as
  transitions over the `PIDS` filter, the bounded `EPOLL_CTL` table of pending
  calls, and the sequence of records sent. It also covers runs of many hooks
  and the loader's filling of `PIDS`.
- `follow_threads.dfy` (`FollowThreads`): `get_threads` over a process table.
  The table maps each pid to its tasks, and each task has a thread id and an
  optional child set. A rank function, smaller for children than for parents,
  stands for the acyclicity of the process tree.
- `end_to_end.dfy` (`EndToEnd`): entry, exit, encoding and decoding together,
  and the example line above.

Behaviour of the code a reader might not expect; the model follows the code:

- The 48-byte decoder refuses only buffers shorter than the record
  (`epoll-spy/src/epoll/epoll_ctl.rs:61`). Longer buffers decode from their
  first 48 bytes. The older decoder is the one that demands an exact length.
- A mask with any undeclared bit decodes to the empty set, because
  `from_bits` fails and `unwrap_or_default` yields no flags. So `0xFFFFFFFF`
  renders no names (`Events.FromBitsEmptyExamples`).
- The event text has a space inside each brace: `{ events={ EPOLLIN }, data=... }`.
- `get_threads` is not iterated to a fixed point. Thread ids found in one call
  are not visited in that call (`FollowThreads.NotReexpandedExample`).
- The exit handler never deletes the pending call. If a later entry for the
  same pid fails to capture, the next exit sends the earlier call's record
  again with the new return code (`Correlation.StaleRecordResent`). It does not
  drop the exit.

## Model

| member | source | states |
|---|---|---|
| Events.FlagsAreDistinctBits | epoll-spy/src/epoll/mod.rs:18-37 | every declared flag is a single bit, and no two flags share one |
| Events.DeclaredMaskIsUnion | epoll-spy/src/epoll/mod.rs:18-37 | the union of the fifteen flag bits is 0xF00027DF |
| Events.FromBits | epoll-spy/src/epoll/epoll_ctl.rs:32 | the decoded set never holds an undeclared bit, and is either empty or the raw value |
| Events.FromBitsContains | epoll-spy/src/epoll/epoll_ctl.rs:32 | a value with an undeclared bit decodes to the empty set; otherwise a flag is in the set iff its bit is in the value |
| Events.FlagNamesMembership | epoll-spy/src/epoll/mod.rs:53-105 | a flag's name is listed iff the flag's bit is set |
| Events.FlagNamesOrdered | epoll-spy/src/epoll/mod.rs:57-101 | the names follow the fixed display order (IN, PRI, OUT, RDNORM, ..., ET, not numeric order) and none repeats |
| Events.FlagNamesCount | epoll-spy/src/epoll/mod.rs:57-101 | the number of names equals the number of declared flags the set contains |
| Events.FlagNamesRoundTrip | epoll-spy/src/epoll/mod.rs:53-105 | mapping the listed names back to bits gives exactly the declared bits of the set |
| Events.RenderSplits | epoll-spy/src/epoll/mod.rs:103 | the " \| "-joined text splits back into the list of names |
| Events.RenderEmpty | epoll-spy/src/epoll/mod.rs:103 | the text is empty iff no declared flag is set |
| Events.FromBitsEmptyExamples | epoll-spy/src/epoll/epoll_ctl.rs:32 | 0 and 0xFFFFFFFF both decode to the empty set and render as nothing |
| Events.FromBitsSingleExample | epoll-spy/src/epoll/mod.rs:57-59 | 0x001 is listed as exactly EPOLLIN |
| Events.FromBitsPairExample | epoll-spy/src/epoll/mod.rs:57-65 | 0x005 is listed as EPOLLIN then EPOLLOUT |
| Events.FromBitsAllExample | epoll-spy/src/epoll/mod.rs:57-101 | the full declared mask lists all fifteen names in display order |
| EpollEvent.DecodeEvent | epoll-spy/src/epoll/epoll_ctl.rs:18-33 | the u32 view of the data is the LE value of event bytes 4..7, and the mask holds no undeclared bit |
| EpollEvent.DecodeEncodeEvent | epoll-spy/src/epoll/epoll_ctl.rs:19-33 | decoding the image of a mask and data gives that data and the mask as from_bits accepts it |
| EpollEvent.EncodeDecodeEvent | epoll-spy/src/epoll/epoll_ctl.rs:19-30 | every 12-byte image is the encoding of the u32 and u64 read from it |
| EpollEvent.DataViewsAgree | epoll-spy/src/epoll/mod.rs:39-45 | the u32 view is the u64 view modulo 2^32, read from bytes 4..7 |
| EpollEvent.ParseRenderViews | epoll-spy/src/epoll/mod.rs:39-45 | the data text reads back as both numeric views |
| EpollEvent.ParseRenderEvent | epoll-spy/src/epoll/mod.rs:47-51 | the event text reads back as its flag names and both data views |
| EpollEvent.RenderEventInjective | epoll-spy/src/epoll/mod.rs:39-51 | two decoded events with the same text are equal |
| Wire.Encode | epoll-spy-ebpf/src/epoll_ctl.rs:7-15 | the packed image is 48 bytes with pid, epfd, op, fd, event and return value at offsets 0, 4, 12, 20, 28, 40 |
| EpollCtl.RawDecode | epoll-spy/src/epoll/epoll_ctl.rs:59-69 | a buffer decodes iff it has at least 48 bytes |
| EpollCtl.Decode | epoll-spy/src/epoll/epoll_ctl.rs:15-46 | decoding succeeds iff the buffer has at least 48 bytes; each field is the LE value at its offset, the mask goes through from_bits, and the data is the LE u64 at bytes 32..39 |
| EpollCtl.RawDecodeEncode | epoll-spy/src/epoll/epoll_ctl.rs:48-69 | decoding a record's image, with anything appended, gives back the record |
| EpollCtl.DecodeEncode | epoll-spy/src/epoll/epoll_ctl.rs:15-46 | decoding a record's image gives its fields with the event decoded |
| EpollCtl.EncodeRawDecode | epoll-spy/src/epoll/epoll_ctl.rs:48-69 | re-encoding a decoded record reproduces the first 48 bytes of the buffer |
| EpollCtl.DecodeIgnoresTrailing | epoll-spy/src/epoll/epoll_ctl.rs:59-69 | buffers that agree on their first 48 bytes decode alike |
| EpollCtl.OpNames | epoll-spy/src/epoll/epoll_ctl.rs:74-79 | 1, 2 and 3 are named ADD, DEL and MOD, and only they; every other op is INVALID_OPCODE |
| EpollCtl.ParseRenderCall | epoll-spy/src/epoll/epoll_ctl.rs:80-84 | the call text reads back as epfd, op name, fd and event text, in that order |
| EpollCtl.ParseRenderLine | epoll-spy/src/epoll/epoll_ctl.rs:72-85 | the line reads back as pid, call and return value |
| EpollCtl.RenderLineInjective | epoll-spy/src/epoll/epoll_ctl.rs:72-85 | two decoded calls with the same line agree on every field, except that invalid op codes print alike |
| LegacyCtl.Encode | epoll-spy/src/epoll_ctl.rs:158-165 | the 36-byte image has epfd, op and fd at offsets 0, 8 and 16, and the event at bytes 24..35 |
| LegacyCtl.RawDecode | epoll-spy/src/epoll_ctl.rs:167-178 | a buffer decodes iff it has exactly 36 bytes |
| LegacyCtl.Decode | epoll-spy/src/epoll_ctl.rs:127-156 | decoding succeeds iff the length is 36; fields are the LE values at their offsets, and the event is decoded as in the 48-byte variant |
| LegacyCtl.RawDecodeEncode | epoll-spy/src/epoll_ctl.rs:158-178 | decoding a record's image gives back the record |
| LegacyCtl.EncodeRawDecode | epoll-spy/src/epoll_ctl.rs:158-178 | re-encoding a decoded record reproduces the buffer |
| LegacyCtl.TrailingRefused | epoll-spy/src/epoll_ctl.rs:167-171 | a record with bytes appended is refused |
| LegacyCtl.RenderLine | epoll-spy/src/epoll_ctl.rs:36-50 | the line reads back as epfd, op name, fd and event text, with nothing after the closing parenthesis |
| LegacyCtl.LinesAgree | epoll-spy/src/epoll_ctl.rs:44-48 | the newer line is the older line framed by the pid and the return value |
| LegacyCtl.DecodersAgree | epoll-spy/src/epoll_ctl.rs:127-165 | bytes 4..39 of a 48-byte record decode in the older format to the same epfd, op, fd and event |
| Capture.EventPtr | epoll-spy-ebpf/src/epoll_ctl.rs:20 | the user pointer is the word at offset 40, or 0 when that read fails |
| Capture.FromCtx | epoll-spy-ebpf/src/epoll_ctl.rs:19-34 | a record is built iff the 12-byte user read succeeds; it carries the context's pid, exactly the bytes read, and return value 0 |
| Capture.FromCtxArguments | epoll-spy-ebpf/src/epoll_ctl.rs:26-28 | epfd, op and fd are the words at offsets 16, 24 and 32, each 0 when unreadable |
| Capture.CaptureIndependentOfArguments | epoll-spy-ebpf/src/epoll_ctl.rs:20-23 | whether a capture happens depends only on the pointer word and user memory |
| Capture.Send | epoll-spy-ebpf/src/epoll_ctl.rs:37-39 | the record is appended to the output unchanged, and nothing else changes |
| Correlation.Insert | epoll-spy-ebpf/src/main.rs:33 | an insert stores the value when the key exists or the map is below capacity, keeps every other key, adds no other key, and never exceeds capacity |
| Correlation.InsertFails | epoll-spy-ebpf/src/main.rs:33 | an insert leaves the map as it was iff the same value was already stored or the key is new and the map is full |
| Correlation.OnEnter | epoll-spy-ebpf/src/main.rs:26-38 | the entry handler returns 0, changes neither the filter nor the output, and changes no pending key but the caller's |
| Correlation.ExitCode | epoll-spy-ebpf/src/main.rs:44 | the return code is the signed word at offset 16, or -1 when unreadable |
| Correlation.OnExit | epoll-spy-ebpf/src/main.rs:40-56 | the exit handler returns 0 and keeps the pending table; it sends the pending record with the return code attached iff one exists |
| Correlation.EnterUnwatched | epoll-spy-ebpf/src/main.rs:29-30 | an entry from a pid not mapped to 1 changes nothing |
| Correlation.EnterCaptureFails | epoll-spy-ebpf/src/main.rs:31 | an entry whose capture fails changes nothing |
| Correlation.EnterOverwrites | epoll-spy-ebpf/src/main.rs:33 | a watched capture replaces the pid's pending call; every other key is unchanged |
| Correlation.EnterTableFull | epoll-spy-ebpf/src/main.rs:23-33 | with 10240 pending calls, a capture for a new pid is silently dropped |
| Correlation.ExitGatedByPending | epoll-spy-ebpf/src/main.rs:43 | an exit sends one record iff a call is pending, whatever the filter says |
| Correlation.RepeatedExits | epoll-spy-ebpf/src/main.rs:40-56 | two exits send the same pending record twice, each with its own return code |
| Correlation.StaleRecordResent | epoll-spy-ebpf/src/main.rs:26-56 | after an entry whose capture fails, the exit resends the earlier pending record |
| Correlation.EnterPreserves | epoll-spy-ebpf/src/main.rs:26-38 | the entry handler keeps every pending call a fresh capture of its own watched pid, within capacity |
| Correlation.ExitPreserves | epoll-spy-ebpf/src/main.rs:40-56 | the exit handler keeps that invariant, and sends only records of watched pids |
| Correlation.RunPreserves | epoll-spy-ebpf/src/main.rs:26-56 | any sequence of hooks keeps the invariant and only appends to the output |
| Correlation.RunSendsOnlyCaptures | epoll-spy-ebpf/src/main.rs:26-56 | from empty tables, every pending call and sent record is, return value aside, what some watched entry captured |
| Correlation.InitialPids | epoll-spy/src/main.rs:51-59 | the filter holds at most 4096 pids, each one listed and mapped to 1 |
| Correlation.InitialPidsWatched | epoll-spy/src/main.rs:54-56 | when the distinct listed pids fit in the table, all of them are watched |
| FollowThreads.TasksOf | epoll-spy/src/follow_threads.rs:9-20 | a pid beyond the i32 range, or with no process or no readable task list, has no tasks |
| FollowThreads.Expand | epoll-spy/src/follow_threads.rs:35-38 | the result always contains the input pids |
| FollowThreads.GetThreads | epoll-spy/src/follow_threads.rs:5-39 | the loop-based procedure computes exactly the expansion |
| FollowThreads.VisitTasks | epoll-spy/src/follow_threads.rs:21-33 | the task loop adds exactly the tasks' contributions |
| FollowThreads.VisitTask | epoll-spy/src/follow_threads.rs:22-31 | one task adds its positive thread id and its expanded child set, or nothing if it failed to load |
| FollowThreads.SkippedPid | epoll-spy/src/follow_threads.rs:9-20 | an out-of-range or unreadable pid contributes nothing beyond itself |
| FollowThreads.TasksContribMembers | epoll-spy/src/follow_threads.rs:21-33 | a process adds x iff one of its loaded tasks does |
| FollowThreads.ExpandMembers | epoll-spy/src/follow_threads.rs:5-39 | x is in the result iff it is an input pid, or a positive tid of an input pid's task, or in the expansion of such a task's children |
| FollowThreads.ExpandMonotone | epoll-spy/src/follow_threads.rs:35-38 | a larger input never gives a smaller result |
| FollowThreads.ExpandUnion | epoll-spy/src/follow_threads.rs:8-38 | the result for a union of inputs is the union of the results |
| FollowThreads.TwoThreadsExample | epoll-spy/src/follow_threads.rs:21-31 | a process with two threads and no children expands to its pid and both tids |
| FollowThreads.ExitedProcessExample | epoll-spy/src/follow_threads.rs:13-20 | a pid with no process adds nothing and does not disturb the others |
| FollowThreads.NotReexpandedExample | epoll-spy/src/follow_threads.rs:8-35 | tids found in a call are not visited in that call; a second call finds more |
| FollowThreads.ParentChildExample | epoll-spy/src/follow_threads.rs:23-27 | a child's pid and its thread ids are merged into the parent's result |
| EndToEnd.EntryThenExit | epoll-spy-ebpf/src/main.rs:26-56 | a watched entry and its exit send one record whose userland decoding shows the entry's pid, arguments and event, and the exit's return code |
| EndToEnd.ScenarioRecord | epoll-spy-ebpf/src/main.rs:26-56 | with pid 42 watched, the example entry and exit send exactly the record (42, 5, 1, 7, EPOLLIN image, 0) |
| EndToEnd.ScenarioEvent | epoll-spy/src/epoll/mod.rs:47-51 | the example event renders as `{ events={ EPOLLIN }, data={ u32: 0, u64: 0 } }` |
| EndToEnd.ScenarioLine | epoll-spy/src/epoll/epoll_ctl.rs:80-84 | the example prints `(pid: 42) epoll_ctl(5, EPOLL_CTL_ADD, 7, { events={ EPOLLIN }, data={ u32: 0, u64: 0 } }) = 0` |

## Left out

- Command-line parsing, the memlock `setrlimit`, BPF loading and attaching,
  logger set-up and the Ctrl-C wait in `epoll-spy/src/main.rs`. These are
  loader plumbing. Only the filling of `PIDS` is modelled (`Correlation.InitialPids`).
- `ebpf/sys_filter.c`: a stub probe that only prints and returns 0.
- The perf event array transport, its per-CPU buffers and overflow, and the
  userland reading of that array. The loader has no such loop, and the
  transport is kernel I/O. Sending is modelled as appending to a sequence, and
  decoding as a function applied to each record.
- The attachment of the exit probe. The loader attaches only `epoll_spy`, but
  the model runs both handlers, the entry and exit tracepoints the probe
  program defines (epoll-spy-ebpf/src/main.rs:26-56).
- Concurrency between handlers on different CPUs. Each handler runs as one
  atomic transition.
- `procfs`. The process table stands for `Process::new`, `tasks()` and
  `children()`, so a process that changes between lookups is not modelled.
- The `aya_log` `info!` call in the entry handler. It has no effect on state.
- The `unsafe` `ptr::read` and the union field reads. They are modelled as
  explicit little-endian decoding on a little-endian machine.
- `bitflags` internals. Only `from_bits(..).unwrap_or_default()` and
  `contains` are modelled.
- Capture.ReadAt: the context read is a lookup in a map of 64-bit words.
  The exit handler's `read_at::<i64>` reads the same word as two's complement.
  Reads narrower than 64 bits do not occur.
- FollowThreads.Expand: the source relies on the process tree being finite
  and acyclic. The model requires a rank function that witnesses this, so
  tables with cycles are outside the model.
- EpollCtl.RenderLineInjective: op codes other than 1, 2 and 3 all print as
  `INVALID_OPCODE`, so the line determines the op only up to that name.
- EndToEnd.ScenarioLine: the expected line is written as a concatenation of
  three literal pieces rather than one literal.
