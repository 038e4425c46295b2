/** The two tracepoint handlers, `epoll_spy` on syscall entry and
    `epoll_spy_exit` on syscall exit, as transitions over the probe's maps:
    the read-only `PIDS` filter, the `EPOLL_CTL` table of pending calls and
    the stream of records sent to userland. */
module Correlation {
  import opened Wrappers
  import opened Bytes
  import opened Wire
  import opened Capture

  /** `PIDS` and `EPOLL_CTL` capacities. */
  const PidsMaxEntries: nat := 4096
  const PendingMaxEntries: nat := 10240

  /** The value `PIDS` holds for a watched pid. */
  const WatchedMark: U32 := 1

  /** `HashMap::insert(k, v, 0)` on a bounded BPF hash map (`BPF_ANY`): an
      existing key is updated in place; a new key is added only while the map
      is below capacity, otherwise the insert fails and the map is unchanged. */
  function Insert<K, V>(m: map<K, V>, k: K, v: V, capacity: nat): (r: map<K, V>)
    ensures k in m || |m| < capacity ==> k in r && r[k] == v
    ensures forall j :: j in m && j != k ==> j in r && r[j] == m[j]
    ensures forall j :: j in r ==> j in m || j == k
    ensures |r| <= if |m| < capacity then capacity else |m|
  {
    if k in m || |m| < capacity then
      assert k in m ==> m.Keys + {k} == m.Keys;
      m[k := v]
    else m
  }

  /** A failed insert is exactly one of a new key into a full map. */
  lemma InsertFails<K, V>(m: map<K, V>, k: K, v: V, capacity: nat)
    ensures Insert(m, k, v, capacity) == m <==> (k in m && m[k] == v) || (k !in m && |m| >= capacity)
  {
    if k in m || |m| < capacity {
      assert k in Insert(m, k, v, capacity);
    }
  }

  /** `PIDS.get(&pid)` yields a value equal to 1. */
  predicate Watched(pids: map<U32, U32>, pid: U32) {
    pid in pids && pids[pid] == WatchedMark
  }

  /** The probe's state between two handler runs. */
  datatype ProbeState = ProbeState(
    pids: map<U32, U32>,
    pending: map<U32, EpollCtlArgs>,
    sent: seq<EpollCtlArgs>)

  /** A handler's effect and the value it returns to the kernel. */
  datatype Step = Step(state: ProbeState, ret: I32)

  /** `epoll_spy`: a watched pid's capture is stored under its pid, replacing
      any earlier one; everything else leaves the state as it was. */
  function OnEnter(s: ProbeState, ctx: TraceContext): (r: Step)
    ensures r.ret == 0
    ensures r.state.pids == s.pids && r.state.sent == s.sent
    ensures forall k :: k != ctx.pid ==> (k in r.state.pending <==> k in s.pending)
    ensures forall k :: k != ctx.pid && k in s.pending ==> r.state.pending[k] == s.pending[k]
  {
    if Watched(s.pids, ctx.pid) then
      match FromCtx(ctx)
      case None => Step(s, 0)
      case Some(args) =>
        Step(s.(pending := Insert(s.pending, ctx.pid, args, PendingMaxEntries)), 0)
    else Step(s, 0)
  }

  /** The return code the exit handler attaches: the signed word at offset 16,
      or -1 when it cannot be read. */
  function ExitCode(ctx: TraceContext): (r: I64)
    ensures ReturnArg in ctx.words ==> r == AsI64(ctx.words[ReturnArg])
    ensures ReturnArg !in ctx.words ==> r == -1
  {
    match ReadAt(ctx, ReturnArg)
    case Some(w) => AsI64(w)
    case None => -1
  }

  /** `epoll_spy_exit`: when a call is pending for the pid, its record is sent
      with the return code attached. The pending table is never changed. */
  function OnExit(s: ProbeState, ctx: TraceContext): (r: Step)
    ensures r.ret == 0
    ensures r.state.pids == s.pids && r.state.pending == s.pending
    ensures ctx.pid !in s.pending ==> r.state.sent == s.sent
    ensures ctx.pid in s.pending ==> r.state.sent == s.sent + [s.pending[ctx.pid].(returnValue := ExitCode(ctx))]
  {
    if ctx.pid in s.pending then
      var args := s.pending[ctx.pid];
      var record := EpollCtlArgs(args.pid, args.epfd, args.op, args.fd, args.epollEvent, ExitCode(ctx));
      Step(s.(sent := Send(s.sent, record)), 0)
    else Step(s, 0)
  }

  /** An entry from a pid that `PIDS` does not map to 1 changes nothing. */
  lemma EnterUnwatched(s: ProbeState, ctx: TraceContext)
    requires !Watched(s.pids, ctx.pid)
    ensures OnEnter(s, ctx).state == s
  {
  }

  /** An entry whose event copy fails changes nothing. */
  lemma EnterCaptureFails(s: ProbeState, ctx: TraceContext)
    requires EventPtr(ctx) !in ctx.userMemory
    ensures OnEnter(s, ctx).state == s
  {
  }

  /** A successful capture from a watched pid becomes its pending call,
      overwriting an earlier one, when the table has room or the pid is already
      in it; no other entry changes. */
  lemma EnterOverwrites(s: ProbeState, ctx: TraceContext)
    requires Watched(s.pids, ctx.pid) && FromCtx(ctx).Some?
    requires ctx.pid in s.pending || |s.pending| < PendingMaxEntries
    ensures OnEnter(s, ctx).state.pending == s.pending[ctx.pid := FromCtx(ctx).value]
  {
    var r := OnEnter(s, ctx).state.pending;
    assert r.Keys == s.pending.Keys + {ctx.pid};
  }

  /** With the table full, a capture from a pid that has no pending call is
      silently dropped. */
  lemma EnterTableFull(s: ProbeState, ctx: TraceContext)
    requires ctx.pid !in s.pending && |s.pending| >= PendingMaxEntries
    ensures OnEnter(s, ctx).state == s
  {
  }

  /** An exit sends something exactly when a call is pending for its pid,
      whatever `PIDS` says. */
  lemma ExitGatedByPending(s: ProbeState, ctx: TraceContext, pids: map<U32, U32>)
    ensures |OnExit(s, ctx).state.sent| == |s.sent| + (if ctx.pid in s.pending then 1 else 0)
    ensures OnExit(s.(pids := pids), ctx).state.sent == OnExit(s, ctx).state.sent
  {
  }

  /** Two exits in a row send the pending record twice, each time with the
      return code of its own context. */
  lemma RepeatedExits(s: ProbeState, c1: TraceContext, c2: TraceContext)
    requires c1.pid == c2.pid && c1.pid in s.pending
    ensures var s2 := OnExit(OnExit(s, c1).state, c2).state;
      && s2.pending == s.pending
      && s2.sent == s.sent + [s.pending[c1.pid].(returnValue := ExitCode(c1)),
                              s.pending[c1.pid].(returnValue := ExitCode(c2))]
  {
  }

  /** When a later entry's event copy fails, the following exit sends the
      earlier call's record again, with the new return code. */
  lemma StaleRecordResent(s: ProbeState, enter: TraceContext, exit: TraceContext)
    requires enter.pid == exit.pid && exit.pid in s.pending
    requires FromCtx(enter).None?
    ensures OnExit(OnEnter(s, enter).state, exit).state.sent
      == s.sent + [s.pending[exit.pid].(returnValue := ExitCode(exit))]
  {
  }

  /** A hook firing: the entry or exit of an `epoll_ctl` call. */
  datatype Hook = Enter(ctx: TraceContext) | Exit(ctx: TraceContext)

  function Apply(s: ProbeState, h: Hook): ProbeState {
    match h
    case Enter(ctx) => OnEnter(s, ctx).state
    case Exit(ctx) => OnExit(s, ctx).state
  }

  /** The state after a sequence of hooks, one at a time. */
  function Run(s: ProbeState, hooks: seq<Hook>): (r: ProbeState)
    ensures r.pids == s.pids
    ensures s.sent <= r.sent
    decreases |hooks|
  {
    if hooks == [] then s else Apply(Run(s, hooks[..|hooks| - 1]), hooks[|hooks| - 1])
  }

  /** What the probe's maps look like between handler runs: every pending call
      is a fresh capture from its own watched pid, the table is within its
      capacity, and every record sent came from a watched pid. */
  ghost predicate Inv(s: ProbeState) {
    && |s.pending| <= PendingMaxEntries
    && (forall k :: k in s.pending ==> s.pending[k].pid == k && Watched(s.pids, k) && s.pending[k].returnValue == 0)
    && (forall i :: 0 <= i < |s.sent| ==> Watched(s.pids, s.sent[i].pid))
  }

  lemma EnterPreserves(s: ProbeState, ctx: TraceContext)
    requires Inv(s)
    ensures Inv(OnEnter(s, ctx).state)
  {
  }

  lemma ExitPreserves(s: ProbeState, ctx: TraceContext)
    requires Inv(s)
    ensures Inv(OnExit(s, ctx).state)
  {
    var r := OnExit(s, ctx).state;
    forall i | 0 <= i < |r.sent|
      ensures Watched(r.pids, r.sent[i].pid)
    {
      if i >= |s.sent| {
        assert r.sent[i] == s.pending[ctx.pid].(returnValue := ExitCode(ctx));
      }
    }
  }

  /** Every run keeps the invariant, and only ever appends to what was sent. */
  lemma {:induction false} RunPreserves(s: ProbeState, hooks: seq<Hook>)
    requires Inv(s)
    ensures Inv(Run(s, hooks))
    ensures s.sent <= Run(s, hooks).sent
  {
    if hooks != [] {
      var prev := Run(s, hooks[..|hooks| - 1]);
      RunPreserves(s, hooks[..|hooks| - 1]);
      match hooks[|hooks| - 1]
      case Enter(ctx) => EnterPreserves(prev, ctx);
      case Exit(ctx) => ExitPreserves(prev, ctx);
    }
  }

  /** The hook at index i is an entry of a watched pid whose capture is a. */
  ghost predicate CapturedBy(pids: map<U32, U32>, h: Hook, a: EpollCtlArgs) {
    h.Enter? && Watched(pids, h.ctx.pid) && FromCtx(h.ctx) == Some(a)
  }

  /** a, apart from its return value, was captured by one of the entries. */
  ghost predicate Genuine(pids: map<U32, U32>, hooks: seq<Hook>, a: EpollCtlArgs) {
    exists i :: 0 <= i < |hooks| && CapturedBy(pids, hooks[i], a.(returnValue := 0))
  }

  lemma GenuineExtends(pids: map<U32, U32>, hooks: seq<Hook>, h: Hook, a: EpollCtlArgs)
    requires Genuine(pids, hooks, a)
    ensures Genuine(pids, hooks + [h], a)
  {
    var i :| 0 <= i < |hooks| && CapturedBy(pids, hooks[i], a.(returnValue := 0));
    assert (hooks + [h])[i] == hooks[i];
  }

  /** Starting from empty tables, every pending call and every record sent
      (return value aside) is exactly what some entry of a watched pid captured:
      the probe never invents or mixes fields. */
  lemma {:induction false} RunSendsOnlyCaptures(pids: map<U32, U32>, hooks: seq<Hook>)
    ensures var r := Run(ProbeState(pids, map[], []), hooks);
      && (forall k :: k in r.pending ==> Genuine(pids, hooks, r.pending[k]))
      && (forall i :: 0 <= i < |r.sent| ==> Genuine(pids, hooks, r.sent[i]))
  {
    var s0 := ProbeState(pids, map[], []);
    if hooks != [] {
      var init := hooks[..|hooks| - 1];
      var h := hooks[|hooks| - 1];
      assert hooks == init + [h];
      RunSendsOnlyCaptures(pids, init);
      RunPreserves(s0, init);
      var prev := Run(s0, init);
      PendingStep(init, h, prev);
      SentStep(init, h, prev);
    }
  }

  ghost predicate AllGenuine(pids: map<U32, U32>, hooks: seq<Hook>, s: ProbeState) {
    && (forall k :: k in s.pending ==> Genuine(pids, hooks, s.pending[k]))
    && (forall i :: 0 <= i < |s.sent| ==> Genuine(pids, hooks, s.sent[i]))
  }

  lemma PendingStep(hooks: seq<Hook>, h: Hook, s: ProbeState)
    requires Inv(s) && AllGenuine(s.pids, hooks, s)
    ensures forall k :: k in Apply(s, h).pending ==> Genuine(s.pids, hooks + [h], Apply(s, h).pending[k])
  {
    var r := Apply(s, h);
    forall k | k in r.pending
      ensures Genuine(s.pids, hooks + [h], r.pending[k])
    {
      if k in s.pending && r.pending[k] == s.pending[k] {
        GenuineExtends(s.pids, hooks, h, r.pending[k]);
      } else {
        assert CapturedBy(s.pids, h, r.pending[k]);
        assert (hooks + [h])[|hooks|] == h;
      }
    }
  }

  lemma SentStep(hooks: seq<Hook>, h: Hook, s: ProbeState)
    requires Inv(s) && AllGenuine(s.pids, hooks, s)
    ensures forall i :: 0 <= i < |Apply(s, h).sent| ==> Genuine(s.pids, hooks + [h], Apply(s, h).sent[i])
  {
    var r := Apply(s, h);
    forall i | 0 <= i < |r.sent|
      ensures Genuine(s.pids, hooks + [h], r.sent[i])
    {
      if i < |s.sent| {
        GenuineExtends(s.pids, hooks, h, s.sent[i]);
      } else {
        var k := h.ctx.pid;
        assert r.sent[i].(returnValue := 0) == s.pending[k];
        GenuineExtends(s.pids, hooks, h, s.pending[k]);
      }
    }
  }

  /** `PIDS` as the loader fills it: each listed pid is inserted with value 1,
      and inserts past the capacity fail silently. */
  function InitialPids(listed: seq<U32>): (pids: map<U32, U32>)
    ensures |pids| <= PidsMaxEntries
    ensures forall k :: k in pids ==> k in listed && pids[k] == WatchedMark
    decreases |listed|
  {
    if listed == [] then map[]
    else Insert(InitialPids(listed[..|listed| - 1]), listed[|listed| - 1], WatchedMark, PidsMaxEntries)
  }

  /** The distinct pids of a list. */
  ghost function Distinct(listed: seq<U32>): set<U32> {
    set k | k in listed
  }

  /** When the distinct listed pids fit in the table, every one of them is watched. */
  lemma {:induction false} InitialPidsWatched(listed: seq<U32>)
    requires |Distinct(listed)| <= PidsMaxEntries
    ensures forall k :: k in listed ==> Watched(InitialPids(listed), k)
  {
    if listed != [] {
      var init := listed[..|listed| - 1];
      var k := listed[|listed| - 1];
      assert listed == init + [k];
      assert Distinct(listed) == Distinct(init) + {k};
      SubsetCard(Distinct(init), Distinct(listed));
      InitialPidsWatched(init);
      var prev := InitialPids(init);
      if k !in prev {
        assert k !in Distinct(init);
        assert |Distinct(listed)| == |Distinct(init)| + 1;
        assert prev.Keys <= Distinct(init);
        SubsetCard(prev.Keys, Distinct(init));
      }
    }
  }

  lemma SubsetCard<T>(a: set<T>, b: set<T>)
    requires a <= b
    ensures |a| <= |b|
  {
    if a != {} {
      var x :| x in a;
      SubsetCard(a - {x}, b - {x});
    }
  }
}
