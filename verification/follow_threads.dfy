/** `get_threads`: extends a set of pids with the thread ids of their tasks and,
    recursively, with the expanded sets of their tasks' child processes. The
    `procfs` lookups are replaced by a process table. */
module FollowThreads {
  import opened Wrappers
  import opened Bytes

  /** The largest pid that `i32::try_from` accepts. */
  const MaxRawPid: U32 := 0x7FFF_FFFF

  /** A task of a process: its thread id, and its child pids, `None` when
      `children()` fails. */
  datatype Task = Task(tid: I32, children: Option<set<U32>>)

  /** The tasks of each process; a pid that is missing is one for which
      `Process::new` or `tasks()` fails, and a `None` entry is a task that fails
      to load. */
  type ProcessTable = map<U32, seq<Option<Task>>>

  /** The child pids named by one loaded task. */
  function ChildrenOf(t: Option<Task>): set<U32> {
    if t.Some? && t.value.children.Some? then t.value.children.value else {}
  }

  /** Every child of the tasks ts ranks below r. */
  ghost predicate RankedTasks(ts: seq<Option<Task>>, rank: U32 -> nat, r: nat) {
    forall i, c :: 0 <= i < |ts| && c in ChildrenOf(ts[i]) ==> rank(c) < r
  }

  /** The process tree is acyclic: a child process ranks below its parent. */
  ghost predicate Ranked(table: ProcessTable, rank: U32 -> nat) {
    forall p :: p in table ==> RankedTasks(table[p], rank, rank(p))
  }

  /** One more than the largest rank in s; 0 for the empty set. */
  ghost function Height(s: set<U32>, rank: U32 -> nat): (h: nat)
    ensures forall p :: p in s ==> rank(p) < h
  {
    if s == {} then 0
    else
      var p :| p in s;
      var h := Height(s - {p}, rank);
      if rank(p) + 1 > h then rank(p) + 1 else h
  }

  /** Height is the least bound on the ranks in s. */
  lemma {:induction false} HeightAtMost(s: set<U32>, rank: U32 -> nat, b: nat)
    requires forall p :: p in s ==> rank(p) < b
    ensures Height(s, rank) <= b
  {
    if s != {} {
      var p :| p in s && Height(s, rank) == (if rank(p) + 1 > Height(s - {p}, rank) then rank(p) + 1 else Height(s - {p}, rank));
      HeightAtMost(s - {p}, rank, b);
    }
  }

  /** The tasks `get_threads` visits for pid p: none unless p fits in `i32`
      and its process and task list can be read. */
  function TasksOf(table: ProcessTable, p: U32): (ts: seq<Option<Task>>)
    ensures p > MaxRawPid || p !in table ==> ts == []
  {
    if p <= MaxRawPid && p in table then table[p] else []
  }

  /** The result of `get_threads` on pids: the pids themselves and what each of
      them contributes. */
  function Expand(table: ProcessTable, rank: U32 -> nat, pids: set<U32>): (r: set<U32>)
    requires Ranked(table, rank)
    ensures pids <= r
    decreases Height(pids, rank), 3, 0
  {
    pids + set p, x | p in pids && x in Contrib(table, rank, p) :: x
  }

  /** What pid p adds: the contributions of its tasks. */
  function Contrib(table: ProcessTable, rank: U32 -> nat, p: U32): set<U32>
    requires Ranked(table, rank)
    decreases rank(p) + 1, 2, 0
  {
    TasksContrib(table, rank, TasksOf(table, p), rank(p))
  }

  /** What the tasks ts of a process of rank r add, in order. */
  function TasksContrib(table: ProcessTable, rank: U32 -> nat, ts: seq<Option<Task>>, r: nat): set<U32>
    requires Ranked(table, rank) && RankedTasks(ts, rank, r)
    decreases r + 1, 1, |ts|
  {
    if ts == [] then {}
    else
      var init := ts[..|ts| - 1];
      assert forall i :: 0 <= i < |init| ==> init[i] == ts[i];
      assert forall c :: c in ChildrenOf(ts[|ts| - 1]) ==> rank(c) < r;
      TasksContrib(table, rank, init, r) + TaskContrib(table, rank, ts[|ts| - 1], r)
  }

  /** What one task adds: its thread id when positive, and the expansion of its
      children when they can be listed. A task that fails to load adds nothing. */
  function TaskContrib(table: ProcessTable, rank: U32 -> nat, t: Option<Task>, r: nat): set<U32>
    requires Ranked(table, rank)
    requires forall c :: c in ChildrenOf(t) ==> rank(c) < r
    decreases r + 1, 0, 0
  {
    match t
    case None => {}
    case Some(task) =>
      (if task.tid > 0 then {task.tid as U32} else {})
      + (if task.children.Some? then
           HeightAtMost(task.children.value, rank, r);
           Expand(table, rank, task.children.value)
         else {})
  }

  lemma TableRanked(table: ProcessTable, rank: U32 -> nat, p: U32)
    requires Ranked(table, rank)
    ensures RankedTasks(TasksOf(table, p), rank, rank(p))
  {
  }

  /** The union of the contributions of the pids in done. */
  function ContribOf(table: ProcessTable, rank: U32 -> nat, done: set<U32>): set<U32>
    requires Ranked(table, rank)
  {
    set p, x | p in done && x in Contrib(table, rank, p) :: x
  }

  /** The union of a list of sets. */
  function Union(ss: seq<set<U32>>): (u: set<U32>)
    ensures forall i :: 0 <= i < |ss| ==> ss[i] <= u
  {
    if ss == [] then {} else Union(ss[..|ss| - 1]) + ss[|ss| - 1]
  }

  /** `get_threads`, iterating as the source does: every pid of the input is
      visited once, and the thread ids and expanded child sets its tasks yield
      are collected and merged into the input at the end. */
  method GetThreads(table: ProcessTable, rank: U32 -> nat, pids: set<U32>) returns (out: set<U32>)
    requires Ranked(table, rank)
    ensures out == Expand(table, rank, pids)
    decreases Height(pids, rank), 0
  {
    var tids: set<U32> := {};
    var vecChildren: seq<set<U32>> := [];
    var rest := pids;
    ghost var done: set<U32> := {};
    while rest != {}
      invariant rest !! done && rest + done == pids
      invariant pids + tids + Union(vecChildren) == pids + ContribOf(table, rank, done)
      decreases rest
    {
      var p :| p in rest;
      if p <= MaxRawPid && p in table {
        TableRanked(table, rank, p);
        tids, vecChildren := VisitTasks(table, rank, pids, table[p], rank(p), tids, vecChildren);
      }
      ContribOfAdd(table, rank, done, p);
      rest := rest - {p};
      done := done + {p};
    }
    assert done == pids;
    out := pids + tids;
    var j := 0;
    while j < |vecChildren|
      invariant 0 <= j <= |vecChildren|
      invariant out == pids + tids + Union(vecChildren[..j])
    {
      assert vecChildren[..j + 1][..j] == vecChildren[..j];
      out := out + vecChildren[j];
      j := j + 1;
    }
    assert vecChildren[..|vecChildren|] == vecChildren;
  }

  /** The inner loop of `get_threads` over the tasks ts of one process of rank r. */
  method VisitTasks(table: ProcessTable, rank: U32 -> nat, pids: set<U32>, ts: seq<Option<Task>>, ghost r: nat,
                    tids0: set<U32>, vecChildren0: seq<set<U32>>)
    returns (tids: set<U32>, vecChildren: seq<set<U32>>)
    requires Ranked(table, rank) && RankedTasks(ts, rank, r)
    ensures pids + tids + Union(vecChildren)
      == pids + tids0 + Union(vecChildren0) + TasksContrib(table, rank, ts, r)
    decreases r, 2
  {
    tids, vecChildren := tids0, vecChildren0;
    var i := 0;
    while i < |ts|
      invariant 0 <= i <= |ts|
      invariant pids + tids + Union(vecChildren)
        == pids + tids0 + Union(vecChildren0) + TasksContrib(table, rank, ts[..i], r)
    {
      assert ts[..i + 1][..i] == ts[..i];
      assert ts[..i + 1][i] == ts[i];
      tids, vecChildren := VisitTask(table, rank, pids, ts[i], r, tids, vecChildren);
      i := i + 1;
    }
    assert ts[..|ts|] == ts;
  }

  /** One iteration of that loop: a loaded task's child set is expanded by a
      recursive call and kept, and its thread id is collected when positive
      and not an input pid; a task that failed to load is skipped. */
  method VisitTask(table: ProcessTable, rank: U32 -> nat, pids: set<U32>, t: Option<Task>, ghost r: nat,
                   tids0: set<U32>, vecChildren0: seq<set<U32>>)
    returns (tids: set<U32>, vecChildren: seq<set<U32>>)
    requires Ranked(table, rank) && forall c :: c in ChildrenOf(t) ==> rank(c) < r
    ensures pids + tids + Union(vecChildren)
      == pids + tids0 + Union(vecChildren0) + TaskContrib(table, rank, t, r)
    decreases r, 1
  {
    tids, vecChildren := tids0, vecChildren0;
    if t.Some? {
      var task := t.value;
      ghost var childPart: set<U32> := {};
      if task.children.Some? {
        HeightAtMost(task.children.value, rank, r);
        var childPids := GetThreads(table, rank, task.children.value);
        assert (vecChildren + [childPids])[..|vecChildren|] == vecChildren;
        vecChildren := vecChildren + [childPids];
        childPart := childPids;
      }
      ghost var tidPart: set<U32> := if task.tid > 0 then {task.tid as U32} else {};
      if task.tid > 0 && task.tid as U32 !in pids {
        tids := tids + {task.tid as U32};
      }
      assert TaskContrib(table, rank, t, r) == tidPart + childPart;
      assert pids + tids == pids + tids0 + tidPart;
      assert Union(vecChildren) == Union(vecChildren0) + childPart;
      MergeParts(pids, tids, Union(vecChildren), tids0, Union(vecChildren0), tidPart, childPart);
    }
  }

  lemma MergeParts(p: set<U32>, t: set<U32>, u: set<U32>, t0: set<U32>, u0: set<U32>, a: set<U32>, b: set<U32>)
    requires p + t == p + t0 + a
    requires u == u0 + b
    ensures p + t + u == p + t0 + u0 + (a + b)
  {
  }

  lemma ContribOfAdd(table: ProcessTable, rank: U32 -> nat, done: set<U32>, p: U32)
    requires Ranked(table, rank)
    ensures ContribOf(table, rank, done + {p}) == ContribOf(table, rank, done) + Contrib(table, rank, p)
  {
  }

  /** A pid that does not fit in `i32`, or whose process or task list cannot be
      read, contributes nothing beyond itself. */
  lemma SkippedPid(table: ProcessTable, rank: U32 -> nat, p: U32)
    requires Ranked(table, rank)
    requires p > MaxRawPid || p !in table
    ensures Contrib(table, rank, p) == {}
    ensures Expand(table, rank, {p}) == {p}
  {
  }

  /** x comes from the loaded task t: it is t's positive thread id or lies in
      the expansion of t's children. */
  ghost predicate FromTask(table: ProcessTable, rank: U32 -> nat, t: Option<Task>, x: U32)
    requires Ranked(table, rank)
  {
    && t.Some?
    && ((t.value.tid > 0 && x == t.value.tid as U32)
        || (t.value.children.Some? && x in Expand(table, rank, t.value.children.value)))
  }

  lemma TaskContribIsFromTask(table: ProcessTable, rank: U32 -> nat, t: Option<Task>, r: nat, x: U32)
    requires Ranked(table, rank)
    requires forall c :: c in ChildrenOf(t) ==> rank(c) < r
    ensures x in TaskContrib(table, rank, t, r) <==> FromTask(table, rank, t, x)
  {
  }

  /** The tasks' contributions are exactly what the individual tasks add. */
  lemma {:induction false} TasksContribMembers(table: ProcessTable, rank: U32 -> nat, ts: seq<Option<Task>>, r: nat, x: U32)
    requires Ranked(table, rank) && RankedTasks(ts, rank, r)
    ensures x in TasksContrib(table, rank, ts, r) <==> exists i :: 0 <= i < |ts| && FromTask(table, rank, ts[i], x)
  {
    if ts != [] {
      var init := ts[..|ts| - 1];
      assert forall i :: 0 <= i < |init| ==> init[i] == ts[i];
      TasksContribMembers(table, rank, init, r, x);
      TaskContribIsFromTask(table, rank, ts[|ts| - 1], r, x);
      if exists i :: 0 <= i < |ts| && FromTask(table, rank, ts[i], x) {
        var i :| 0 <= i < |ts| && FromTask(table, rank, ts[i], x);
        if i < |init| {
          assert FromTask(table, rank, init[i], x);
        }
      }
    }
  }

  /** Exactly what `get_threads` puts in its result: an input pid, or a
      positive thread id of a task of an input pid, or an element of the
      expansion of such a task's children. Nothing else is added, and all of
      these are. */
  lemma ExpandMembers(table: ProcessTable, rank: U32 -> nat, pids: set<U32>, x: U32)
    requires Ranked(table, rank)
    ensures x in Expand(table, rank, pids) <==>
      || x in pids
      || exists p, i :: p in pids && 0 <= i < |TasksOf(table, p)| && FromTask(table, rank, TasksOf(table, p)[i], x)
  {
    forall p | p in pids
      ensures x in Contrib(table, rank, p) <==>
        exists i :: 0 <= i < |TasksOf(table, p)| && FromTask(table, rank, TasksOf(table, p)[i], x)
    {
      TableRanked(table, rank, p);
      TasksContribMembers(table, rank, TasksOf(table, p), rank(p), x);
    }
  }

  /** A larger input never gives a smaller result. */
  lemma ExpandMonotone(table: ProcessTable, rank: U32 -> nat, a: set<U32>, b: set<U32>)
    requires Ranked(table, rank) && a <= b
    ensures Expand(table, rank, a) <= Expand(table, rank, b)
  {
  }

  /** Expansion works pid by pid: the result for a union is the union of the results. */
  lemma ExpandUnion(table: ProcessTable, rank: U32 -> nat, a: set<U32>, b: set<U32>)
    requires Ranked(table, rank)
    ensures Expand(table, rank, a + b) == Expand(table, rank, a) + Expand(table, rank, b)
  {
  }

  /** A process, pid 100, with two live threads and no children. */
  const TwoThreads: ProcessTable := map[100 := [Some(Task(100, Some({}))), Some(Task(101, Some({})))]]

  /** The rank that suffices for a table without child processes. */
  const Flat: U32 -> nat := (p: U32) => 0

  /** The two-thread process expands to its pid and both thread ids. */
  lemma TwoThreadsExample()
    ensures Ranked(TwoThreads, Flat)
    ensures Expand(TwoThreads, Flat, {100}) == {100, 101}
  {
    assert Ranked(TwoThreads, Flat);
    var ts := TwoThreads[100];
    assert Expand(TwoThreads, Flat, {}) == {};
    assert TasksContrib(TwoThreads, Flat, ts[..1], 0) == {100} by {
      assert ts[..1][..0] == [];
    }
    assert Contrib(TwoThreads, Flat, 100) == {100, 101};
  }

  /** A process that has gone away (pid 200 is not in the table) adds nothing
      and does not disturb the rest. */
  lemma ExitedProcessExample()
    ensures Ranked(TwoThreads, Flat)
    ensures Expand(TwoThreads, Flat, {100, 200}) == {100, 101, 200}
  {
    TwoThreadsExample();
    SkippedPid(TwoThreads, Flat, 200);
    ExpandUnion(TwoThreads, Flat, {100}, {200});
    assert {100} + {200} == {100, 200};
  }

  /** Thread ids found in this call are not expanded in turn: when a task of
      pid 1 has thread id 2, the tasks of pid 2 are not visited, so a second
      call finds more. */
  lemma NotReexpandedExample()
    ensures var table := map[1 := [Some(Task(2, None))], 2 := [Some(Task(3, None))]];
      && Expand(table, (p: U32) => 0, {1}) == {1, 2}
      && Expand(table, (p: U32) => 0, {1, 2}) == {1, 2, 3}
  {
    var table: ProcessTable := map[1 := [Some(Task(2, None))], 2 := [Some(Task(3, None))]];
    var rank := (p: U32) => 0;
    assert Ranked(table, rank);
    assert table[1][..0] == [] && table[2][..0] == [];
    assert Contrib(table, rank, 1) == {2};
    assert Contrib(table, rank, 2) == {3};
    ExpandUnion(table, rank, {1}, {2});
    assert {1} + {2} == {1, 2};
  }

  /** Pid 10 has one thread and a child process 20, whose one thread is 21. */
  const ParentChild: ProcessTable := map[10 := [Some(Task(10, Some({20})))], 20 := [Some(Task(21, Some({})))]]

  const ParentAbove: U32 -> nat := (p: U32) => if p == 10 then 1 else 0

  /** The child's pid and its own thread ids are merged into the parent's result. */
  lemma ParentChildExample()
    ensures Ranked(ParentChild, ParentAbove)
    ensures Expand(ParentChild, ParentAbove, {10}) == {10, 20, 21}
  {
    assert Ranked(ParentChild, ParentAbove) by {
      assert forall c :: c in ChildrenOf(ParentChild[10][0]) ==> c == 20;
    }
    var t10, t20 := ParentChild[10], ParentChild[20];
    assert t10[..0] == [] && t20[..0] == [];
    assert Expand(ParentChild, ParentAbove, {}) == {};
    assert Contrib(ParentChild, ParentAbove, 20) == {21};
    assert Expand(ParentChild, ParentAbove, {20}) == {20, 21};
    assert Contrib(ParentChild, ParentAbove, 10) == {10, 20, 21};
  }
}
