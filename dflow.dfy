/** The dependency-bookkeeping kernel of the dataflow scheduler.

    A task is submitted with a list of dependencies. Those that are futures
    not yet done are counted; a task with nothing outstanding is launched on
    the executor and kept in `runnable`, any other task waits in `pending`.
    Each dependency is also entered in a reverse index, `futTaskLookup`, so
    that the resolution of a future can count down the tasks waiting on it,
    and `CheckFulfilled` later moves the tasks whose count reached zero from
    `pending` to `runnable`. */
module DataFlow {
  import opened Executors

  type TaskId = nat
  type FutId = nat

  /** Opaque reference to the completion callback of a task. */
  type Callback = nat

  datatype Option<T> = None | Some(value: T)

  /** An entry of a task's dependency list: a future, identified by its
      identity, or any other value, which is never waited for. Whether a
      future is done is not part of it: that is the state of the future at
      the moment it is asked (see `resolved` below). */
  datatype Dep = Fut(id: FutId) | Plain(value: int)

  /** The future handed back to the submitter, wrapping the executor's
      future when the task was launched and nothing otherwise. */
  datatype AppFuture = AppFuture(parent: Option<ExecHandle>)

  /** The task record: the dictionary with keys depends, executable,
      callback, dep_cnt, exec_fu and app_fu. The counter is an `int`: it is
      decremented without any guard and can go below zero. */
  datatype Task = Task(
    depends: seq<Dep>,
    executable: Executable,
    callback: Callback,
    depCnt: int,
    execFu: Option<ExecHandle>,
    appFu: Option<AppFuture>)

  datatype KernelError =
    | DuplicateTaskError(task: TaskId)
    | MissingFutError(fut: Dep)
    | KeyError(task: TaskId)   // a task id of the lookup list is not in `pending`

  datatype Result<T> = Ok(value: T) | Err(error: KernelError)

  datatype Outcome = Pass | Fail(error: KernelError)

  // ---------------------------------------------------------------------
  // Counting unresolved dependencies

  /** `resolved` is the set of futures that report done at the moment of
      the question. */
  predicate Unresolved(d: Dep, resolved: set<FutId>) {
    d.Fut? && d.id !in resolved
  }

  /** The number of unresolved futures in `depends`, entry by entry from the
      left, as the counting loop goes. */
  function UnresolvedCount(depends: seq<Dep>, resolved: set<FutId>): (n: nat)
    ensures n <= |depends|
  {
    if depends == [] then 0
    else
      UnresolvedCount(depends[..|depends| - 1], resolved)
      + (if Unresolved(depends[|depends| - 1], resolved) then 1 else 0)
  }

  /** The positions of `depends` that hold an unresolved future. */
  ghost function UnresolvedPositions(depends: seq<Dep>, resolved: set<FutId>): set<nat> {
    set i: nat | i < |depends| && Unresolved(depends[i], resolved)
  }

  /** The count is exactly the number of entries that are futures not yet
      done; plain values and finished futures add nothing. */
  lemma {:induction false} UnresolvedCountIsPositionCount(depends: seq<Dep>, resolved: set<FutId>)
    ensures UnresolvedCount(depends, resolved) == |UnresolvedPositions(depends, resolved)|
  {
    if depends != [] {
      var n := |depends| - 1;
      var front := depends[..n];
      UnresolvedCountIsPositionCount(front, resolved);
      var before := UnresolvedPositions(front, resolved);
      if Unresolved(depends[n], resolved) {
        assert UnresolvedPositions(depends, resolved) == before + {n};
      } else {
        assert UnresolvedPositions(depends, resolved) == before;
      }
    }
  }

  /** Nothing is outstanding exactly when every entry is a plain value or a
      future that is done. */
  lemma {:induction false} NothingOutstanding(depends: seq<Dep>, resolved: set<FutId>)
    ensures UnresolvedCount(depends, resolved) == 0
            <==> forall i :: 0 <= i < |depends| ==> !Unresolved(depends[i], resolved)
  {
    UnresolvedCountIsPositionCount(depends, resolved);
    var positions := UnresolvedPositions(depends, resolved);
    if UnresolvedCount(depends, resolved) != 0 {
      var i :| i in positions;
      assert Unresolved(depends[i], resolved);
    } else {
      assert positions == {};
      forall i | 0 <= i < |depends|
        ensures !Unresolved(depends[i], resolved)
      {
        assert i !in positions;
      }
    }
  }

  // ---------------------------------------------------------------------
  // The reverse index

  /** The lookup after registering `depends` for `taskId`, entry by entry:
      a dependency that has no entry yet gets the list `[taskId]`; one that
      already has an entry keeps its list as it was. */
  function Registered(lookup: map<Dep, seq<TaskId>>, depends: seq<Dep>, taskId: TaskId)
    : (r: map<Dep, seq<TaskId>>)
    ensures r.Keys == lookup.Keys + (set d | d in depends)
    ensures forall d :: d in lookup ==> r[d] == lookup[d]
    ensures forall d :: d in r && d !in lookup ==> r[d] == [taskId]
  {
    if depends == [] then lookup
    else
      var n := |depends| - 1;
      var prev := Registered(lookup, depends[..n], taskId);
      var d := depends[n];
      assert depends == depends[..n] + [d];
      if d in prev then prev else prev[d := [taskId]]
  }

  /** Registration never grows a list: when every list of the index has one
      element, each still does afterwards. */
  lemma RegisteredKeepsSingletons(lookup: map<Dep, seq<TaskId>>, depends: seq<Dep>, taskId: TaskId)
    requires forall d :: d in lookup ==> |lookup[d]| == 1
    ensures var r := Registered(lookup, depends, taskId);
            forall d :: d in r ==> |r[d]| == 1
  {
  }

  // ---------------------------------------------------------------------
  // Counting down

  /** The position of the first id of `ids` that is not a key of `pending`,
      or `|ids|` when all of them are. */
  function FirstMissing(pending: map<TaskId, Task>, ids: seq<TaskId>): (k: nat)
    ensures k <= |ids|
    ensures forall i :: 0 <= i < k ==> ids[i] in pending
    ensures k < |ids| ==> ids[k] !in pending
  {
    if ids == [] then 0
    else if ids[0] !in pending then 0
    else 1 + FirstMissing(pending, ids[1..])
  }

  /** `pending` after `dep_cnt -= 1` on the record of each id of `ids`, in
      order. */
  function Decremented(pending: map<TaskId, Task>, ids: seq<TaskId>): (r: map<TaskId, Task>)
    requires forall t :: t in ids ==> t in pending
    ensures r.Keys == pending.Keys
  {
    if ids == [] then pending
    else
      var n := |ids| - 1;
      var prev := Decremented(pending, ids[..n]);
      var t := ids[n];
      prev[t := prev[t].(depCnt := prev[t].depCnt - 1)]
  }

  /** Counting down changes only counters: every record's counter drops by
      the number of times its id occurs in `ids`. */
  lemma {:induction false} DecrementedCounts(pending: map<TaskId, Task>, ids: seq<TaskId>, t: TaskId)
    requires forall x :: x in ids ==> x in pending
    requires t in pending
    ensures Decremented(pending, ids)[t] == pending[t].(depCnt := pending[t].depCnt - multiset(ids)[t])
  {
    if ids != [] {
      var n := |ids| - 1;
      assert ids == ids[..n] + [ids[n]];
      DecrementedCounts(pending, ids[..n], t);
    }
  }

  /** Two rounds of counting down are one round over both lists. Resolving
      the same future twice therefore counts its waiters down twice, and a
      counter can go below zero. */
  lemma {:induction false} DecrementedTwice(pending: map<TaskId, Task>, a: seq<TaskId>, b: seq<TaskId>)
    requires forall t :: t in a ==> t in pending
    requires forall t :: t in b ==> t in pending
    ensures Decremented(Decremented(pending, a), b) == Decremented(pending, a + b)
  {
    var once := Decremented(pending, a);
    var twice := Decremented(once, b);
    var both := Decremented(pending, a + b);
    assert multiset(a + b) == multiset(a) + multiset(b);
    forall t | t in pending
      ensures twice[t] == both[t]
    {
      DecrementedCounts(pending, a, t);
      DecrementedCounts(once, b, t);
      DecrementedCounts(pending, a + b, t);
    }
  }

  /** The ids of a list, as a set. */
  function Elements(ids: seq<TaskId>): set<TaskId> {
    set t | t in ids
  }

  /** `FirstMissing` is the one position where every id before is present
      and the id there (if any) is not. */
  lemma FirstMissingAt(pending: map<TaskId, Task>, ids: seq<TaskId>, k: nat)
    requires k <= |ids|
    requires forall i :: 0 <= i < k ==> ids[i] in pending
    requires k < |ids| ==> ids[k] !in pending
    ensures FirstMissing(pending, ids) == k
  {
  }

  /** One more id counted down is one more step of `Decremented`. */
  lemma DecrementedStep(pending: map<TaskId, Task>, ids: seq<TaskId>, i: nat)
    requires i < |ids|
    requires forall t :: t in ids[..i + 1] ==> t in pending
    ensures var prev := Decremented(pending, ids[..i]);
            Decremented(pending, ids[..i + 1])
            == prev[ids[i] := prev[ids[i]].(depCnt := prev[ids[i]].depCnt - 1)]
  {
    assert ids[..i + 1][..i] == ids[..i];
  }

  // ---------------------------------------------------------------------
  // Moving fulfilled tasks

  /** The pending tasks whose counter is exactly zero, with their records. */
  function Ready(pending: map<TaskId, Task>): map<TaskId, Task> {
    map t | t in pending && pending[t].depCnt == 0 :: pending[t]
  }

  /** After the ready tasks are moved: no task left in `pending` has a zero
      counter; every moved task has a zero counter and its unchanged record;
      every task with another counter stays with its record; and the old
      keys split into the keys that stay and the keys that move. */
  lemma FulfilledSplit(pending: map<TaskId, Task>)
    ensures var left := pending - Ready(pending).Keys;
      && (forall t :: t in left ==> left[t].depCnt != 0 && left[t] == pending[t])
      && (forall t :: t in Ready(pending) ==> Ready(pending)[t] == pending[t] && pending[t].depCnt == 0)
      && (forall t :: t in pending && pending[t].depCnt != 0 ==> t in left)
      && pending.Keys == left.Keys + Ready(pending).Keys
      && left.Keys !! Ready(pending).Keys
  {
  }

  // ---------------------------------------------------------------------
  // Registration: the code as written against the evident intention

  /** Two tasks that wait on the same futures, A submitted before B, both
      pending with two outstanding futures. With the registration as
      written, B is never entered under either future: resolving both
      futures counts A down to zero and leaves B at two, so B is never
      moved to `runnable`. */
  lemma SharedDependencyAsWritten(x: Dep, y: Dep, a: TaskId, b: TaskId, taskA: Task, taskB: Task)
    requires x != y && a != b
    requires taskA.depCnt == 2 && taskB.depCnt == 2
    ensures var lookup := Registered(Registered(map[], [x, y], a), [x, y], b);
      && lookup[x] == [a] && lookup[y] == [a]
      && var pending := map[a := taskA, b := taskB];
         var afterX := Decremented(pending, lookup[x]);
         var afterY := Decremented(afterX, lookup[y]);
         && afterX[a].depCnt == 1 && afterX[b].depCnt == 2
         && Ready(afterY).Keys == {a} && afterY[b].depCnt == 2
  {
  }

  /** `n` copies of one task id. */
  function Repeat(taskId: TaskId, n: nat): (r: seq<TaskId>)
    ensures |r| == n && forall i :: 0 <= i < n ==> r[i] == taskId
  {
    if n == 0 then [] else Repeat(taskId, n - 1) + [taskId]
  }

  /** The lookup after registering `depends` for `taskId` with the list
      extended whether or not the dependency already had an entry. */
  function RegisteredAppend(lookup: map<Dep, seq<TaskId>>, depends: seq<Dep>, taskId: TaskId)
    : (r: map<Dep, seq<TaskId>>)
    ensures r.Keys == lookup.Keys + (set d | d in depends)
  {
    if depends == [] then lookup
    else
      var n := |depends| - 1;
      var prev := RegisteredAppend(lookup, depends[..n], taskId);
      var d := depends[n];
      assert depends == depends[..n] + [d];
      if d in prev then prev[d := prev[d] + [taskId]] else prev[d := [taskId]]
  }

  /** With the intended registration, the list of a dependency is its old
      list followed by the task's id once per occurrence in `depends`. */
  lemma {:induction false} RegisteredAppendAt(lookup: map<Dep, seq<TaskId>>, depends: seq<Dep>, taskId: TaskId, d: Dep)
    requires d in lookup || d in depends
    ensures RegisteredAppend(lookup, depends, taskId)[d]
            == (if d in lookup then lookup[d] else []) + Repeat(taskId, multiset(depends)[d])
  {
    if depends != [] {
      var n := |depends| - 1;
      assert depends == depends[..n] + [depends[n]];
      if d in lookup || d in depends[..n] {
        RegisteredAppendAt(lookup, depends[..n], taskId, d);
      } else {
        assert multiset(depends[..n])[d] == 0;
      }
    }
  }

  /** Every task is entered under every one of its dependencies, after the
      entries that were there before. */
  lemma RegisteredAppendIndexesEveryWaiter(lookup: map<Dep, seq<TaskId>>, depends: seq<Dep>, taskId: TaskId)
    ensures var r := RegisteredAppend(lookup, depends, taskId);
      && (forall d :: d in depends ==> taskId in r[d])
      && (forall d :: d in lookup ==> lookup[d] <= r[d])
  {
  }

  /** The same two tasks with the intended registration: both are entered
      under both futures. */
  lemma SharedDependencyIntendedLookup(x: Dep, y: Dep, a: TaskId, b: TaskId)
    requires x != y
    ensures var lookup := RegisteredAppend(RegisteredAppend(map[], [x, y], a), [x, y], b);
            lookup[x] == [a, b] && lookup[y] == [a, b]
  {
    var first := RegisteredAppend(map[], [x, y], a);
    assert multiset([x, y])[x] == 1 && multiset([x, y])[y] == 1;
    assert Repeat(a, 1) == [a] && Repeat(b, 1) == [b];
    RegisteredAppendAt(map[], [x, y], a, x);
    RegisteredAppendAt(map[], [x, y], a, y);
    RegisteredAppendAt(first, [x, y], b, x);
    RegisteredAppendAt(first, [x, y], b, y);
  }

  /** ... so resolving `x` counts both down to one and resolving `y` makes
      both ready. */
  lemma SharedDependencyIntended(a: TaskId, b: TaskId, taskA: Task, taskB: Task)
    requires a != b
    requires taskA.depCnt == 2 && taskB.depCnt == 2
    ensures var pending := map[a := taskA, b := taskB];
      var afterX := Decremented(pending, [a, b]);
      var afterY := Decremented(afterX, [a, b]);
      && afterX[a].depCnt == 1 && afterX[b].depCnt == 1
      && Ready(afterY).Keys == {a, b}
  {
    var pending := map[a := taskA, b := taskB];
    assert multiset([a, b])[a] == 1 && multiset([a, b])[b] == 1;
    var afterX := Decremented(pending, [a, b]);
    DecrementedCounts(pending, [a, b], a);
    DecrementedCounts(pending, [a, b], b);
    var afterY := Decremented(afterX, [a, b]);
    DecrementedCounts(afterX, [a, b], a);
    DecrementedCounts(afterX, [a, b], b);
    assert afterY[a].depCnt == 0 && afterY[b].depCnt == 0;
  }

  /** The full run of the two tasks with the intended registration: the
      lists built for `x` and `y` hold both tasks, and counting them down
      on the two resolutions makes both ready. */
  lemma SharedDependencyIntendedRun(x: Dep, y: Dep, a: TaskId, b: TaskId, taskA: Task, taskB: Task)
    requires x != y && a != b
    requires taskA.depCnt == 2 && taskB.depCnt == 2
    ensures var lookup := RegisteredAppend(RegisteredAppend(map[], [x, y], a), [x, y], b);
      && lookup[x] == [a, b] && lookup[y] == [a, b]
      && var pending := map[a := taskA, b := taskB];
         var afterX := Decremented(pending, lookup[x]);
         var afterY := Decremented(afterX, lookup[y]);
         && afterX[a].depCnt == 1 && afterX[b].depCnt == 1
         && Ready(afterY).Keys == {a, b}
  {
    SharedDependencyIntendedLookup(x, y, a, b);
    SharedDependencyIntended(a, b, taskA, taskB);
  }

  /** A task that lists the same unfinished future twice is counted 2, but
      the registration as written enters it once, so resolving the future
      leaves it at 1 and it never becomes ready. With the intended
      registration it is entered twice and reaches 0. */
  lemma RepeatedDependency(f: FutId, a: TaskId, taskA: Task)
    requires taskA.depCnt == UnresolvedCount([Fut(f), Fut(f)], {})
    ensures taskA.depCnt == 2
    ensures var pending := map[a := taskA];
      var asWritten := Registered(map[], [Fut(f), Fut(f)], a);
      var intended := RegisteredAppend(map[], [Fut(f), Fut(f)], a);
      && asWritten[Fut(f)] == [a]
      && Decremented(pending, asWritten[Fut(f)])[a].depCnt == 1
      && intended[Fut(f)] == [a, a]
      && Decremented(pending, intended[Fut(f)])[a].depCnt == 0
  {
  }

  // ---------------------------------------------------------------------
  // The kernel

  class DataFlowKernel {
    /** Tasks waiting for dependencies, by id. */
    var pending: map<TaskId, Task>
    /** Tasks launched or found fulfilled, by id. */
    var runnable: map<TaskId, Task>
    /** For each dependency, the ids of the tasks registered under it. */
    var futTaskLookup: map<Dep, seq<TaskId>>
    const executor: Executor

    constructor (executor: Executor)
      ensures pending == map[] && runnable == map[] && futTaskLookup == map[]
      ensures this.executor == executor
    {
      pending := map[];
      futTaskLookup := map[];
      runnable := map[];
      this.executor := executor;
    }

    /** Counts the unresolved futures of `depends`. */
    static method CountDeps(depends: seq<Dep>, resolved: set<FutId>) returns (count: nat)
      ensures count == UnresolvedCount(depends, resolved)
    {
      count := 0;
      for i := 0 to |depends|
        invariant count == UnresolvedCount(depends[..i], resolved)
      {
        var dep := depends[i];
        if dep.Fut? {
          if dep.id !in resolved {
            count := count + 1;
          }
        }
        assert depends[..i + 1][..i] == depends[..i];
      }
      assert depends[..|depends|] == depends;
    }

    /** Hands the payload to the executor: exactly one executor submission. */
    method LaunchTask(executable: Executable, taskId: TaskId) returns (h: ExecHandle)
      modifies executor
      ensures executor.launched == old(executor.launched) + [executable]
      ensures h == |old(executor.launched)|
    {
      h := executor.Submit(executable);
    }

    /** Enters each dependency in the reverse index. Only a dependency that
        has no entry yet gets one, holding this task's id. */
    method RegisterDepends(depends: seq<Dep>, taskId: TaskId)
      modifies this`futTaskLookup
      ensures futTaskLookup == Registered(old(futTaskLookup), depends, taskId)
    {
      for i := 0 to |depends|
        invariant futTaskLookup == Registered(old(futTaskLookup), depends[..i], taskId)
      {
        var fut := depends[i];
        assert depends[..i + 1][..i] == depends[..i];
        if fut !in futTaskLookup {
          futTaskLookup := futTaskLookup[fut := []];
          futTaskLookup := futTaskLookup[fut := futTaskLookup[fut] + [taskId]];
          assert [] + [taskId] == [taskId];
        }
      }
      assert depends[..|depends|] == depends;
    }

    /** Adds a task. With nothing outstanding it is launched at once and
        kept in `runnable`; otherwise it waits in `pending`. A duplicate id
        in the map it would go into is refused before anything changes.
        `taskId` stands for the freshly generated identity and `resolved`
        for which futures are done at this moment. */
    method Submit(executable: Executable, depends: seq<Dep>, callback: Callback,
                  taskId: TaskId, resolved: set<FutId>)
      returns (r: Result<AppFuture>)
      modifies this, executor
      ensures var n := UnresolvedCount(depends, resolved);
        (if n == 0 then taskId in old(runnable) else taskId in old(pending)) ==>
          && r == Err(DuplicateTaskError(taskId))
          && pending == old(pending) && runnable == old(runnable)
          && futTaskLookup == old(futTaskLookup)
          && executor.launched == old(executor.launched)
      ensures var n := UnresolvedCount(depends, resolved);
        n == 0 && taskId !in old(runnable) ==>
          var h := |old(executor.launched)|;
          && executor.launched == old(executor.launched) + [executable]
          && runnable == old(runnable)[taskId := Task(depends, executable, callback, 0,
                                                      Some(h), Some(AppFuture(Some(h))))]
          && pending == old(pending)
          && futTaskLookup == Registered(old(futTaskLookup), depends, taskId)
          && r == Ok(AppFuture(Some(h)))
      ensures var n := UnresolvedCount(depends, resolved);
        n != 0 && taskId !in old(pending) ==>
          && executor.launched == old(executor.launched)
          && pending == old(pending)[taskId := Task(depends, executable, callback, n,
                                                    None, Some(AppFuture(None)))]
          && runnable == old(runnable)
          && futTaskLookup == Registered(old(futTaskLookup), depends, taskId)
          && r == Ok(AppFuture(None))
    {
      var depCnt := CountDeps(depends, resolved);
      var taskDef := Task(depends, executable, callback, depCnt, None, None);

      if depCnt == 0 {
        if taskId in runnable {
          return Err(DuplicateTaskError(taskId));
        }
        runnable := runnable[taskId := taskDef];
        var h := LaunchTask(executable, taskId);
        taskDef := taskDef.(execFu := Some(h), appFu := Some(AppFuture(Some(h))));
        runnable := runnable[taskId := taskDef];
      } else {
        if taskId in pending {
          return Err(DuplicateTaskError(taskId));
        }
        taskDef := taskDef.(appFu := Some(AppFuture(None)));
        pending := pending[taskId := taskDef];
      }

      RegisterDepends(depends, taskId);
      r := Ok(taskDef.appFu.value);
    }

    /** Moves every pending task whose counter is zero into `runnable`
        (overwriting a record of the same id there) and then deletes it from
        `pending`. Nothing is launched and the callback is not called. */
    method CheckFulfilled()
      modifies this
      ensures runnable == old(runnable) + Ready(old(pending))
      ensures pending == old(pending) - Ready(old(pending)).Keys
      ensures futTaskLookup == old(futTaskLookup)
    {
      var ready: seq<TaskId> := [];
      var unvisited := pending.Keys;
      ghost var visited: set<TaskId> := {};
      while unvisited != {}
        invariant unvisited + visited == pending.Keys && unvisited !! visited
        invariant pending == old(pending) && futTaskLookup == old(futTaskLookup)
        invariant runnable == old(runnable) + Ready(pending - unvisited)
        invariant Elements(ready) == Ready(pending - unvisited).Keys
        decreases unvisited
      {
        var task :| task in unvisited;
        ghost var before := Ready(pending - unvisited);
        if pending[task].depCnt == 0 {
          runnable := runnable[task := pending[task]];
          ready := ready + [task];
          assert Ready(pending - (unvisited - {task})) == before[task := pending[task]];
        } else {
          assert Ready(pending - (unvisited - {task})) == before;
        }
        unvisited := unvisited - {task};
        visited := visited + {task};
      }
      assert pending - unvisited == pending;

      for i := 0 to |ready|
        invariant pending == old(pending) - Elements(ready[..i])
        invariant runnable == old(runnable) + Ready(old(pending))
        invariant futTaskLookup == old(futTaskLookup)
      {
        assert ready[..i + 1] == ready[..i] + [ready[i]];
        pending := pending - {ready[i]};
      }
      assert ready[..|ready|] == ready;
    }

    /** Counts down every task registered under `fut`. An unknown `fut` is an
        error and changes nothing; a registered id that is not in `pending`
        stops the count-down there with a `KeyError`, after the ids before it
        have been counted down. */
    method FutureResolved(fut: Dep) returns (r: Outcome)
      modifies this`pending
      ensures fut !in old(futTaskLookup) ==>
                r == Fail(MissingFutError(fut)) && pending == old(pending)
      ensures fut in old(futTaskLookup) ==>
                var ids := old(futTaskLookup)[fut];
                var k := FirstMissing(old(pending), ids);
                && pending == Decremented(old(pending), ids[..k])
                && r == (if k == |ids| then Pass else Fail(KeyError(ids[k])))
      ensures fut in old(futTaskLookup) && (forall t :: t in old(futTaskLookup)[fut] ==> t in old(pending)) ==>
                r == Pass && pending == Decremented(old(pending), old(futTaskLookup)[fut])
    {
      if fut !in futTaskLookup {
        return Fail(MissingFutError(fut));
      }
      var ids := futTaskLookup[fut];
      for i := 0 to |ids|
        invariant forall j :: 0 <= j < i ==> ids[j] in old(pending)
        invariant forall t :: t in ids[..i] ==> t in old(pending)
        invariant pending == Decremented(old(pending), ids[..i])
      {
        var taskId := ids[i];
        if taskId !in pending {
          FirstMissingAt(old(pending), ids, i);
          return Fail(KeyError(taskId));
        }
        DecrementedStep(old(pending), ids, i);
        pending := pending[taskId := pending[taskId].(depCnt := pending[taskId].depCnt - 1)];
      }
      FirstMissingAt(old(pending), ids, |ids|);
      assert ids[..|ids|] == ids;
      r := Pass;
    }
  }
}
