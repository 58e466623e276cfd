# DataFlowKernel: dependency bookkeeping of the parsl dataflow scheduler

This project models `DataFlowKernel` in `parsl/dataflow/dflow.py` and proves properties of it in Dafny.
The kernel keeps three dictionaries and changes them in place:

- `pending`: task id to task record, for tasks that still wait for futures;
- `runnable`: task id to task record, for tasks that were launched or found fulfilled;
- `fut_task_lookup`: dependency to the list of task ids registered under it.

The model is the class `DataFlow.DataFlowKernel` (file `dflow.dfy`), with the three dictionaries as `map` fields.
Its methods are `CountDeps` (`_count_deps`), `LaunchTask` (`launch_task`), `Submit` (`submit`), `RegisterDepends` (the registration loop of `submit`), `CheckFulfilled` (`check_fulfilled`) and `FutureResolved` (`future_resolved`).
Each method's `ensures` gives the new state as a function of the old one.
Those functions (`UnresolvedCount`, `Registered`, `Decremented`, `FirstMissing`, `Ready`) and the lemmas about them say what each step means.

Modelling choices:

- A dependency is `Dep = Fut(id) | Plain(value)`. A future is keyed by its identity, as the Python dictionary keys it.
- Whether a future is done is not part of the key. It is the input `resolved`, the set of futures that report done when the kernel asks.
- The task id, which the source draws with `uuid.uuid4()`, is an input of `Submit`.
- The task record is the datatype `Task`. `deepcopy` of a record is a plain value copy.
- `dep_cnt` is an `int`, because nothing stops it from going below zero.
- The executor is `Executors.Executor` (file `executor.dfy`). It is a stand-in that logs each submitted payload and returns its position in the log as a handle that no earlier call returned.
- `AppFuture` is an opaque value that wraps the executor handle, or nothing.
- The errors `DuplicateTaskError` and `MissingFutError`, and the `KeyError` that `self.pending[task_id]` raises, are values of `KernelError`. They are returned as `Err`/`Fail` results.

The model follows the code as written, including these behaviours:

- Registration enters a task id only under a dependency that has no entry yet (`dflow.py:103-105`). It also registers plain values and finished futures, not only unresolved futures.
- Resolving a future that has no entry raises `MissingFutError` and changes nothing (`dflow.py:131-133`).
- Resolving the same future twice counts its waiters down twice. `DecrementedTwice` shows this, so a counter can go negative.
- `future_resolved` does not move or launch anything. A task whose counter reaches zero stays in `pending` until `check_fulfilled` runs.
- `check_fulfilled` launches nothing. The moved record keeps `exec_fu` as `None`. The callback is only referenced at `dflow.py:124`, never called, although the docstring at `dflow.py:113` says "make the callback".
- The duplicate-id check of `submit` looks only in the dictionary the task would go into.
- A registered id missing from `pending` raises `KeyError` (`dflow.py:137-138`) after the ids before it have been counted down.

## Model

| member | source | states |
|---|---|---|
| `DataFlow.UnresolvedCount` | parsl/dataflow/dflow.py:41-45 | the count of unresolved futures never exceeds the length of the dependency list |
| `DataFlow.UnresolvedCountIsPositionCount` | parsl/dataflow/dflow.py:39-48 | the count is exactly the number of entries that are futures and not done; plain values and finished futures contribute nothing |
| `DataFlow.NothingOutstanding` | parsl/dataflow/dflow.py:42-45 | the count is zero if and only if every entry is a plain value or a done future |
| `DataFlow.DataFlowKernel.CountDeps` | parsl/dataflow/dflow.py:38-48 | the accumulating loop returns the unresolved-future count of its input and changes nothing |
| `DataFlow.DataFlowKernel.constructor` | parsl/dataflow/dflow.py:29-36 | a new kernel has empty `pending`, `runnable` and lookup, and keeps the executor it is given |
| `Executors.Executor.Submit` | parsl/dataflow/dflow.py:57 | the executor receives exactly this payload and answers with a handle that no earlier submission received |
| `DataFlow.DataFlowKernel.LaunchTask` | parsl/dataflow/dflow.py:51-57 | launching is exactly one executor submission of the payload, and its handle is returned |
| `DataFlow.DataFlowKernel.Submit` | parsl/dataflow/dflow.py:59-108 | a duplicate id in the target dictionary (`runnable` when the count is 0, else `pending`) gives `DuplicateTaskError` with no dictionary and no executor changed; with count 0 the task goes into `runnable` with `exec_fu` the single fresh executor handle and `app_fu` wrapping it, `pending` unchanged; with count > 0 it goes into `pending` with `dep_cnt` the count, `exec_fu` None and an empty `AppFuture`, `runnable` unchanged and no executor call; in both accepted cases the lookup becomes `Registered(old lookup, depends, id)` and the returned future is the stored one |
| `DataFlow.DataFlowKernel.RegisterDepends` | parsl/dataflow/dflow.py:102-105 | the registration loop leaves the lookup equal to `Registered` of the old lookup and changes nothing else |
| `DataFlow.Registered` | parsl/dataflow/dflow.py:102-105 | after registration every dependency is a key; a key that was absent now maps to `[task id]`; a key already present keeps its list unchanged |
| `DataFlow.RegisteredKeepsSingletons` | parsl/dataflow/dflow.py:103-105 | registration never lengthens a list: when every list of the index has one element, each still has one afterwards |
| `DataFlow.FirstMissing` | parsl/dataflow/dflow.py:135-138 | the position where the count-down stops: every id before it is in `pending`, and the id there, if any, is not |
| `DataFlow.Decremented` | parsl/dataflow/dflow.py:135-138 | counting down keeps the set of pending task ids |
| `DataFlow.DecrementedCounts` | parsl/dataflow/dflow.py:135-138 | each record's `dep_cnt` drops by exactly the number of times its id occurs in the list; every other field and every other task is unchanged |
| `DataFlow.DecrementedTwice` | parsl/dataflow/dflow.py:130-138 | two count-downs equal one over both lists, so resolving a future twice counts its waiters down twice |
| `DataFlow.DataFlowKernel.FutureResolved` | parsl/dataflow/dflow.py:130-138 | an unindexed future gives `MissingFutError` with no state changed; otherwise the ids of its list are counted down in order up to the first id not in `pending`, which gives `KeyError`; when all ids are pending the result is success and every listed task is counted down; `runnable` and the lookup never change |
| `DataFlow.DataFlowKernel.CheckFulfilled` | parsl/dataflow/dflow.py:111-128 | `runnable` gains every pending task with `dep_cnt == 0` with its record, `pending` loses exactly those ids, and the lookup is unchanged |
| `DataFlow.FulfilledSplit` | parsl/dataflow/dflow.py:115-128 | after the move no pending task has a zero counter; moved tasks keep equal records; tasks with another counter stay untouched; the old pending ids are the remaining ids plus the moved ids, disjointly |
| `DataFlow.SharedDependencyAsWritten` | parsl/dataflow/dflow.py:102-105 | with the registration as written, a second task on the same futures is never indexed: resolving both futures readies only the first task and leaves the second at 2 |
| `DataFlow.RegisteredAppend` | parsl/dataflow/dflow.py:102-105 | with registration that always extends the list, every dependency is a key afterwards |
| `DataFlow.RegisteredAppendAt` | parsl/dataflow/dflow.py:102-105 | with registration that always extends, each list is its old list followed by the task id once per occurrence of the dependency |
| `DataFlow.RegisteredAppendIndexesEveryWaiter` | parsl/dataflow/dflow.py:102-105 | with registration that always extends, the task is listed under each of its dependencies and the earlier entries are kept in front |
| `DataFlow.SharedDependencyIntendedLookup` | parsl/dataflow/dflow.py:102-105 | with registration that always extends, two tasks on futures x and y are both listed, in submission order, under both |
| `DataFlow.SharedDependencyIntended` | parsl/dataflow/dflow.py:135-138 | counting down both tasks on each resolution leaves both at 1 after the first future and makes both ready after the second |
| `DataFlow.SharedDependencyIntendedRun` | parsl/dataflow/dflow.py:102-105 | with registration that always extends, the lists built for x and y both hold A and B, and counting them down on the two resolutions makes both tasks ready |
| `DataFlow.RepeatedDependency` | parsl/dataflow/dflow.py:103-105 | a task listing one unfinished future twice is counted 2; as written it is indexed once, so one resolution leaves it at 1; with registration that always extends it is indexed twice and reaches 0 |

## Findings

| source | as written | input that shows it | evidently intended | confidence | as-written member | corrected member |
|---|---|---|---|---|---|---|
| parsl/dataflow/dflow.py:103-105 | `extend([task_id])` sits inside `if fut not in self.fut_task_lookup`, so only the first task to list a dependency is entered under it | submit A with futures x, y not done, then B with the same x, y; resolve x, then y: A reaches 0, B stays at 2 and never becomes runnable; or submit A with `[x, x]`, x not done: counted 2, indexed once, left at 1 after x resolves | every submitted task is appended to the list of each of its dependencies | high (indentation slip; not executed) | `DataFlow.SharedDependencyAsWritten` | `DataFlow.SharedDependencyIntendedRun` |

The kernel class keeps the registration as written (`Registered`).
The corrected registration is `RegisteredAppend`. Its properties are `RegisteredAppendAt`, `RegisteredAppendIndexesEveryWaiter` and `SharedDependencyIntendedLookup`.
`SharedDependencyIntendedRun` shows that, with the corrected registration, the shared-dependency run readies both tasks.
`RepeatedDependency` shows both halves for a task that lists the same future twice.

## Left out

- The `done` dictionary (`dflow.py:35`) is never used by the code and is not modelled.
- `current_state` (`dflow.py:140-147`) only prints, so it is not modelled. Logging and `print` calls are left out too.
- The module-level demo code (`dflow.py:151-198`) calls a class and methods that do not exist, so it is not modelled.
- The executor's real behaviour, running the payload asynchronously, is not modelled. Only the handle it returns is.
- The internals of `AppFuture` (`parsl/dataflow/futures`) are not part of this model. It is an opaque wrapper of the executor handle.
- The error classes of `parsl.dataflow.error` are not part of this model. Each is an error value.
- `uuid.uuid4()` is not modelled. The task id is an input, and the duplicate-id error path covers a collision.
- `Future.done()` is not modelled. It is the input set `resolved`, read once per count.
- The `isinstance`/`issubclass` test is modelled by the `Fut`/`Plain` split of `Dep`.
- Threads and concurrent resolution are not modelled: the code has no locking, and the model is sequential.
- An executor call that raises in the middle of `submit`, after the record is stored in `runnable`, is not modelled. The executor is assumed to return a handle.
- The model assumes the `copy.deepcopy` of a record at `dflow.py:119` succeeds. A record whose `depends` or `app_fu` holds a real future object may fail to copy in Python, and that failure is not modelled.
- A plain dependency is an integer here, so every dependency can be a dictionary key. An unhashable plain value would raise `TypeError` at `dflow.py:103`, after the record is stored (and, with count 0, after the executor call). That path is not modelled.
