# Namespace-aware process listing for an xv6-style kernel

This is a Dafny model of the process-introspection part of a small teaching
kernel. It also models the `ps` program that uses it.

- **Process table.** The kernel keeps a fixed table of process slots
  (`proc[]`). Each occupied slot belongs to a namespace.
- **Namespace table.** Namespaces form a forest (`nmspaces[]`). In this
  forest, every node names its parent, or a negative id when it is a root.
- **`sys_ps_list(limit, buf)`.**
  - The call counts the occupied slots whose namespace lies within the
    caller's namespace. A namespace lies within the caller's when the
    caller's namespace is on its chain of ancestors, the namespace itself
    included.
  - It copies the pids of the first `limit` such slots to the caller and
    returns the total count.
- **`sys_ps_info(pid, buf)`.** The call finds the first slot carrying `pid`
  and copies out a record. The record holds the slot's name, state, parent
  pid, namespace id, and resolved own and parent ids.
- **`ps`.** The user program grows its buffer until the whole list fits. It
  then prints either the pids or a table with one `ps_info` row per pid.

Modules:

- `Namespaces` (namespaces.dfy) holds the forest and the chain walk. Acyclicity
  is stated by a `rank` that strictly decreases from a node to its parent.
- `SysProc` (sysproc.dfy) holds the two system calls and `getppid_by_proc`.
  - The process table and the namespace table are arrays that the methods
    read and never modify.
  - `sys_ps_list`'s scratch buffer is an array of size `limit`, filled in
    place.
- `SysProcProps` (sysproc_props.dfy) holds properties of the kernel model and
  a worked example with three nested namespaces.
- `PsClient` (ps.dfy) models `main` of user/ps.c.
- `Wrappers` (wrappers.dfy) holds the `Option` type.

Inputs that the model takes as parameters:

- Every call runs on one fixed snapshot of both tables, so the locks are not
  modelled.
- `copyout` is a boolean that says whether the copy succeeds. `PsList` and
  `PsInfo` take it as `copyOk`. In `ps`, every `ps_list` call of a run takes
  `listOk`, and the `ps_info` call for row `k` takes `infoOk(k)`.
- A pointer `p->parent` into `proc[]` is the index of the slot it points at,
  or None when it is null.
- A kernel computation that dereferences a null parent pointer yields
  `NullDeref`, a trap, instead of a value. A run of `ps` in which a system
  call traps ends with exit `NullDeref`.
- `getpid_by_proc` is defined outside kernel/sysproc.c. Here it is a
  parameter `getpid` that maps a slot index to the resolved id.
- `myproc()` is the slot `me`.

## Model

| member | source | states |
|---|---|---|
| Namespaces.Chain | kernel/sysproc.c:137-138 | The walk from `start` is empty exactly when `start` is negative. Otherwise it begins at `start`, visits only ids inside the table and ends at a root. |
| Namespaces.ChainFollowsParents | kernel/sysproc.c:137-138 | Each step of the walk moves from a node to its `parent_id`. |
| Namespaces.ChainRankDecreases | kernel/sysproc.c:137-138 | Ranks strictly decrease along the walk. The walk therefore ends, and no namespace occurs on it twice. |
| Namespaces.ChainStep | kernel/sysproc.c:137-142 | One step of the walk adds one match exactly when the current id is the caller's namespace. |
| Namespaces.HeadNotInTail | kernel/sysproc.c:137-138 | A namespace never reappears among its own ancestors. |
| Namespaces.ChainVisitsOnce | kernel/sysproc.c:137-143 | The walk does not stop at a match. Even so, it meets any namespace at most once: the namespace's multiplicity on the chain is 1 if it is on the chain and 0 otherwise. |
| Namespaces.WithinSelf | kernel/sysproc.c:137-139 | Every namespace lies within itself, matched with zero steps. |
| Namespaces.WithinTransitive | kernel/sysproc.c:137-143 | Nesting is transitive: a namespace within a namespace within `scope` lies within `scope`. |
| Namespaces.WithinAntisymmetric | kernel/sysproc.c:137-143 | Two distinct namespaces never lie within each other, so an inner namespace does not see an outer one. |
| SysProc.StateCode | kernel/sysproc.c:198 | The state copied into the record is a code from 0 to 5, and it is 0 exactly for UNUSED. |
| SysProc.Selected | kernel/sysproc.c:129-141 | The result is the strictly increasing list of every flagged index below `n`, so it is in table order with no repeats. |
| SysProc.VisibleSlots | kernel/sysproc.c:129-146 | The result is the strictly increasing list of slots that are occupied and within the caller's namespace, and it misses none. UNUSED slots are never listed. |
| SysProc.Staged | kernel/sysproc.c:140 | `my_pids[count] = pid` happens only when `count` is inside the scratch array, and it leaves every other entry unchanged. |
| SysProc.StageKeepsPrefix | kernel/sysproc.c:140-141 | Staging the next pid keeps the staged prefix of the scratch array equal to the pids counted so far, cut at the array's size. |
| SysProc.ScanStep | kernel/sysproc.c:129-146 | One slot of the scan keeps the invariant. The count is the number of visible slots so far, and the scratch array holds their pids up to `limit`. |
| SysProc.WalkChain | kernel/sysproc.c:137-143 | The inner walk adds 1 to `count` exactly when the caller's namespace is on the slot's chain. It writes only `my_pids[count]`, and only in that case. |
| SysProc.PsList | kernel/sysproc.c:105-157 | A negative `limit` gives -1 and copies nothing. A failed copy gives -1. Otherwise the call returns the number of visible slots, which may exceed `limit`. It copies out the pids of the first `min(count, limit)` visible slots in table order. The tables are not written. |
| SysProc.FirstWithPid | kernel/sysproc.c:180-187 | The result is the first slot in table order whose pid matches, whatever its state, or None when no slot carries the pid. |
| SysProc.Prefix | kernel/sysproc.c:197 | The copied name is the first 16 characters of the slot's name, or the whole name when it is shorter. |
| SysProc.GetPpidByProc | kernel/sysproc.c:93-99 | The result is 0 when `no_parent` is set. When `no_parent` is clear, the call traps exactly when the parent pointer is null; otherwise the result is the resolved id of the parent slot. |
| SysProc.Snapshot | kernel/sysproc.c:196-210 | Building the record traps exactly when `getppid_by_proc` traps. Otherwise the record holds the name cut to 16 characters and the slot's state code, which is 0 exactly for UNUSED. `ppid` is 0 for a null parent and the parent slot's pid otherwise. It also holds the slot's namespace id, the result of `getppid_by_proc` and the slot's resolved id. |
| SysProc.PsInfo | kernel/sysproc.c:159-223 | The call traps exactly when `pid >= 0`, some slot carries the pid and building the first such slot's record traps. It returns 0 exactly when `pid >= 0`, some slot carries the pid, the record is built and the copy succeeds. In every other case it returns -1. On success the copied record is the snapshot of the first matching slot, whatever its state; on failure nothing is copied. |
| SysProcProps.SelectedCountsFlags | kernel/sysproc.c:141 | The number of selected indices equals the number of flagged indices. |
| SysProcProps.CountIsNumberOfVisibleSlots | kernel/sysproc.c:129-156 | The count `sys_ps_list` returns equals the cardinality of the set of slots that are occupied and within the caller's namespace. |
| SysProcProps.SelfVisible | kernel/sysproc.c:137-139 | A caller whose slot is occupied, with a non-negative namespace id, finds its own pid in the list, so the count is at least 1. |
| SysProcProps.AncestorSeesMore | kernel/sysproc.c:137-143 | A caller in an outer namespace sees every slot that a caller in a nested namespace sees. |
| SysProcProps.ListedPidsAreFound | kernel/sysproc.c:180-187 | Every listed pid is found by the lookup of `sys_ps_info`. |
| SysProcProps.RootReportsNoParent | kernel/sysproc.c:200-209 | A slot whose `no_parent` flag is set and whose parent pointer is null gets a record, with 0 as `ppid` and 0 as `getppid`. |
| SysProcProps.NullParentTraps | kernel/sysproc.c:93-99 | A slot whose `no_parent` flag is clear and whose parent pointer is null makes building its record trap. |
| SysProcProps.ZeroedSlotTraps | kernel/sysproc.c:180-209 | Take a zeroed free slot: pid 0, null parent and `no_parent` clear. If it is the first slot with pid 0, `ps_info(0)` traps. A lookup of a consistent slot in the same table succeeds. |
| SysProcProps.PpidFieldsAgree | kernel/sysproc.c:93-99 | The record is built, and `ppid` and `getppid` agree, when two things hold. The `no_parent` flag must match the null parent pointer, and ids must resolve to raw pids. |
| SysProcProps.PpidFieldsCanDiffer | kernel/sysproc.c:93-99 | If the `no_parent` flag is set while the parent pointer is not null, the record gives the parent's pid as `ppid` and 0 as `getppid`. |
| SysProcProps.InfoMayReportFreeSlot | kernel/sysproc.c:180-187 | A free slot that carries the pid and comes first in the table is the one reported, with state code 0 (UNUSED). |
| SysProcProps.ListedInfoOutcome | kernel/sysproc.c:168-221 | On the same snapshot, `ps_info` on a listed pid succeeds exactly when three things hold: the pid is non-negative, the record does not trap and the copy succeeds. A listed pid is never missing from the table. |
| SysProcProps.ExampleChains | kernel/sysproc.c:137-138 | In the three-namespace example the forest is acyclic and each chain climbs to namespace 0. |
| SysProcProps.ExampleFlags | kernel/sysproc.c:129-143 | In the example, a caller in namespace 2 sees only slot 2, and a caller in namespace 0 sees all three slots. |
| SysProcProps.ExampleInnerSeesItself | kernel/sysproc.c:105-157 | In the example, the innermost process C (pid 12) is listed only itself. |
| SysProcProps.ExampleOuterSeesAll | kernel/sysproc.c:105-157 | In the example, the outermost process A is listed pids 10, 11 and 12, in table order. |
| SysProcProps.ExampleInfoOnMiddle | kernel/sysproc.c:180-210 | In the example, the info on pid 11 comes from slot 1 and is built without a trap. It gives parent pid 10 and namespace 1. |
| PsClient.Parse | user/ps.c:8-23 | The argument count is wrong exactly when `argc != 2`. A recognised word selects the command named by that word. The argument is unknown exactly when no command has that name. |
| PsClient.ParseCommandName | user/ps.c:13-23 | Every command word selects its own command. |
| PsClient.StateToken | user/ps.c:47-66 | Every token is exactly 8 characters long. The token is "ZOMBIE  " exactly when the code is not one of the five named states 0 to 4. |
| PsClient.StateTokensDistinct | user/ps.c:47-66 | Two kernel states get the same token only if they are the same state. |
| PsClient.GrowCapacity | user/ps.c:29-30 | Doubling never lowers the limit and stops once the limit holds `count`. If it doubled at all, the new limit is below `2 * count`. A limit of the form 4·2^k keeps that form. |
| PsClient.CapacityDoubles | user/ps.c:29-30 | Doubling a capacity of the form 4·2^k gives another one. |
| PsClient.FetchPids | user/ps.c:24-33 | On exit the buffer size has the form 4·2^k and `count` is at most the buffer size. After a failing `ps_list`, `count` is -1. Otherwise `count` is the number of visible pids and the buffer begins with all of them, in table order. |
| PsClient.Receive | kernel/sysproc.c:151 | After the copy, the user buffer begins with exactly the values written, and the rest of the buffer is unchanged. |
| PsClient.ListRows | user/ps.c:40-74 | Row `k` is the record `ps_info` returns for pid `k`, with the state shown as its token. The result is 0 exactly when every call succeeds. Otherwise the rows stop before the first call that fails, and that call's outcome is the result: a trap, or -1. |
| PsClient.PidsMode | user/ps.c:24-38 | The printed lines are every visible pid, in table order. They are empty when `ps_list` fails. |
| PsClient.ListMode | user/ps.c:24-74 | The rows and the exit status satisfy the `list` report for the visible pids, or for no pids when `ps_list` fails. Each row is its pid's record. The exit is 0 exactly when every `ps_info` succeeds. Otherwise the rows stop at the first failing call, and the exit is a trap exactly when that call traps. |
| PsClient.Ps | user/ps.c:5-80 | A wrong argument count or an unknown word gives -1 and no output. `ppid` prints `getppid_by_proc` of the caller, or traps when that does. `count` calls `ps_list(0, …)`, prints its result and gives 0. `clone` gives -1 exactly when `clone()` fails. `pids` prints every visible pid in order and gives 0. `list` gives the `list` report on the visible pids. Its rows are the records of the listed pids. It gives 0 exactly when every `ps_info` succeeds, and otherwise -1, or a trap when the failing call traps. |

## Left out

- Spinlocks: `pid_lock`, `wait_lock`, the per-slot locks and `tickslock`. They only serve concurrency; each call runs on a fixed snapshot.
- `copyout`: modelled as success or failure only. A failing copy is taken to write nothing to user memory, although the real one may leave a partial copy.
- `argint` and `argaddr`: the system-call arguments are method parameters.
- `getpid_by_proc` is not part of this model. It is a parameter, and nothing is assumed of it.
- `sys_getppid` is inlined. The `ppid` mode of `ps` calls the `getppid_by_proc` model on the caller's slot.
- The lifecycle wrappers `sys_exit`, `sys_getpid`, `sys_fork`, `sys_wait`, `sys_sbrk`, `sys_sleep`, `sys_kill` and `sys_uptime` (kernel/sysproc.c:9-91) are left out. They only forward to scheduler and lifecycle code that is not part of this model.
- `clone()` in user/ps.c:17-22 is external. Its return value is a parameter.
- The printed text (`printf`, `fprintf`) is left out. The model returns what would be printed as values, and the error stream is not modelled. The table header names an `o_files` column that no row prints; this is not modelled.
- `malloc` and `free` are left out. Each buffer is a fresh array.
- proc.h and the `process_info` layout are not part of this model:
  - The state codes follow xv6's declaration order of `enum procstate`, UNUSED = 0 up to ZOMBIE = 5.
  - The name buffer is taken to be xv6's 16 characters.
- Prefix: models `strncpy` as taking the first 16 characters. NUL padding, and the missing terminator for a name of 16 characters or more, are left out.
- `int my_pids[limit]` lives on the kernel stack, and nothing bounds `limit`. The model's array has no size limit, so it cannot show a stack overflow for a large `limit`.
- PsList: C `int` arithmetic is unbounded in the model. The count is at most the table size, so `count` cannot overflow.
- GrowCapacity: `limit *= 2` is not modelled with 32-bit wrap-around. The ensures give `limit < 2 * count`, so no overflow happens while `count <= 2^30`.
- Ps: both `ps_list` calls of one run share one copy outcome (`listOk`). When they differ, the run ends the same way as when the last call fails.
- Ps: the tables do not change between the calls. With tables that change, the retry loop of user/ps.c:27-33 need not end, a listed pid can vanish before `ps_info`, and neither case is modelled.
- A kernel trap is an outcome (`NullDeref`). What the trap handler then does, whether it panics or kills the process, is not part of this model.

## Behaviour of the code worth knowing

- `sys_ps_info` does not skip UNUSED slots: it takes the first slot with a matching pid, whatever its state. SysProcProps.InfoMayReportFreeSlot shows a free slot being reported.
- `sys_ps_info` applies no namespace filter, so any pid in the table can be queried.
- `getppid_by_proc` tests only `no_parent` before it dereferences `p->parent`. `sys_ps_info` calls it on whatever slot it finds, free slots included. A free slot whose memory is zeroed has pid 0, a null parent and `no_parent` clear, so `ps_info(0)` can reach a null dereference. Whether free slots are zeroed is decided by code that is not part of this model. SysProcProps.NullParentTraps and SysProcProps.ZeroedSlotTraps state this.
- The `pids`, `list` and `count` modes of `ps` do not treat a failing `ps_list` as an error:
  - `-1` never exceeds the capacity, so the retry loop ends at once.
  - Nothing is listed and `ps` exits with 0.
  - `count` prints `-1` and exits with 0.

  PsClient.FetchPids and PsClient.Ps state this.
- A caller whose own namespace id is negative sees nothing, not even itself. The walk stops before its first step, which is why SysProcProps.SelfVisible asks for a non-negative namespace id.
