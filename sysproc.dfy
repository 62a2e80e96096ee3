/**
 * The process-introspection system calls of kernel/sysproc.c:
 * `sys_ps_list`, `sys_ps_info` and `getppid_by_proc`.
 *
 * Each call runs on a fixed snapshot of the process table `proc[]` and the
 * namespace table `nmspaces[]`; the spinlocks that give the kernel that
 * snapshot are not modelled. Both tables are arrays the methods read and
 * never modify. The copy to user memory (`copyout`) is a parameter saying
 * whether it succeeds, and `getpid_by_proc`, defined outside this file, is a
 * parameter `getpid` from slot index to the resolved id.
 */
module SysProc {
  import opened Wrappers
  import opened Namespaces

  /** `enum procstate`, in the order of its declaration. */
  datatype ProcState = Unused | Used | Sleeping | Runnable | Running | Zombie

  /** The integer a state carries when it is copied into `process_info`. */
  function StateCode(s: ProcState): (code: int)
    ensures 0 <= code <= 5
    ensures code == 0 <==> s == Unused
  {
    match s
    case Unused => 0
    case Used => 1
    case Sleeping => 2
    case Runnable => 3
    case Running => 4
    case Zombie => 5
  }

  /** `sizeof(process_info.name)`. */
  const NAME_SIZE: nat := 16

  /**
   * One slot of `proc[]`. `parent` is the slot index `p->parent` points to
   * (None for a null pointer); `noParent` is the separate `p->no_parent` flag.
   */
  datatype Proc = Proc(pid: int, name: string, state: ProcState, parent: Option<nat>,
                       noParent: bool, nsId: int)

  /** `struct process_info` as `sys_ps_info` fills it. */
  datatype ProcInfo = ProcInfo(name: string, state: int, ppid: int, nsId: int,
                               getppid: int, getpid: int)

  /**
   * What a kernel computation that follows `p->parent` yields: a value, or a
   * trap because the pointer it dereferences is null.
   */
  datatype Deref<+T> = Value(value: T) | NullDeref

  /**
   * Every set parent pointer points at a slot of the table: a pointer into
   * `proc[]` is represented by the index of the slot it points at.
   */
  predicate ParentsInTable(procs: seq<Proc>)
  {
    forall i :: 0 <= i < |procs| && procs[i].parent.Some? ==> procs[i].parent.value < |procs|
  }

  /** The table invariant that every occupied slot names an existing namespace. */
  predicate NamespacesInRange(procs: seq<Proc>, nsCount: nat)
  {
    forall i :: 0 <= i < |procs| && procs[i].state != Unused ==> procs[i].nsId < nsCount
  }

  /** Slot `i` is listed for a caller in namespace `caller`. */
  predicate Visible(procs: seq<Proc>, parents: seq<int>, rank: seq<nat>, caller: int, i: nat)
    requires Forest(parents, rank) && NamespacesInRange(procs, |parents|) && i < |procs|
  {
    procs[i].state != Unused && Within(parents, rank, procs[i].nsId, caller)
  }

  /** Which slots are visible to a caller in namespace `caller`, slot by slot. */
  function VisibleFlags(procs: seq<Proc>, parents: seq<int>, rank: seq<nat>, caller: int): seq<bool>
    requires Forest(parents, rank) && NamespacesInRange(procs, |parents|)
  {
    seq(|procs|, i requires 0 <= i < |procs| => Visible(procs, parents, rank, caller, i))
  }

  /** The indices below `n` whose flag is set, in increasing order. */
  function Selected(flags: seq<bool>, n: nat): (s: seq<nat>)
    requires n <= |flags|
    ensures forall k :: 0 <= k < |s| ==> s[k] < n && flags[s[k]]
    ensures forall k, l :: 0 <= k < l < |s| ==> s[k] < s[l]
    ensures forall i :: 0 <= i < n && flags[i] ==> i in s
  {
    if n == 0 then []
    else Selected(flags, n - 1) + (if flags[n - 1] then [n - 1] else [])
  }

  /** The visible slots among the first `n`, in table order. */
  function VisibleSlots(procs: seq<Proc>, parents: seq<int>, rank: seq<nat>, caller: int, n: nat): (s: seq<nat>)
    requires Forest(parents, rank) && NamespacesInRange(procs, |parents|) && n <= |procs|
    ensures forall k :: 0 <= k < |s| ==> s[k] < n && Visible(procs, parents, rank, caller, s[k])
    ensures forall k, l :: 0 <= k < l < |s| ==> s[k] < s[l]
    ensures forall i :: 0 <= i < n && Visible(procs, parents, rank, caller, i) ==> i in s
  {
    Selected(VisibleFlags(procs, parents, rank, caller), n)
  }

  /** The pids of the given slots, in the same order. */
  function PidsAt(procs: seq<Proc>, slots: seq<nat>): (pids: seq<int>)
    requires forall k :: 0 <= k < |slots| ==> slots[k] < |procs|
  {
    seq(|slots|, k requires 0 <= k < |slots| => procs[slots[k]].pid)
  }

  /** The pids `sys_ps_list` reports to a caller in namespace `caller`, in table order. */
  function VisiblePids(procs: seq<Proc>, parents: seq<int>, rank: seq<nat>, caller: int): seq<int>
    requires Forest(parents, rank) && NamespacesInRange(procs, |parents|)
  {
    PidsAt(procs, VisibleSlots(procs, parents, rank, caller, |procs|))
  }

  function Min(a: int, b: int): int
  {
    if a < b then a else b
  }

  /** The scratch array after `my_pids[at] = pid` runs only when `at` is inside it. */
  function Staged(buf: seq<int>, at: int, pid: int): (r: seq<int>)
    ensures |r| == |buf|
    ensures forall k :: 0 <= k < |r| && k != at ==> r[k] == buf[k]
    ensures 0 <= at < |buf| ==> r[at] == pid
  {
    if 0 <= at < |buf| then buf[at := pid] else buf
  }

  /** Appending a slot appends its pid. */
  lemma PidsAtAppend(procs: seq<Proc>, slots: seq<nat>, i: nat)
    requires forall k :: 0 <= k < |slots| ==> slots[k] < |procs|
    requires i < |procs|
    ensures PidsAt(procs, slots + [i]) == PidsAt(procs, slots) + [procs[i].pid]
  {
  }

  /**
   * Staging the next visible pid at index `|counted|` keeps the staged part of
   * the scratch array equal to the counted pids, cut at the array's size.
   */
  lemma StageKeepsPrefix(buf: seq<int>, counted: seq<int>, pid: int)
    requires buf[..Min(|counted|, |buf|)] == counted[..Min(|counted|, |buf|)]
    ensures Staged(buf, |counted|, pid)[..Min(|counted| + 1, |buf|)]
            == (counted + [pid])[..Min(|counted| + 1, |buf|)]
  {
    var c := |counted|;
    if c < |buf| {
      assert Staged(buf, c, pid)[..c + 1] == buf[..c] + [pid];
      assert (counted + [pid])[..c + 1] == counted + [pid];
    } else {
      assert (counted + [pid])[..|buf|] == counted[..|buf|];
    }
  }

  /**
   * One slot of the outer scan of `sys_ps_list`: if the slot is visible the
   * count grows by one and its pid is staged, so the staged prefix of the
   * scratch array stays equal to the visible pids counted so far.
   */
  lemma ScanStep(procs: seq<Proc>, ns: seq<int>, rank: seq<nat>, caller: int, i: nat,
                 before: seq<int>, after: seq<int>, count: int, newCount: int)
    requires Forest(ns, rank) && NamespacesInRange(procs, |ns|) && i < |procs|
    requires count == |Selected(VisibleFlags(procs, ns, rank, caller), i)|
    requires before[..Min(count, |before|)]
             == PidsAt(procs, Selected(VisibleFlags(procs, ns, rank, caller), i))[..Min(count, |before|)]
    requires newCount == count + (if Visible(procs, ns, rank, caller, i) then 1 else 0)
    requires after == if newCount == count then before else Staged(before, count, procs[i].pid)
    ensures newCount == |Selected(VisibleFlags(procs, ns, rank, caller), i + 1)|
    ensures after[..Min(newCount, |after|)]
            == PidsAt(procs, Selected(VisibleFlags(procs, ns, rank, caller), i + 1))[..Min(newCount, |after|)]
  {
    var flags := VisibleFlags(procs, ns, rank, caller);
    var counted := PidsAt(procs, Selected(flags, i));
    assert Selected(flags, i + 1) == Selected(flags, i) + (if flags[i] then [i] else []);
    if flags[i] {
      PidsAtAppend(procs, Selected(flags, i), i);
      StageKeepsPrefix(before, counted, procs[i].pid);
    }
  }

  /**
   * The inner walk of `sys_ps_list` for one occupied slot: climbs from
   * namespace `start` to a root and, at every step equal to `callerNs`,
   * stages `pid` at index `count` of the scratch array (when that index is
   * inside it) and increments `count`. The walk does not stop at a match;
   * it still counts the slot at most once.
   */
  method WalkChain(nmspaces: array<int>, ghost rank: seq<nat>, start: int, callerNs: int,
                   pid: int, myPids: array<int>, count: int)
    returns (newCount: int)
    requires Forest(nmspaces[..], rank) && start < nmspaces.Length
    requires myPids != nmspaces
    modifies myPids
    ensures newCount == count + (if Within(nmspaces[..], rank, start, callerNs) then 1 else 0)
    ensures myPids[..] == if newCount == count then old(myPids[..]) else Staged(old(myPids[..]), count, pid)
  {
    ghost var ns := nmspaces[..];
    ChainVisitsOnce(ns, rank, start, callerNs);
    newCount := count;
    var current := start;
    while current >= 0
      invariant current < nmspaces.Length
      invariant count <= newCount
      invariant newCount - count + multiset(Chain(ns, rank, current))[callerNs]
                == multiset(Chain(ns, rank, start))[callerNs]
      invariant myPids[..] == if newCount == count then old(myPids[..]) else Staged(old(myPids[..]), count, pid)
      decreases if current < 0 then 0 else rank[current] + 1
    {
      ChainStep(ns, rank, current, callerNs);
      if current == callerNs {
        assert newCount == count;
        if 0 <= newCount < myPids.Length {
          myPids[newCount] := pid;
        }
        newCount := newCount + 1;
      }
      current := nmspaces[current];
    }
  }

  /**
   * `sys_ps_list(limit, pids)`: counts the occupied slots whose namespace lies
   * within the caller's, staging the first `limit` of their pids in a scratch
   * array of size `limit` and handing `min(count, limit)` of them to `copyout`.
   * `written` is what reaches user memory.
   */
  method PsList(proc: array<Proc>, nmspaces: array<int>, ghost rank: seq<nat>, callerNs: int,
                limit: int, copyOk: bool)
    returns (ret: int, written: seq<int>)
    requires Forest(nmspaces[..], rank)
    requires NamespacesInRange(proc[..], nmspaces.Length)
    ensures limit < 0 ==> ret == -1 && written == []
    ensures 0 <= limit && !copyOk ==> ret == -1 && written == []
    ensures 0 <= limit && copyOk ==>
      var visible := VisiblePids(proc[..], nmspaces[..], rank, callerNs);
      ret == |visible| && written == visible[..Min(ret, limit)]
  {
    if limit < 0 {
      return -1, [];
    }
    ghost var procs, ns := proc[..], nmspaces[..];
    ghost var flags := VisibleFlags(procs, ns, rank, callerNs);
    var count := 0;
    var myPids := new int[limit];
    var i := 0;
    while i < proc.Length
      invariant 0 <= i <= proc.Length
      invariant count == |Selected(flags, i)|
      invariant myPids[..Min(count, limit)] == PidsAt(procs, Selected(flags, i))[..Min(count, limit)]
    {
      var p := proc[i];
      ghost var before, counted := myPids[..], count;
      if p.state != Unused {
        count := WalkChain(nmspaces, rank, p.nsId, callerNs, p.pid, myPids, count);
      }
      ScanStep(procs, ns, rank, callerNs, i, before, myPids[..], counted, count);
      i := i + 1;
    }
    if !copyOk {
      return -1, [];
    }
    written := myPids[..if count > limit then limit else count];
    ret := count;
  }

  /** The first slot in table order whose pid is `pid`, whatever its state. */
  function FirstWithPid(procs: seq<Proc>, pid: int): (r: Option<nat>)
    ensures r.Some? ==> r.value < |procs| && procs[r.value].pid == pid
    ensures r.Some? ==> forall j :: 0 <= j < r.value ==> procs[j].pid != pid
    ensures r.None? ==> forall j :: 0 <= j < |procs| ==> procs[j].pid != pid
  {
    if |procs| == 0 then None
    else if procs[0].pid == pid then Some(0)
    else match FirstWithPid(procs[1..], pid)
      case None => None
      case Some(k) => Some(k + 1)
  }

  /** `strncpy` into a buffer of `n` characters: the first `n` characters, or all of a shorter string. */
  function Prefix(s: string, n: nat): (r: string)
    ensures |r| == Min(|s|, n) && r <= s
  {
    if |s| <= n then s else s[..n]
  }

  /**
   * `getppid_by_proc(&proc[i])`: 0 when `no_parent` is set; otherwise the
   * resolved id of the slot `p->parent` points at, which traps when that
   * pointer is null.
   */
  function GetPpidByProc(procs: seq<Proc>, i: nat, getpid: nat -> int): (r: Deref<int>)
    requires i < |procs|
    ensures r == NullDeref <==> !procs[i].noParent && procs[i].parent.None?
    ensures procs[i].noParent ==> r == Value(0)
    ensures r.Value? && !procs[i].noParent ==> r.value == getpid(procs[i].parent.value)
  {
    if procs[i].noParent then Value(0)
    else if procs[i].parent.None? then NullDeref
    else Value(getpid(procs[i].parent.value))
  }

  /**
   * The `process_info` record `sys_ps_info` builds from slot `i`, or a trap
   * when `getppid_by_proc` dereferences a null parent.
   */
  function Snapshot(procs: seq<Proc>, i: nat, getpid: nat -> int): (r: Deref<ProcInfo>)
    requires i < |procs| && ParentsInTable(procs)
    ensures r == NullDeref <==> GetPpidByProc(procs, i, getpid) == NullDeref
    ensures r.Value? ==> r.value.name == procs[i].name[..Min(|procs[i].name|, NAME_SIZE)]
    ensures r.Value? ==> r.value.state == StateCode(procs[i].state)
    ensures r.Value? ==> (r.value.state == 0 <==> procs[i].state == Unused)
    ensures r.Value? && procs[i].parent.None? ==> r.value.ppid == 0
    ensures r.Value? && procs[i].parent.Some? ==> r.value.ppid == procs[procs[i].parent.value].pid
    ensures r.Value? ==> r.value.nsId == procs[i].nsId && r.value.getpid == getpid(i)
    ensures r.Value? ==> r.value.getppid == GetPpidByProc(procs, i, getpid).value
  {
    match GetPpidByProc(procs, i, getpid)
    case NullDeref => NullDeref
    case Value(getppid) =>
      var p := procs[i];
      Value(ProcInfo(Prefix(p.name, NAME_SIZE), StateCode(p.state),
                     if p.parent.None? then 0 else procs[p.parent.value].pid,
                     p.nsId, getppid, getpid(i)))
  }

  /** `sys_ps_info(pid, …)` finds a slot, builds its record without trapping, and copies it out. */
  predicate InfoSucceeds(procs: seq<Proc>, pid: int, getpid: nat -> int, copyOk: bool)
    requires ParentsInTable(procs)
  {
    0 <= pid && FirstWithPid(procs, pid).Some? &&
    Snapshot(procs, FirstWithPid(procs, pid).value, getpid).Value? && copyOk
  }

  /** `sys_ps_info(pid, …)` finds a slot whose record cannot be built: the kernel traps. */
  predicate InfoTraps(procs: seq<Proc>, pid: int, getpid: nat -> int)
    requires ParentsInTable(procs)
  {
    0 <= pid && FirstWithPid(procs, pid).Some? &&
    Snapshot(procs, FirstWithPid(procs, pid).value, getpid) == NullDeref
  }

  /**
   * `sys_ps_info(pid, psinfo)`: a linear search for the first slot with that
   * pid, with no check of its state or namespace, then a snapshot of it.
   * `ret` is the returned code, or NullDeref when building the snapshot
   * traps; `written` is the record that reaches user memory.
   */
  method PsInfo(proc: array<Proc>, pid: int, getpid: nat -> int, copyOk: bool)
    returns (ret: Deref<int>, written: Option<ProcInfo>)
    requires ParentsInTable(proc[..])
    ensures ret == Value(0) || ret == Value(-1) || ret == NullDeref
    ensures ret == NullDeref <==> InfoTraps(proc[..], pid, getpid)
    ensures ret == Value(0) <==> InfoSucceeds(proc[..], pid, getpid, copyOk)
    ensures ret == Value(0) ==>
      written == Some(Snapshot(proc[..], FirstWithPid(proc[..], pid).value, getpid).value)
    ensures ret != Value(0) ==> written == None
  {
    if pid < 0 {
      return Value(-1), None;
    }
    var i := 0;
    while i < proc.Length && proc[i].pid != pid
      invariant 0 <= i <= proc.Length
      invariant forall j :: 0 <= j < i ==> proc[j].pid != pid
    {
      i := i + 1;
    }
    if i == proc.Length {
      return Value(-1), None;
    }
    var p := proc[i];
    var ppid := if p.parent.None? then 0 else proc[p.parent.value].pid;
    var getppid := GetPpidByProc(proc[..], i, getpid);
    if getppid == NullDeref {
      return NullDeref, None;
    }
    var info := ProcInfo(Prefix(p.name, NAME_SIZE), StateCode(p.state), ppid, p.nsId,
                         getppid.value, getpid(i));
    if !copyOk {
      return Value(-1), None;
    }
    return Value(0), Some(info);
  }
}
