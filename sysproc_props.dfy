/**
 * Properties of the process-listing and process-info model: what the count
 * of `sys_ps_list` means, who always sees whom, and how the two parent
 * fields of `sys_ps_info` relate.
 */
module SysProcProps {
  import opened Wrappers
  import opened Namespaces
  import opened SysProc

  /** Counting the set indices below `n`: those below `n - 1`, plus one if `n - 1` is set. */
  lemma FlagCountStep(flags: seq<bool>, n: nat)
    requires 0 < n <= |flags|
    ensures |set i: nat | i < n && flags[i]|
            == |set i: nat | i < n - 1 && flags[i]| + (if flags[n - 1] then 1 else 0)
  {
    var prev := set i: nat | i < n - 1 && flags[i];
    var cur := set i: nat | i < n && flags[i];
    if flags[n - 1] {
      assert cur == prev + {n - 1};
      assert n - 1 !in prev;
    } else {
      assert cur == prev;
    }
  }

  /** The selected indices are exactly the set ones, each once. */
  lemma {:induction false} SelectedCountsFlags(flags: seq<bool>, n: nat)
    requires n <= |flags|
    ensures |Selected(flags, n)| == |set i: nat | i < n && flags[i]|
  {
    if n > 0 {
      SelectedCountsFlags(flags, n - 1);
      FlagCountStep(flags, n);
      assert |Selected(flags, n)| == |Selected(flags, n - 1)| + (if flags[n - 1] then 1 else 0);
    }
  }

  /**
   * The value `sys_ps_list` returns is the number of occupied slots whose
   * namespace chain contains the caller's namespace, each slot counted once.
   */
  lemma CountIsNumberOfVisibleSlots(procs: seq<Proc>, parents: seq<int>, rank: seq<nat>, caller: int)
    requires Forest(parents, rank) && NamespacesInRange(procs, |parents|)
    ensures |VisiblePids(procs, parents, rank, caller)|
            == |set i: nat | i < |procs| && Visible(procs, parents, rank, caller, i)|
  {
    var flags := VisibleFlags(procs, parents, rank, caller);
    SelectedCountsFlags(flags, |procs|);
    assert (set i: nat | i < |procs| && flags[i])
           == (set i: nat | i < |procs| && Visible(procs, parents, rank, caller, i));
  }

  /**
   * A caller whose own slot is occupied sees itself: the first step of the
   * walk from its own namespace matches, so the count is at least one.
   */
  lemma SelfVisible(procs: seq<Proc>, parents: seq<int>, rank: seq<nat>, me: nat)
    requires Forest(parents, rank) && NamespacesInRange(procs, |parents|) && me < |procs|
    requires procs[me].state != Unused && 0 <= procs[me].nsId
    ensures procs[me].pid in VisiblePids(procs, parents, rank, procs[me].nsId)
    ensures |VisiblePids(procs, parents, rank, procs[me].nsId)| >= 1
  {
    WithinSelf(parents, rank, procs[me].nsId);
    var slots := VisibleSlots(procs, parents, rank, procs[me].nsId, |procs|);
    assert Visible(procs, parents, rank, procs[me].nsId, me);
    var k :| 0 <= k < |slots| && slots[k] == me;
    assert VisiblePids(procs, parents, rank, procs[me].nsId)[k] == procs[me].pid;
  }

  /**
   * A caller in an outer namespace sees every slot a caller in a namespace
   * nested within it sees.
   */
  lemma AncestorSeesMore(procs: seq<Proc>, parents: seq<int>, rank: seq<nat>, inner: int, outer: int)
    requires Forest(parents, rank) && NamespacesInRange(procs, |parents|) && inner < |parents|
    requires Within(parents, rank, inner, outer)
    ensures forall i :: i in VisibleSlots(procs, parents, rank, inner, |procs|) ==>
                        i in VisibleSlots(procs, parents, rank, outer, |procs|)
  {
    forall i | i in VisibleSlots(procs, parents, rank, inner, |procs|)
      ensures i in VisibleSlots(procs, parents, rank, outer, |procs|)
    {
      WithinTransitive(parents, rank, procs[i].nsId, inner, outer);
      assert Visible(procs, parents, rank, outer, i);
    }
  }

  /** Every listed pid can be looked up: some slot, the listed one or an earlier one, carries it. */
  lemma ListedPidsAreFound(procs: seq<Proc>, parents: seq<int>, rank: seq<nat>, caller: int, k: nat)
    requires Forest(parents, rank) && NamespacesInRange(procs, |parents|)
    requires k < |VisiblePids(procs, parents, rank, caller)|
    ensures FirstWithPid(procs, VisiblePids(procs, parents, rank, caller)[k]).Some?
  {
    var slot := VisibleSlots(procs, parents, rank, caller, |procs|)[k];
    assert procs[slot].pid == VisiblePids(procs, parents, rank, caller)[k];
  }

  /**
   * A slot whose `no_parent` flag is set and whose parent pointer is null
   * reports 0 in both parent fields.
   */
  lemma RootReportsNoParent(procs: seq<Proc>, i: nat, getpid: nat -> int)
    requires i < |procs| && ParentsInTable(procs)
    requires procs[i].noParent && procs[i].parent.None?
    ensures Snapshot(procs, i, getpid).Value?
    ensures Snapshot(procs, i, getpid).value.ppid == 0
    ensures Snapshot(procs, i, getpid).value.getppid == 0
  {
  }

  /**
   * `getppid_by_proc` tests only `no_parent` before following `p->parent`:
   * a slot with the flag clear and a null parent pointer makes the kernel trap.
   */
  lemma NullParentTraps(procs: seq<Proc>, i: nat, getpid: nat -> int)
    requires i < |procs| && ParentsInTable(procs)
    requires !procs[i].noParent && procs[i].parent.None?
    ensures Snapshot(procs, i, getpid) == NullDeref
  {
  }

  /**
   * A zeroed slot (pid 0, null parent, `no_parent` clear) met first by
   * `ps_info(0)` makes the kernel trap, while a lookup of a slot whose
   * parent fields are consistent succeeds.
   */
  lemma ZeroedSlotTraps(getpid: nat -> int)
    ensures var procs := [Proc(1, "init", Sleeping, None, true, 0),
                          Proc(0, "", Unused, None, false, 0)];
            ParentsInTable(procs) &&
            InfoTraps(procs, 0, getpid) && !InfoSucceeds(procs, 0, getpid, true) &&
            InfoSucceeds(procs, 1, getpid, true)
  {
    var procs := [Proc(1, "init", Sleeping, None, true, 0), Proc(0, "", Unused, None, false, 0)];
    assert FirstWithPid(procs[1..], 0) == Some(0);
  }

  /**
   * When the `no_parent` flag agrees with the parent pointer and ids are
   * resolved to raw pids, the record is built and the raw `ppid` and the
   * resolved `getppid` agree.
   */
  lemma PpidFieldsAgree(procs: seq<Proc>, i: nat, getpid: nat -> int)
    requires i < |procs| && ParentsInTable(procs)
    requires procs[i].noParent == procs[i].parent.None?
    requires forall j: nat :: j < |procs| ==> getpid(j) == procs[j].pid
    ensures Snapshot(procs, i, getpid).Value?
    ensures Snapshot(procs, i, getpid).value.ppid == Snapshot(procs, i, getpid).value.getppid
  {
  }

  /**
   * The two fields test different things: a slot whose `no_parent` flag is
   * set while its parent pointer is not null reports the parent's pid as
   * `ppid` and 0 as `getppid`.
   */
  lemma PpidFieldsCanDiffer(getpid: nat -> int)
    ensures var procs := [Proc(1, "init", Sleeping, None, true, 0),
                          Proc(2, "sh", Running, Some(0), true, 0)];
            ParentsInTable(procs) && Snapshot(procs, 1, getpid).Value? &&
            Snapshot(procs, 1, getpid).value.ppid == 1 && Snapshot(procs, 1, getpid).value.getppid == 0
  {
  }

  /**
   * `sys_ps_info` does not skip free slots: a free slot that still carries
   * the looked-up pid is found first and its state (UNUSED, code 0) reported.
   */
  lemma InfoMayReportFreeSlot(getpid: nat -> int)
    ensures var procs := [Proc(0, "", Unused, None, true, 0),
                          Proc(0, "init", Running, None, true, 0)];
            FirstWithPid(procs, 0) == Some(0) && ParentsInTable(procs) &&
            Snapshot(procs, 0, getpid).Value? && Snapshot(procs, 0, getpid).value.state == 0
  {
  }

  /**
   * On one snapshot of the table, `ps_info` on a listed pid fails only by
   * a negative pid, a trap or a failed copy: the pid is always found.
   */
  lemma ListedInfoOutcome(procs: seq<Proc>, parents: seq<int>, rank: seq<nat>, caller: int, k: nat,
                          getpid: nat -> int, copyOk: bool)
    requires Forest(parents, rank) && NamespacesInRange(procs, |parents|) && ParentsInTable(procs)
    requires k < |VisiblePids(procs, parents, rank, caller)|
    ensures var pid := VisiblePids(procs, parents, rank, caller)[k];
            InfoSucceeds(procs, pid, getpid, copyOk) <==> 0 <= pid && !InfoTraps(procs, pid, getpid) && copyOk
  {
    ListedPidsAreFound(procs, parents, rank, caller, k);
  }

  /** The namespace forest of the example below: 0 is a root, 1 lies within 0, 2 within 1. */
  function ExampleParents(): seq<int>
  {
    [-1, 0, 1]
  }

  function ExampleRank(): seq<nat>
  {
    [0, 1, 2]
  }

  /** A (pid 10) in namespace 0; B (pid 11, child of A) in 1; C (pid 12, child of B) in 2. */
  function ExampleProcs(): seq<Proc>
  {
    [Proc(10, "a", Running, None, true, 0),
     Proc(11, "b", Sleeping, Some(0), false, 1),
     Proc(12, "c", Runnable, Some(1), false, 2)]
  }

  /** The example forest is acyclic, and each namespace's chain climbs to namespace 0. */
  lemma ExampleChains()
    ensures Forest(ExampleParents(), ExampleRank())
    ensures NamespacesInRange(ExampleProcs(), |ExampleParents()|)
    ensures Chain(ExampleParents(), ExampleRank(), 0) == [0]
    ensures Chain(ExampleParents(), ExampleRank(), 1) == [1, 0]
    ensures Chain(ExampleParents(), ExampleRank(), 2) == [2, 1, 0]
  {
    var parents, rank := ExampleParents(), ExampleRank();
    assert Forest(parents, rank);
    assert Chain(parents, rank, 0) == [0];
    assert Chain(parents, rank, 1) == [1, 0];
  }

  /** Which slots of the example callers in namespaces 2 and 0 see. */
  lemma ExampleFlags()
    ensures Forest(ExampleParents(), ExampleRank())
    ensures NamespacesInRange(ExampleProcs(), |ExampleParents()|)
    ensures VisibleFlags(ExampleProcs(), ExampleParents(), ExampleRank(), 2) == [false, false, true]
    ensures VisibleFlags(ExampleProcs(), ExampleParents(), ExampleRank(), 0) == [true, true, true]
  {
    ExampleChains();
  }

  /** A caller in namespace 2 sees only slot 2. */
  lemma ExampleInnerSlots()
    ensures Forest(ExampleParents(), ExampleRank())
    ensures NamespacesInRange(ExampleProcs(), |ExampleParents()|)
    ensures VisibleSlots(ExampleProcs(), ExampleParents(), ExampleRank(), 2, |ExampleProcs()|) == [2]
  {
    ExampleFlags();
    var flags: seq<bool> := [false, false, true];
    assert Selected(flags, 2) == [] by {
      assert Selected(flags, 2) == Selected(flags, 1) && Selected(flags, 1) == Selected(flags, 0);
    }
    assert Selected(flags, 3) == Selected(flags, 2) + [2];
  }

  /** In the three-process example, C sees only itself. */
  lemma ExampleInnerSeesItself()
    ensures Forest(ExampleParents(), ExampleRank())
    ensures NamespacesInRange(ExampleProcs(), |ExampleParents()|)
    ensures VisiblePids(ExampleProcs(), ExampleParents(), ExampleRank(), 2) == [12]
  {
    ExampleInnerSlots();
    ExampleInnerPids();
  }

  /** The pid of the third example slot. */
  lemma ExampleInnerPids()
    ensures PidsAt(ExampleProcs(), [2]) == [12]
  {
    assert PidsAt(ExampleProcs(), [2])[0] == 12;
  }

  /** A caller in namespace 0 sees all three slots, in table order. */
  lemma ExampleOuterVisibleSlots()
    ensures Forest(ExampleParents(), ExampleRank())
    ensures NamespacesInRange(ExampleProcs(), |ExampleParents()|)
    ensures VisibleSlots(ExampleProcs(), ExampleParents(), ExampleRank(), 0, |ExampleProcs()|) == [0, 1, 2]
  {
    ExampleFlags();
    ExampleOuterSlots();
  }

  /** In the three-process example, A sees all three processes, in table order. */
  lemma ExampleOuterSeesAll()
    ensures Forest(ExampleParents(), ExampleRank())
    ensures NamespacesInRange(ExampleProcs(), |ExampleParents()|)
    ensures VisiblePids(ExampleProcs(), ExampleParents(), ExampleRank(), 0) == [10, 11, 12]
  {
    ExampleOuterVisibleSlots();
    ExampleOuterPids();
  }

  /** The pids of the three example slots, in order. */
  lemma ExampleOuterPids()
    ensures PidsAt(ExampleProcs(), [0, 1, 2]) == [10, 11, 12]
  {
    var pids := PidsAt(ExampleProcs(), [0, 1, 2]);
    assert pids[0] == 10 && pids[1] == 11 && pids[2] == 12;
  }

  /** With every flag set, the first slot is selected. */
  lemma ExampleOuterSlot0()
    ensures Selected([true, true, true], 1) == [0]
  {
    assert Selected([true, true, true], 1) == Selected([true, true, true], 0) + [0];
  }

  /** With every flag set, the first two slots are selected, in order. */
  lemma ExampleOuterSlot1()
    ensures Selected([true, true, true], 2) == [0, 1]
  {
    ExampleOuterSlot0();
    assert Selected([true, true, true], 2) == Selected([true, true, true], 1) + [1];
  }

  /** With every flag set, all three slots are selected, in order. */
  lemma ExampleOuterSlots()
    ensures Selected([true, true, true], 3) == [0, 1, 2]
  {
    ExampleOuterSlot1();
    assert Selected([true, true, true], 3) == Selected([true, true, true], 2) + [2];
  }

  /** In the three-process example, the info on pid 11 names pid 10 as parent and namespace 1. */
  lemma ExampleInfoOnMiddle(getpid: nat -> int)
    ensures FirstWithPid(ExampleProcs(), 11) == Some(1)
    ensures ParentsInTable(ExampleProcs())
    ensures Snapshot(ExampleProcs(), 1, getpid).Value?
    ensures Snapshot(ExampleProcs(), 1, getpid).value.ppid == 10
    ensures Snapshot(ExampleProcs(), 1, getpid).value.nsId == 1
  {
    var procs := ExampleProcs();
    assert procs[0].pid != 11 && procs[1].pid == 11;
    assert FirstWithPid(procs[1..], 11) == Some(0);
  }
}
