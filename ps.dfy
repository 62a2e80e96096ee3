/**
 * The `ps` user program (user/ps.c): argument dispatch, the capacity-growth
 * retry around `ps_list`, and the `list` table with its state column.
 *
 * The kernel calls go to the SysProc model on one snapshot of the tables;
 * `myproc()` is slot `me`. The `copyout` of every `ps_list` call succeeds or
 * fails as `listOk` says, and that of the `ps_info` call for row `k` as
 * `infoOk(k)`. A kernel trap ends the run with exit NullDeref. What would be
 * printed is returned as an `Output` value; text sent to the error stream is
 * not part of it.
 */
module PsClient {
  import opened Wrappers
  import opened Namespaces
  import opened SysProc

  /** The argument `ps` understands. */
  datatype Command = Ppid | Count | Clone | Pids | List

  /** The outcome of reading `argv`. */
  datatype Parsed = Run(cmd: Command) | WrongArgCount | UnknownArg

  /** The word that selects each command. */
  function CommandName(c: Command): string
  {
    match c
    case Ppid => "ppid"
    case Count => "count"
    case Clone => "clone"
    case Pids => "pids"
    case List => "list"
  }

  /**
   * The dispatch of `main`: exactly one user argument (`argc == 2`), matched
   * against the command words in the order the `strcmp` chain tries them.
   */
  function Parse(argv: seq<string>): (p: Parsed)
    ensures p == WrongArgCount <==> |argv| != 2
    ensures p.Run? ==> CommandName(p.cmd) == argv[1]
    ensures p == UnknownArg <==> |argv| == 2 && forall c: Command :: CommandName(c) != argv[1]
  {
    if |argv| != 2 then WrongArgCount
    else if argv[1] == "ppid" then Run(Ppid)
    else if argv[1] == "count" then Run(Count)
    else if argv[1] == "clone" then Run(Clone)
    else if argv[1] == "pids" then Run(Pids)
    else if argv[1] == "list" then Run(List)
    else UnknownArg
  }

  /** Every command word selects its command, whatever the program name. */
  lemma {:induction false} ParseCommandName(prog: string, c: Command)
    ensures Parse([prog, CommandName(c)]) == Run(c)
  {
    match c
    case Ppid =>
    case Count =>
    case Clone =>
    case Pids =>
    case List =>
  }

  /**
   * The `switch` on `info.state`: the five named states get their own
   * token, every other code (ZOMBIE and anything out of range) "ZOMBIE  ".
   */
  function StateToken(code: int): (token: string)
    ensures |token| == 8
    ensures token == "ZOMBIE  " <==> !(0 <= code <= 4)
  {
    match code
    case 0 => "UNUSED  "
    case 1 => "USED    "
    case 2 => "SLEEPING"
    case 3 => "RUNNABLE"
    case 4 => "RUNNING "
    case _ => "ZOMBIE  "
  }

  /** Different kernel states get different tokens. */
  lemma StateTokensDistinct(s: ProcState, t: ProcState)
    ensures StateToken(StateCode(s)) == StateToken(StateCode(t)) <==> s == t
  {
  }

  /** `limit` is the initial capacity 4 doubled some number of times. */
  predicate IsCapacity(limit: int)
    decreases if limit < 0 then 0 else limit
  {
    limit == 4 || (limit > 4 && limit % 2 == 0 && IsCapacity(limit / 2))
  }

  /**
   * `while (limit < count) limit *= 2`: the smallest doubling of `limit`
   * that holds `count`.
   */
  method GrowCapacity(limit: int, count: int) returns (grown: int)
    requires 0 < limit
    ensures limit <= grown && count <= grown
    ensures grown == limit || grown < 2 * count
    ensures IsCapacity(limit) ==> IsCapacity(grown)
  {
    grown := limit;
    while grown < count
      invariant limit <= grown
      invariant grown == limit || grown < 2 * count
      invariant IsCapacity(limit) ==> IsCapacity(grown)
      decreases count - grown
    {
      CapacityDoubles(grown);
      grown := grown * 2;
    }
  }

  /** Doubling a capacity gives a capacity. */
  lemma CapacityDoubles(limit: int)
    ensures IsCapacity(limit) ==> IsCapacity(2 * limit)
  {
    if IsCapacity(limit) {
      assert 4 <= limit;
      assert (2 * limit) % 2 == 0 && (2 * limit) / 2 == limit;
    }
  }

  /**
   * Lines 24-33: ask `ps_list` with capacity 4 and, while the returned count
   * exceeds the capacity, grow the buffer and ask again. On a fixed snapshot
   * the loop runs at most once more, and the buffer then holds every visible
   * pid. A failing `ps_list` returns -1, which never exceeds the capacity,
   * so the failure ends the loop like a success with no pids.
   */
  method FetchPids(proc: array<Proc>, nmspaces: array<int>, ghost rank: seq<nat>, callerNs: int,
                   listOk: bool)
    returns (count: int, pids: array<int>)
    requires Forest(nmspaces[..], rank)
    requires NamespacesInRange(proc[..], nmspaces.Length)
    ensures IsCapacity(pids.Length) && count <= pids.Length
    ensures !listOk ==> count == -1
    ensures listOk ==>
      var visible := VisiblePids(proc[..], nmspaces[..], rank, callerNs);
      count == |visible| && pids[..count] == visible
  {
    ghost var visible := VisiblePids(proc[..], nmspaces[..], rank, callerNs);
    var limit := 4;
    pids := new int[limit];
    var written;
    count, written := PsList(proc, nmspaces, rank, callerNs, limit, listOk);
    Receive(pids, written);
    while count > limit
      invariant IsCapacity(limit) && pids.Length == limit
      invariant !listOk ==> count == -1
      invariant listOk ==> count == |visible|
      invariant listOk && count <= limit ==> pids[..count] == visible
      decreases if count > limit then 1 else 0
    {
      limit := GrowCapacity(limit, count);
      pids := new int[limit];
      count, written := PsList(proc, nmspaces, rank, callerNs, limit, listOk);
      Receive(pids, written);
    }
  }

  /**
   * What `copyout` leaves in the user buffer: the written values from index
   * 0, and the rest of the buffer as it was.
   */
  method Receive(buf: array<int>, written: seq<int>)
    requires |written| <= buf.Length
    modifies buf
    ensures buf[..|written|] == written
    ensures buf[|written|..] == old(buf[|written|..])
  {
    forall k | 0 <= k < |written| {
      buf[k] := written[k];
    }
  }

  /** One line of the `list` table. */
  datatype Row = Row(pid: int, state: string, ppid: int, nsId: int, getpid: int, getppid: int,
                     name: string)

  /** The row printed for `pid`: the columns of the record `ps_info` returns for it. */
  function ExpectedRow(procs: seq<Proc>, pid: int, getpid: nat -> int): Row
    requires ParentsInTable(procs) && FirstWithPid(procs, pid).Some?
    requires Snapshot(procs, FirstWithPid(procs, pid).value, getpid).Value?
  {
    var info := Snapshot(procs, FirstWithPid(procs, pid).value, getpid).value;
    Row(pid, StateToken(info.state), info.ppid, info.nsId, info.getpid, info.getppid, info.name)
  }

  /**
   * Lines 40-74: one `ps_info` per listed pid, in order, the one for row `k`
   * copying out as `infoOk(k)` says. The first call that does not return 0
   * ends the program with -1 after the rows already printed; a call that
   * traps ends it with NullDeref.
   */
  method ListRows(proc: array<Proc>, pids: array<int>, count: int, getpid: nat -> int,
                  infoOk: nat -> bool)
    returns (exit: Deref<int>, rows: seq<Row>)
    requires count <= pids.Length
    requires ParentsInTable(proc[..])
    ensures exit == Value(0) || exit == Value(-1) || exit == NullDeref
    ensures exit == Value(0) <==>
      forall k :: 0 <= k < count ==> InfoSucceeds(proc[..], pids[k], getpid, infoOk(k))
    ensures forall k :: 0 <= k < |rows| ==>
      k < count && InfoSucceeds(proc[..], pids[k], getpid, infoOk(k)) &&
      rows[k] == ExpectedRow(proc[..], pids[k], getpid)
    ensures exit == Value(0) ==> |rows| == if count < 0 then 0 else count
    ensures exit != Value(0) ==>
      |rows| < count && !InfoSucceeds(proc[..], pids[|rows|], getpid, infoOk(|rows|))
    ensures exit != Value(0) ==> (exit == NullDeref <==> InfoTraps(proc[..], pids[|rows|], getpid))
  {
    rows := [];
    var i := 0;
    while i < count
      invariant 0 <= i && (i <= count || i == 0)
      invariant |rows| == i
      invariant forall k :: 0 <= k < i ==>
        InfoSucceeds(proc[..], pids[k], getpid, infoOk(k)) &&
        rows[k] == ExpectedRow(proc[..], pids[k], getpid)
    {
      var r, info := PsInfo(proc, pids[i], getpid, infoOk(i));
      if r != Value(0) {
        return r, rows;
      }
      var rec := info.value;
      rows := rows + [Row(pids[i], StateToken(rec.state), rec.ppid, rec.nsId, rec.getpid, rec.getppid,
                          rec.name)];
      i := i + 1;
    }
    exit := Value(0);
  }

  /**
   * The outcome of the `list` mode on the listed pids: every row printed is
   * the record of its pid; the exit is 0 exactly when every `ps_info`
   * succeeds, and otherwise the rows stop at the first call that fails,
   * which traps exactly when the exit is NullDeref.
   */
  predicate ListReport(procs: seq<Proc>, listed: seq<int>, getpid: nat -> int, infoOk: nat -> bool,
                       exit: Deref<int>, rows: seq<Row>)
    requires ParentsInTable(procs)
  {
    (exit == Value(0) || exit == Value(-1) || exit == NullDeref) &&
    (exit == Value(0) <==> forall k :: 0 <= k < |listed| ==> InfoSucceeds(procs, listed[k], getpid, infoOk(k))) &&
    (exit == Value(0) ==> |rows| == |listed|) &&
    (forall k :: 0 <= k < |rows| ==>
      k < |listed| && InfoSucceeds(procs, listed[k], getpid, infoOk(k)) &&
      rows[k] == ExpectedRow(procs, listed[k], getpid)) &&
    (exit != Value(0) ==>
      |rows| < |listed| && !InfoSucceeds(procs, listed[|rows|], getpid, infoOk(|rows|)) &&
      (exit == NullDeref <==> InfoTraps(procs, listed[|rows|], getpid)))
  }

  /** Lines 24-38: fetch the visible pids and print one per line. */
  method PidsMode(proc: array<Proc>, nmspaces: array<int>, ghost rank: seq<nat>, callerNs: int,
                  listOk: bool)
    returns (lines: seq<int>)
    requires Forest(nmspaces[..], rank)
    requires NamespacesInRange(proc[..], nmspaces.Length)
    ensures lines == if listOk then VisiblePids(proc[..], nmspaces[..], rank, callerNs) else []
  {
    var count, pids := FetchPids(proc, nmspaces, rank, callerNs, listOk);
    lines := [];
    var i := 0;
    while i < count
      invariant 0 <= i && (i <= count || i == 0)
      invariant lines == pids[..i]
    {
      lines := lines + [pids[i]];
      i := i + 1;
    }
  }

  /** Lines 24-33 and 40-74: fetch the visible pids and print one `ps_info` row for each. */
  method ListMode(proc: array<Proc>, nmspaces: array<int>, ghost rank: seq<nat>, callerNs: int,
                  getpid: nat -> int, listOk: bool, infoOk: nat -> bool)
    returns (exit: Deref<int>, rows: seq<Row>)
    requires Forest(nmspaces[..], rank)
    requires NamespacesInRange(proc[..], nmspaces.Length)
    requires ParentsInTable(proc[..])
    ensures ListReport(proc[..], if listOk then VisiblePids(proc[..], nmspaces[..], rank, callerNs) else [],
                       getpid, infoOk, exit, rows)
  {
    var count, pids := FetchPids(proc, nmspaces, rank, callerNs, listOk);
    exit, rows := ListRows(proc, pids, count, getpid, infoOk);
    ghost var listed := if listOk then VisiblePids(proc[..], nmspaces[..], rank, callerNs) else [];
    assert count == |listed| || count == -1;
    forall k | 0 <= k < |listed|
      ensures pids[k] == listed[k]
    {
      assert pids[..count][k] == pids[k];
    }
  }

  /** What `ps` prints on standard output. */
  datatype Output = NoOutput | ParentPid(ppid: int) | CountLine(count: int) | PidLines(pids: seq<int>)
                  | Table(rows: seq<Row>)

  /**
   * `main(argc, argv)` of user/ps.c, run by the process in slot `me`.
   * `cloneResult` is what the external `clone()` returns. `exit` is the exit
   * status, or NullDeref when a system call of the run traps in the kernel.
   */
  method Ps(argv: seq<string>, proc: array<Proc>, nmspaces: array<int>, ghost rank: seq<nat>, me: nat,
            getpid: nat -> int, listOk: bool, infoOk: nat -> bool, cloneResult: int)
    returns (exit: Deref<int>, out: Output)
    requires Forest(nmspaces[..], rank)
    requires NamespacesInRange(proc[..], nmspaces.Length)
    requires ParentsInTable(proc[..]) && me < proc.Length
    ensures Parse(argv) == WrongArgCount ==> exit == Value(-1) && out == NoOutput
    ensures Parse(argv) == UnknownArg ==> exit == Value(-1) && out == NoOutput
    ensures Parse(argv) == Run(Ppid) ==>
      var r := GetPpidByProc(proc[..], me, getpid);
      (r == NullDeref ==> exit == NullDeref && out == NoOutput) &&
      (r != NullDeref ==> exit == Value(0) && out == ParentPid(r.value))
    ensures Parse(argv) == Run(Count) ==>
      exit == Value(0) &&
      out == CountLine(if listOk then |VisiblePids(proc[..], nmspaces[..], rank, proc[me].nsId)| else -1)
    ensures Parse(argv) == Run(Clone) ==> exit == Value(if cloneResult < 0 then -1 else 0) && out == NoOutput
    ensures Parse(argv) == Run(Pids) ==>
      exit == Value(0) &&
      out == PidLines(if listOk then VisiblePids(proc[..], nmspaces[..], rank, proc[me].nsId) else [])
    ensures Parse(argv) == Run(List) ==>
      out.Table? &&
      ListReport(proc[..], if listOk then VisiblePids(proc[..], nmspaces[..], rank, proc[me].nsId) else [],
                 getpid, infoOk, exit, out.rows)
  {
    match Parse(argv)
    case WrongArgCount =>
      exit, out := Value(-1), NoOutput;
    case UnknownArg =>
      exit, out := Value(-1), NoOutput;
    case Run(cmd) =>
      var callerNs := proc[me].nsId;
      match cmd
      case Ppid =>
        var r := GetPpidByProc(proc[..], me, getpid);
        if r == NullDeref {
          exit, out := NullDeref, NoOutput;
        } else {
          exit, out := Value(0), ParentPid(r.value);
        }
      case Count =>
        var n, _ := PsList(proc, nmspaces, rank, callerNs, 0, listOk);
        exit, out := Value(0), CountLine(n);
      case Clone =>
        exit, out := Value(if cloneResult < 0 then -1 else 0), NoOutput;
      case Pids =>
        var lines := PidsMode(proc, nmspaces, rank, callerNs, listOk);
        exit, out := Value(0), PidLines(lines);
      case List =>
        var rows;
        exit, rows := ListMode(proc, nmspaces, rank, callerNs, getpid, listOk, infoOk);
        out := Table(rows);
  }
}
