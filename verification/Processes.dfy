/** Process creation and destruction, EXEC and EXIT, over the process table and the task list. */
module Processes {
  import opened Status
  import opened Options
  import opened Tasks

  const MAX_PROCESSES := 16

  type u16 = x: int | 0 <= x < 0x1_0000

  /** -ERR_MAX_PROCESS_LIMIT_REACHED as the unsigned 16-bit word it becomes in a pid. */
  const NO_PID: u16 := (-ERR_MAX_PROCESS_LIMIT_REACHED) % 0x1_0000

  /** So the test for it, which compares a pid with the negative number, never holds, and the word is no slot. */
  lemma FullTableUnnoticed(pid: u16)
    ensures pid != -ERR_MAX_PROCESS_LIMIT_REACHED
    ensures NO_PID == 65524 && NO_PID >= MAX_PROCESSES
  {}

  // ---------- The abstract machine ----------

  /**
    What the kernel knows about its processes. Processes are named by their place in the order of
    creation, the shell being 0: the process in every pid slot, the current one, the owner of the task
    the processor returns to, and the owners of the listed tasks.
   */
  datatype Sys = Sys(slots: seq<Option<nat>>, current: nat, running: nat, tasks: seq<nat>, created: nat)

  ghost predicate Increasing(s: seq<nat>)
  {
    forall i, j :: 0 <= i < j < |s| ==> s[i] < s[j]
  }

  ghost predicate InSlot(s: Sys, id: nat)
  {
    exists p :: 0 <= p < |s.slots| && s.slots[p] == Some(id)
  }

  ghost predicate SysInv(s: Sys)
  {
    && |s.slots| == MAX_PROCESSES && s.slots[0] == Some(0)
    && InSlot(s, s.current) && s.running == s.current
    && (forall p, q :: 0 <= p < q < MAX_PROCESSES && s.slots[p].Some? ==> s.slots[p] != s.slots[q])
    && Increasing(s.tasks) && (forall id :: id in s.tasks <==> InSlot(s, id))
    && (forall id :: id in s.tasks ==> id < s.created)
  }

  ghost predicate HasFreeSlot(s: Sys)
  {
    exists p :: 0 <= p < |s.slots| && s.slots[p] == None
  }

  /** The first free pid. */
  function FirstFree(slots: seq<Option<nat>>, from: nat): (p: nat)
    requires exists q :: from <= q < |slots| && slots[q] == None
    ensures from <= p < |slots| && slots[p] == None && forall q :: from <= q < p ==> slots[q].Some?
    decreases |slots| - from
  {
    if slots[from] == None then from else FirstFree(slots, from + 1)
  }

  /** Just after boot: the shell alone. */
  function Booted(): Sys
  {
    Sys([Some(0)] + seq(MAX_PROCESSES - 1, _ => None), 0, 0, [0], 1)
  }

  lemma BootedKeeps()
    ensures SysInv(Booted())
  {
    assert Booted().slots[0] == Some(0);
  }

  /** A new process in the first free pid, its task at the end of the list. */
  ghost function Added(s: Sys): Sys
    requires HasFreeSlot(s)
  {
    s.(slots := s.slots[FirstFree(s.slots, 0) := Some(s.created)], tasks := s.tasks + [s.created], created := s.created + 1)
  }

  function Switched(s: Sys, id: nat): Sys
  {
    s.(current := id, running := id)
  }

  /** EXEC: a process that could be created takes the first free pid and becomes current. */
  ghost function Exec(s: Sys, ok: bool): Sys
    requires HasFreeSlot(s)
  {
    if ok then Switched(Added(s), s.created) else s
  }

  function Remove(s: seq<nat>, id: nat): seq<nat>
  {
    if s == [] then [] else if s[0] == id then s[1..] else [s[0]] + Remove(s[1..], id)
  }

  /** The current process leaves its slot and the task list. */
  function Killed(s: Sys): Sys
  {
    s.(slots := seq(|s.slots|, p requires 0 <= p < |s.slots| => if s.slots[p] == Some(s.current) then None else s.slots[p]),
       tasks := Remove(s.tasks, s.current))
  }

  /** EXIT: the current process is killed and the shell becomes current. */
  function Exit(s: Sys): Sys
  {
    Switched(Killed(s), 0)
  }

  datatype Call = ExecCall(ok: bool) | ExitCall

  /** EXEC needs a free pid, and the shell does not exit. */
  ghost predicate Legal(s: Sys, c: Call)
  {
    match c
    case ExecCall(_) => HasFreeSlot(s)
    case ExitCall => s.current != 0
  }

  ghost function Step(s: Sys, c: Call): Sys
    requires Legal(s, c)
  {
    match c
    case ExecCall(ok) => Exec(s, ok)
    case ExitCall => Exit(s)
  }

  /** The states of a run. */
  ghost predicate IsRun(states: seq<Sys>, calls: seq<Call>)
  {
    && |states| == |calls| + 1 && states[0] == Booted()
    && forall i :: 0 <= i < |calls| ==> Legal(states[i], calls[i]) && states[i + 1] == Step(states[i], calls[i])
  }

  lemma AddedKeeps(s: Sys)
    requires SysInv(s) && HasFreeSlot(s)
    ensures SysInv(Added(s)) && InSlot(Added(s), s.created)
  {
    var t, free := Added(s), FirstFree(s.slots, 0);
    assert t.slots[free] == Some(s.created);
    assert forall i :: 0 <= i < |s.tasks| ==> s.tasks[i] in s.tasks;
    forall id
      ensures InSlot(t, id) <==> InSlot(s, id) || id == s.created
    {
      if InSlot(s, id) {
        var p :| 0 <= p < |s.slots| && s.slots[p] == Some(id);
        assert t.slots[p] == Some(id);
      }
      if InSlot(t, id) && id != s.created {
        var p :| 0 <= p < |t.slots| && t.slots[p] == Some(id);
        assert s.slots[p] == Some(id);
      }
    }
    forall p | 0 <= p < MAX_PROCESSES && s.slots[p].Some?
      ensures s.slots[p].value < s.created
    {
      assert InSlot(s, s.slots[p].value);
    }
  }

  lemma SwitchedKeeps(s: Sys, id: nat)
    requires SysInv(s) && InSlot(s, id)
    ensures SysInv(Switched(s, id))
  {
    var t := Switched(s, id);
    assert forall i :: InSlot(t, i) <==> InSlot(s, i);
  }

  lemma ExecKeeps(s: Sys, ok: bool)
    requires SysInv(s) && HasFreeSlot(s)
    ensures SysInv(Exec(s, ok))
  {
    if ok {
      AddedKeeps(s);
      SwitchedKeeps(Added(s), s.created);
    }
  }

  lemma {:induction false} RemoveKeeps(s: seq<nat>, id: nat)
    requires Increasing(s)
    ensures Increasing(Remove(s, id)) && forall x :: x in Remove(s, id) <==> x in s && x != id
  {
    if s != [] {
      IncreasingFront(s[0], s[1..], s);
      RemoveKeeps(s[1..], id);
      if s[0] != id {
        IncreasingFront(s[0], Remove(s[1..], id), Remove(s, id));
      }
    }
  }

  /** A sequence increases exactly when its rest does and its first element is below all of the rest. */
  lemma IncreasingFront(x: nat, rest: seq<nat>, s: seq<nat>)
    requires s == [x] + rest
    ensures Increasing(s) <==> Increasing(rest) && forall y :: y in rest ==> x < y
    ensures forall y :: y in s <==> y == x || y in rest
  {
    assert forall i :: 0 < i < |s| ==> s[i] == rest[i - 1];
    if Increasing(s) {
      assert forall i :: 0 <= i < |rest| ==> rest[i] == s[i + 1];
      forall y | y in rest
        ensures x < y
      {
        var i :| 0 <= i < |rest| && rest[i] == y;
        assert s[0] < s[i + 1];
      }
    }
    if Increasing(rest) && forall y :: y in rest ==> x < y {
      forall i, j | 0 <= i < j < |s|
        ensures s[i] < s[j]
      {
        assert s[j] == rest[j - 1] && rest[j - 1] in rest && (i > 0 ==> s[i] == rest[i - 1]);
      }
    }
  }

  lemma ExitKeeps(s: Sys)
    requires SysInv(s) && s.current != 0
    ensures SysInv(Exit(s))
  {
    var t := Exit(s);
    RemoveKeeps(s.tasks, s.current);
    assert t.slots[0] == Some(0);
    forall id
      ensures id in t.tasks <==> InSlot(t, id)
    {
      if InSlot(s, id) && id != s.current {
        var p :| 0 <= p < |s.slots| && s.slots[p] == Some(id);
        assert t.slots[p] == Some(id);
      }
      if InSlot(t, id) {
        var p :| 0 <= p < |t.slots| && t.slots[p] == Some(id);
        assert s.slots[p] == Some(id);
      }
    }
  }

  /** After EXEC the new process is current and runs; it has the first free pid, and its task is the last one. */
  lemma ExecRuns(s: Sys, pid: nat)
    requires SysInv(s) && pid < 16 && s.slots[pid] == None && forall q :: 0 <= q < pid ==> s.slots[q].Some?
    ensures HasFreeSlot(s) && Exec(s, false) == s
    ensures var t := Exec(s, true);
            && t.current == t.running == s.created && t.created == s.created + 1
            && t.slots == s.slots[pid := Some(s.created)] && t.tasks == s.tasks + [s.created]
  {
    FirstFreeIs(s.slots, 0, pid);
  }

  /** After EXIT the shell is current and runs; the process that exits is gone from the table and the list, no other is. */
  lemma ExitToShell(s: Sys)
    requires SysInv(s) && s.current != 0
    ensures var t := Exit(s);
            && t.current == t.running == 0 && t.created == s.created && |t.slots| == 16 && t.slots[0] == Some(0)
            && (forall p :: 0 <= p < 16 ==> t.slots[p] == if s.slots[p] == Some(s.current) then None else s.slots[p])
            && (forall id :: id in t.tasks <==> id in s.tasks && id != s.current) && Increasing(t.tasks)
  {
    RemoveKeeps(s.tasks, s.current);
  }

  /** Every state of every run of EXEC and EXIT in which the shell never exits and a pid is free is consistent. */
  lemma {:induction false} RunConsistent(states: seq<Sys>, calls: seq<Call>)
    requires IsRun(states, calls)
    ensures forall i :: 0 <= i < |states| ==> SysInv(states[i])
    decreases |calls|
  {
    if calls == [] {
      BootedKeeps();
    } else {
      var n := |calls|;
      RunConsistent(states[..n], calls[..n - 1]);
      assert states[..n][n - 1] == states[n - 1];
      match calls[n - 1] {
        case ExecCall(ok) => ExecKeeps(states[n - 1], ok);
        case ExitCall => ExitKeeps(states[n - 1]);
      }
      forall i | 0 <= i < |states|
        ensures SysInv(states[i])
      {
        if i < n {
          assert states[..n][i] == states[i];
        }
      }
    }
  }

  // ---------- The kernel's structures ----------

  /** Where creating a process can stop: at an allocation, at loading the file, or at mapping its memory. */
  datatype Outcome = ProcessFails | StackFails | LoadFails | TaskFails | MapFails | Succeeds

  class Process {
    ghost const id: nat
    const pid: u16
    var task: Task?

    constructor (ghost id: nat, pid: u16)
      ensures this.id == id && this.pid == pid && task == null
    {
      this.pid, task := pid, null;
      this.id := id;
    }
  }

  class ProcessTable {
    const list: array<Process?>
    const tasks: TaskList
    var current: Process?

    /** The abstract state. */
    ghost var s: Sys

    /** The table and the task list hold the slots and the tasks of the abstract state; pids are indices. */
    ghost predicate Linked()
      reads this, list, list[..], tasks, tasks.tasks
    {
      tasks.Valid() && LinkedTo(tasks.tasks)
    }

    ghost predicate LinkedTo(ts: seq<Task>)
      reads this, list, list[..]
    {
      && list.Length == |s.slots| == MAX_PROCESSES && |ts| == |s.tasks|
      && (forall i :: 0 <= i < |s.tasks| ==> ts[i].owner == s.tasks[i])
      && (forall p :: 0 <= p < MAX_PROCESSES ==> s.slots[p] == if list[p] == null then None else Some(list[p].id))
      && (forall p :: 0 <= p < MAX_PROCESSES && list[p] != null ==>
           list[p].pid == p && list[p].task != null && list[p].task in ts && list[p].task.owner == list[p].id)
    }

    /** In addition a process in the table is current, and its task is what the processor returns to. */
    ghost predicate Valid()
      reads this, list, list[..], tasks, tasks.tasks, current
    {
      Linked() && SysInv(s) && CurrentRuns()
    }

    ghost predicate CurrentRuns()
      requires list.Length == MAX_PROCESSES
      reads this, list, tasks, current
    {
      && current != null && current.pid < MAX_PROCESSES && list[current.pid] == current && current.id == s.current
      && tasks.cur != null && tasks.cur == current.task
    }

    /** The first free pid; with none, a word that is no slot and that the caller does not notice. */
    method GetFreeProcessId() returns (pid: u16)
      requires Linked()
      ensures HasFreeSlot(s) ==> pid == FirstFree(s.slots, 0)
      ensures !HasFreeSlot(s) ==> pid == NO_PID
    {
      pid := NO_PID;
      var p := 0;
      while p < MAX_PROCESSES
        invariant 0 <= p <= MAX_PROCESSES && pid == NO_PID
        invariant forall q :: 0 <= q < p ==> s.slots[q].Some?
      {
        if list[p] == null {
          FirstFreeIs(s.slots, 0, p);
          return p;
        }
        p := p + 1;
      }
    }

    /** An empty table and an empty list. */
    constructor ()
      ensures Linked() && fresh(list) && fresh(tasks) && tasks.tasks == [] && current == null
      ensures s == Sys(seq(MAX_PROCESSES, _ => None), 0, 0, [], 0)
    {
      list := new Process?[MAX_PROCESSES](_ => null);
      tasks := new TaskList();
      current := null;
      s := Sys(seq(MAX_PROCESSES, _ => None), 0, 0, [], 0);
    }

    /** Boot: the shell is created as process 0, and its task is the first one to run; or the kernel halts. */
    method Boot(outcome: Outcome) returns (shell: Process?)
      requires Linked() && tasks.tasks == [] && s == Sys(seq(MAX_PROCESSES, _ => None), 0, 0, [], 0)
      modifies this, list, tasks, tasks.tail
      ensures shell == null <==> outcome != Succeeds
      ensures shell != null ==> Valid() && s == Booted()
      ensures shell == null ==> Linked() && tasks.tasks == [] && s == old(s)
    {
      shell := null;
      if outcome == ProcessFails {
        return;
      }
      assert s.slots[0] == None;
      var pid := GetFreeProcessId();
      var process := new Process(0, pid);
      if outcome == Succeeds {
        var task := new Task(0);
        FirstTask(process, task);
        shell := process;
      } else if outcome == MapFails {
        var task := new Task(0);
        tasks.Add(task);
        tasks.Delete(task, 0);
      }
    }

    /** The first task, and the first process in the table. */
    method FirstTask(process: Process, task: Task)
      requires Linked() && tasks.tasks == [] && s == Sys(seq(MAX_PROCESSES, _ => None), 0, 0, [], 0)
      requires process.id == 0 && process.pid == 0 && task.owner == 0 && task.next == null && task.prev == null
      requires forall q :: 0 <= q < MAX_PROCESSES ==> list[q] == null
      modifies this, list, tasks, tasks.tail, process, task
      ensures Valid() && s == Booted()
    {
      tasks.Add(task);
      process.task := task;
      list[process.pid] := process;
      BootedKeeps();
      s := Booted();
      Switch(process);
    }

    /**
      process_new: a process with the first free pid and a task at the end of the list. When it fails
      half-way, whatever was set up is undone, and the table and the list are as before.
     */
    method ProcessNew(outcome: Outcome) returns (p: Process?)
      requires Linked() && CurrentRuns() && HasFreeSlot(s)
      modifies this`s, list, tasks, tasks.tasks
      ensures Linked() && CurrentRuns()
      ensures s == if outcome == Succeeds then Added(old(s)) else old(s)
      ensures p == null <==> outcome != Succeeds
      ensures p != null ==> p.pid < MAX_PROCESSES && list[p.pid] == p && p.id == old(s).created && p.task != null
    {
      p := null;
      if outcome != ProcessFails {
        var pid := GetFreeProcessId();
        if pid == -ERR_MAX_PROCESS_LIMIT_REACHED {
          return null;
        }
        var process := new Process(s.created, pid);
        if outcome == MapFails || outcome == Succeeds {
          p := WithTask(process, outcome == Succeeds);
        }
      }
    }

    /** The last steps of process_new: a new process gets a task, and its slot when the task is mapped. */
    method WithTask(process: Process, mapped: bool) returns (p: Process?)
      requires Linked() && CurrentRuns()
      requires HasFreeSlot(s) && process.id == s.created && process.pid == FirstFree(s.slots, 0)
      requires process != current && forall q :: 0 <= q < MAX_PROCESSES ==> list[q] != process
      modifies this`s, list, tasks, tasks.tasks, process
      ensures Linked() && CurrentRuns()
      ensures if mapped then p == process && s == Added(old(s)) else p == null && s == old(s)
      ensures p != null ==> p.pid < MAX_PROCESSES && list[p.pid] == p && p.task != null
    {
      p := null;
      ghost var before := tasks.tasks;
      process.task := MappedTask(s.created, mapped);
      assert LinkedTo(before);
      if process.task != null {
        assert tasks.tasks[..|tasks.tasks| - 1] == before;
        Register(process);
        p := process;
      }
    }

    /** A new task whose memory is mapped; when mapping fails the task is closed again. */
    method MappedTask(ghost owner: nat, mapped: bool) returns (t: Task?)
      requires tasks.Valid() && tasks.tasks != [] && tasks.cur != null && tasks.cur in tasks.tasks
      modifies tasks, tasks.tasks
      ensures tasks.Valid() && tasks.cur == old(tasks.cur) && (t != null <==> mapped)
      ensures t == null ==> tasks.tasks == old(tasks.tasks)
      ensures t != null ==> fresh(t) && t.owner == owner && tasks.tasks == old(tasks.tasks) + [t]
    {
      var task := NewTask(owner);
      t := task;
      if !mapped {
        CloseTask(task);
        t := null;
      }
    }

    /** The last step of process_new: the process, with its task in the list already, takes its slot. */
    method Register(process: Process)
      requires HasFreeSlot(s) && list.Length == MAX_PROCESSES && tasks.Valid()
      requires tasks.tasks != [] && process.task == tasks.tasks[|tasks.tasks| - 1]
      requires process.task.owner == process.id == s.created
      requires process.pid == FirstFree(s.slots, 0)
      requires LinkedTo(tasks.tasks[..|tasks.tasks| - 1])
      modifies this`s, list
      ensures Linked() && s == Added(old(s))
      ensures list[process.pid] == process
      ensures forall q :: 0 <= q < MAX_PROCESSES && q != process.pid ==> list[q] == old(list[q])
    {
      list[process.pid] := process;
      s := Added(s);
    }

    /** new_task: a zeroed task at the end of a list that is not empty. */
    method NewTask(ghost owner: nat) returns (t: Task)
      requires tasks.Valid() && tasks.tasks != []
      modifies tasks, tasks.tasks
      ensures fresh(t) && t.owner == owner
      ensures tasks.Valid() && tasks.tasks == old(tasks.tasks) + [t] && tasks.cur == old(tasks.cur)
    {
      t := new Task(owner);
      tasks.Add(t);
    }

    /** close_task on the last task of a list, when it is not the current one. */
    method CloseTask(t: Task)
      requires tasks.Valid() && |tasks.tasks| > 1 && t == tasks.tasks[|tasks.tasks| - 1] && t != tasks.cur
      modifies tasks, tasks.tasks
      ensures tasks.Valid() && tasks.tasks == old(tasks.tasks)[..|old(tasks.tasks)| - 1] && tasks.cur == old(tasks.cur)
    {
      tasks.Delete(t, |tasks.tasks| - 1);
    }

    /** EXEC: the new process becomes current and the processor returns to its task. */
    method ExecSyscall(outcome: Outcome) returns (status: int)
      requires Valid() && HasFreeSlot(s)
      modifies this, list, tasks, tasks.tasks
      ensures Valid() && s == Exec(old(s), outcome == Succeeds)
      ensures outcome == Succeeds ==> tasks.cur != null && tasks.cur.owner == old(s).created && current.task == tasks.cur
      ensures status == if outcome == Succeeds then SUCCESS else -ERR_PROCESS_CREATION_FAILED
    {
      AddedKeeps(s);
      var process := ProcessNew(outcome);
      if process == null {
        return -ERR_PROCESS_CREATION_FAILED;
      }
      SwitchedKeeps(s, process.id);
      Switch(process);
      status := SUCCESS;
    }

    /** process_switch and task_switch. */
    method Switch(process: Process)
      requires Linked() && SysInv(Switched(s, process.id))
      requires process.pid < MAX_PROCESSES && list[process.pid] == process
      modifies this`current, this`s, tasks`cur
      ensures Valid() && s == Switched(old(s), process.id)
    {
      current := process;
      tasks.cur := process.task;
      s := Switched(s, process.id);
    }

    /** EXIT: the current process is killed and the processor returns to the shell. */
    method ExitSyscall()
      requires Valid() && s.current != 0
      modifies this, list, tasks, tasks.tasks
      ensures Valid() && s == Exit(old(s))
      ensures tasks.cur != null && tasks.cur.owner == 0 && current == list[0] && current.task == tasks.cur
    {
      ExitKeeps(s);
      Kill(current);
      Switch(list[0]);
    }

    /** process_kill: the slot is freed and the task leaves the list; `current` and the current task dangle. */
    method Kill(p: Process)
      requires Valid() && p == current && p.id != 0
      modifies this`s, list, tasks, tasks.tasks
      ensures Linked() && s == Killed(old(s))
    {
      ghost var k, rest := TaskLeft(p);
      Unlist(p, rest);
      KillTask(p.task, k, rest);
    }

    /** task_kill: the task leaves the list. */
    method KillTask(t: Task, ghost k: nat, ghost rest: seq<Task>)
      requires tasks.Valid() && k < |tasks.tasks| && t == tasks.tasks[k] && |tasks.tasks| > 1
      requires rest == Without(tasks.tasks, k) && LinkedTo(rest)
      modifies tasks, tasks.tasks
      ensures Linked()
    {
      tasks.Delete(t, k);
    }

    /** Marks the pid free; `rest` are the tasks of the other processes. */
    method Unlist(p: Process, ghost rest: seq<Task>)
      requires LinkedTo(tasks.tasks) && SysInv(s) && p.pid < MAX_PROCESSES && list[p.pid] == p && p.id == s.current
      requires |rest| == |Killed(s).tasks| && forall i :: 0 <= i < |rest| ==> rest[i].owner == Killed(s).tasks[i]
      requires forall q :: 0 <= q < MAX_PROCESSES && q != p.pid && list[q] != null ==> list[q].task in rest
      modifies this`s, list
      ensures LinkedTo(rest) && s == Killed(old(s))
    {
      KilledSlots(s, p.pid);
      list[p.pid] := null;
      s := Killed(s);
    }

    /** Where the task of the current process is, and what the list is without it. */
    lemma TaskLeft(p: Process) returns (k: nat, rest: seq<Task>)
      requires Valid() && p == current && p.id != 0
      ensures k < |tasks.tasks| && p.task == tasks.tasks[k] && |tasks.tasks| > 1 && rest == Without(tasks.tasks, k)
      ensures |rest| == |Killed(s).tasks| && forall i :: 0 <= i < |rest| ==> rest[i].owner == Killed(s).tasks[i]
      ensures forall q :: 0 <= q < MAX_PROCESSES && q != p.pid && list[q] != null ==> list[q].task in rest
    {
      k := IndexOf(tasks.tasks, p.task);
      rest := Without(tasks.tasks, k);
      OwnersLeft(k);
      OthersListed(p, k);
    }

    lemma OwnersLeft(k: nat)
      requires Linked() && Increasing(s.tasks) && k < |tasks.tasks| && tasks.tasks[k].owner == s.current
      ensures var rest := Without(tasks.tasks, k);
              |rest| == |Killed(s).tasks| && forall i :: 0 <= i < |rest| ==> rest[i].owner == Killed(s).tasks[i]
    {
      hide Remove, Increasing, Without;
      RemoveAt(s.tasks, k);
      WithoutAt(tasks.tasks, k);
      WithoutAt(s.tasks, k);
    }

    /** The other processes' tasks are other tasks. */
    lemma OthersListed(p: Process, k: nat)
      requires Valid() && p == current && p.id != 0 && k < |tasks.tasks| && tasks.tasks[k] == p.task
      ensures |tasks.tasks| > 1
      ensures forall q :: 0 <= q < MAX_PROCESSES && q != p.pid && list[q] != null ==> list[q].task in Without(tasks.tasks, k)
    {
      forall q | 0 <= q < MAX_PROCESSES && q != p.pid && list[q] != null
        ensures list[q].task in Without(tasks.tasks, k)
      {
        assert s.slots[q] != s.slots[p.pid];
        var j := IndexOf(tasks.tasks, list[q].task);
        assert Without(tasks.tasks, k)[if j < k then j else j - 1] == list[q].task;
      }
      assert s.slots[0] == Some(0);
    }
  }

  /** A process is in one slot only. */
  lemma KilledSlots(s: Sys, p: nat)
    requires SysInv(s) && p < MAX_PROCESSES && s.slots[p] == Some(s.current)
    ensures Killed(s).slots == s.slots[p := None]
  {}

  lemma {:induction false} FirstFreeIs(slots: seq<Option<nat>>, from: nat, p: nat)
    requires from <= p < |slots| && slots[p] == None && forall q :: from <= q < p ==> slots[q].Some?
    ensures FirstFree(slots, from) == p
  {}

  ghost function IndexOf<T>(s: seq<T>, x: T): (k: nat)
    requires x in s
    ensures k < |s| && s[k] == x
  {
    if s[0] == x then 0 else 1 + IndexOf(s[1..], x)
  }

  lemma {:induction false} RemoveAt(s: seq<nat>, k: nat)
    requires Increasing(s) && k < |s|
    ensures Remove(s, s[k]) == Without(s, k)
  {
    if k == 0 {
      assert Without(s, 0) == s[1..];
    } else {
      IncreasingRest(s, k);
      RemoveAt(s[1..], k - 1);
      WithoutRest(s, k);
    }
  }

  lemma IncreasingRest(s: seq<nat>, k: nat)
    requires Increasing(s) && 0 < k < |s|
    ensures Increasing(s[1..]) && s[0] < s[k] && s[1..][k - 1] == s[k]
  {}

  lemma WithoutRest(s: seq<nat>, k: nat)
    requires 0 < k < |s|
    ensures Without(s, k) == [s[0]] + Without(s[1..], k - 1)
  {}
}
