/** The kernel's globals together: booting, and EXEC, EXIT and MALLOC in place as the steps of a run. */
module SystemCalls {
  import opened Status
  import opened Options
  import opened Words
  import opened Memory
  import opened Paging
  import opened AddressSpaces
  import opened HeapTable
  import opened KernelHeap
  import opened KernelPaging
  import opened HeldBlocks
  import opened Loader
  import opened ProcessMemory
  import opened Processes
  import opened ProcessSpaces
  import opened Creation
  import opened ProcessLife

  /** The space recorded with the process in each slot is the one that process has. */
  ghost predicate Placed(slots: seq<Option<nat>>, space: map<nat, u32>, at: seq<Option<Structures>>)
  {
    && |at| == |slots|
    && forall p :: 0 <= p < |slots| ==>
         && (slots[p].Some? <==> at[p].Some?)
         && (slots[p].Some? ==> slots[p].value in space && space[slots[p].value] == at[p].value.vspace)
  }

  /** The allocations of all processes. */
  ghost function AllBlocks(at: seq<Option<Structures>>): set<u32>
  {
    set p, a | 0 <= p < |at| && at[p].Some? && a in Blocks(at[p].value) :: a
  }

  /** No two processes, and no two structures of one, share an allocation. */
  ghost predicate BlocksApart(at: seq<Option<Structures>>)
  {
    && (forall p :: 0 <= p < |at| && at[p].Some? ==> Separate(at[p].value))
    && forall p, q :: 0 <= p < q < |at| && at[p].Some? && at[q].Some? ==> Blocks(at[p].value) !! Blocks(at[q].value)
  }

  lemma PlacedMore(s: Sys, space: map<nat, u32>, at: seq<Option<Structures>>, pid: nat, x: Structures)
    requires SysInv(s) && HasFreeSlot(s) && Placed(s.slots, space, at)
    requires pid < MAX_PROCESSES && Added(s).slots[pid] == Some(s.created)
    ensures |at| == MAX_PROCESSES && Placed(Added(s).slots, space[s.created := x.vspace], at[pid := Some(x)])
  {
    forall p | 0 <= p < MAX_PROCESSES && s.slots[p].Some?
      ensures s.slots[p].value < s.created
    {
      assert InSlot(s, s.slots[p].value);
    }
  }

  lemma BlocksMore(at: seq<Option<Structures>>, pid: nat, x: Structures)
    requires pid < |at| && BlocksApart(at) && Separate(x) && Blocks(x) !! AllBlocks(at)
    ensures BlocksApart(at[pid := Some(x)]) && AllBlocks(at[pid := Some(x)]) <= AllBlocks(at) + Blocks(x)
  {
    var more := at[pid := Some(x)];
    forall a | a in AllBlocks(more)
      ensures a in AllBlocks(at) || a in Blocks(x)
    {
      var p :| 0 <= p < |more| && more[p].Some? && a in Blocks(more[p].value);
      assert p != pid ==> more[p] == at[p];
    }
    forall p | 0 <= p < |at| && p != pid && at[p].Some?
      ensures Blocks(at[p].value) !! Blocks(x)
    {
      BlocksOfOne(at, p);
    }
    MoreApart(at, pid, x);
  }

  lemma BlocksOfOne(at: seq<Option<Structures>>, p: nat)
    requires p < |at| && at[p].Some?
    ensures Blocks(at[p].value) <= AllBlocks(at)
  {
    forall a | a in Blocks(at[p].value)
      ensures a in AllBlocks(at)
    {}
  }

  lemma MoreApart(at: seq<Option<Structures>>, pid: nat, x: Structures)
    requires pid < |at| && BlocksApart(at) && Separate(x)
    requires forall p :: 0 <= p < |at| && p != pid && at[p].Some? ==> Blocks(at[p].value) !! Blocks(x)
    ensures BlocksApart(at[pid := Some(x)])
  {
    var more := at[pid := Some(x)];
    forall p, q | 0 <= p < q < |at| && more[p].Some? && more[q].Some?
      ensures Blocks(more[p].value) !! Blocks(more[q].value)
    {
      assert p != pid ==> more[p] == at[p];
      assert q != pid ==> more[q] == at[q];
    }
  }

  lemma PlacedLess(s: Sys, space: map<nat, u32>, at: seq<Option<Structures>>, pid: nat)
    requires SysInv(s) && Placed(s.slots, space, at) && pid < MAX_PROCESSES && s.slots[pid] == Some(s.current)
    ensures |at| == MAX_PROCESSES && at[pid].Some? && s.current in space && space[s.current] == at[pid].value.vspace
    ensures Placed(Killed(s).slots, space - {s.current}, at[pid := None])
  {
    KilledSlots(s, pid);
    forall p | 0 <= p < MAX_PROCESSES && p != pid
      ensures s.slots[p] != Some(s.current)
    {}
  }

  lemma BlocksLess(at: seq<Option<Structures>>, pid: nat)
    requires pid < |at| && at[pid].Some? && BlocksApart(at)
    ensures Separate(at[pid].value) && BlocksApart(at[pid := None])
    ensures AllBlocks(at[pid := None]) + Blocks(at[pid].value) == AllBlocks(at)
    ensures Blocks(at[pid].value) !! AllBlocks(at[pid := None])
  {
    var less := at[pid := None];
    forall a | a in AllBlocks(at)
      ensures a in AllBlocks(less) || a in Blocks(at[pid].value)
    {
      var p :| 0 <= p < |at| && at[p].Some? && a in Blocks(at[p].value);
      assert p != pid ==> less[p] == at[p];
    }
  }

  /** What is recorded of the processes is held, and right. */
  ghost predicate Kept(m: Machine, at: seq<Option<Structures>>)
  {
    Placed(m.sys.slots, m.space, at) && BlocksApart(at) && AllHeld(m.kern, AllBlocks(at))
  }

  /** The machine after a successful EXEC. */
  ghost function Execed(m: Machine, k: Kern, x: Structures): Machine
    requires HasFreeSlot(m.sys)
  {
    Machine(Processes.Exec(m.sys, true), k, m.space[m.sys.created := x.vspace])
  }

  lemma ExecRecorded(m: Machine, k: Kern, at: seq<Option<Structures>>, pid: nat, file: File, x: Structures, own: u32)
    requires MachineInv(m, own) && HasFreeSlot(m.sys) && Kept(m, at)
    requires Prepared(m.kern, k, AllBlocks(at), file, x)
    requires pid < MAX_PROCESSES && Added(m.sys).slots[pid] == Some(m.sys.created)
    ensures |at| == MAX_PROCESSES && ExecStep(m, Execed(m, k, x), true) && MachineInv(Execed(m, k, x), own)
    ensures Kept(Execed(m, k, x), at[pid := Some(x)])
  {
    hide Inv, Begun, OnePerTask, KernelMapped, LaidOut, SysInv, Separate, BlocksApart, Blocks;
    PlacedMore(m.sys, m.space, at, pid, x);
    BlocksMore(at, pid, x);
    FewerHeld(k, AllBlocks(at) + Blocks(x), AllBlocks(at[pid := Some(x)]));
    ExecKeepsSpaces(m, Execed(m, k, x), true, own);
  }

  lemma FailureRecorded(m: Machine, k: Kern, at: seq<Option<Structures>>, file: File, outcome: Outcome, x: Structures,
                        own: u32)
    requires MachineInv(m, own) && HasFreeSlot(m.sys) && Kept(m, at)
    requires outcome != Succeeds && Done(m.kern, k, AllBlocks(at), file, outcome, x)
    ensures var n := Machine(m.sys, k, m.space);
            ExecStep(m, n, false) && MachineInv(n, own) && Kept(n, at)
  {
    hide Inv, SysInv, KernelMapped, OnePerTask, GivenBack, BlocksApart, Placed;
    FewerHeld(k, AllBlocks(at) + Left(outcome, x), AllBlocks(at));
    ExecKeepsSpaces(m, Machine(m.sys, k, m.space), false, own);
  }

  /** What the memory of the current process is, and that it is held. */
  lemma CurrentKept(m: Machine, at: seq<Option<Structures>>, pid: nat, own: u32)
    requires MachineInv(m, own) && Kept(m, at)
    requires pid < MAX_PROCESSES && m.sys.slots[pid] == Some(m.sys.current)
    ensures |at| == MAX_PROCESSES && at[pid].Some?
    ensures var x := at[pid].value;
            && m.sys.current in m.space && m.space[m.sys.current] == x.vspace && x.vspace in m.kern.spaces
            && AllHeld(m.kern, AllBlocks(at[pid := None]) + Blocks(x)) && Blocks(x) !! AllBlocks(at[pid := None])
            && Separate(x)
    ensures AllHeld(m.kern, AllBlocks(at))
  {
    PlacedLess(m.sys, m.space, at, pid);
    BlocksLess(at, pid);
    SpacesLive(m, own);
  }

  lemma WorkKept(m: Machine, k: Kern, at: seq<Option<Structures>>, own: u32)
    requires MachineInv(m, own) && Kept(m, at) && m.sys.current in m.space
    requires Work(m.kern, k, Some(m.space[m.sys.current])) && AllHeld(k, AllBlocks(at))
    ensures var n := Machine(m.sys, k, m.space);
            WorkStep(m, n) && MachineInv(n, own) && Kept(n, at)
  {
    WorkStepKeepsSpaces(m, Machine(m.sys, k, m.space), own);
  }

  /** The machine after EXIT. */
  ghost function Exited(m: Machine, k: Kern): Machine
  {
    Machine(Processes.Exit(m.sys), k, m.space - {m.sys.current})
  }

  lemma ExitRecorded(m: Machine, k: Kern, at: seq<Option<Structures>>, pid: nat, own: u32)
    requires MachineInv(m, own) && m.sys.current != 0 && Kept(m, at)
    requires pid < MAX_PROCESSES && m.sys.slots[pid] == Some(m.sys.current)
    requires |at| == MAX_PROCESSES && at[pid].Some? && Ended(m.kern, k, at[pid].value.vspace)
    requires AllHeld(k, AllBlocks(at[pid := None]))
    ensures ExitStep(m, Exited(m, k)) && MachineInv(Exited(m, k), own) && Kept(Exited(m, k), at[pid := None])
  {
    PlacedLess(m.sys, m.space, at, pid);
    BlocksLess(at, pid);
    ExitKeepsSpaces(m, Exited(m, k), own);
  }

  lemma ShellSpace(f: map<u32, FlatMap>, g: map<u32, FlatMap>, kernelSpace: u32, v: u32)
    requires f.Keys == {kernelSpace} && OneMore(f, g, v)
    ensures OnePerTask(map[0 := v], [0], g.Keys, kernelSpace)
  {
    var space: map<nat, u32> := map[0 := v];
    assert space[0] == v;
  }

  lemma ShellPlaced(at: seq<Option<Structures>>, x: Structures)
    requires at == seq(MAX_PROCESSES, _ => None) && Separate(x)
    ensures Placed(Booted().slots, map[0 := x.vspace], at[0 := Some(x)])
    ensures BlocksApart(at[0 := Some(x)]) && AllBlocks(at[0 := Some(x)]) == Blocks(x)
  {
    assert at[0 := Some(x)][0] == Some(x);
  }

  const KERNEL_FLAGS: byte := PRESENT + USER + WRITE

  /** The kernel's own space, and that of the shell with its program. */
  ghost predicate ShellReady(k: Kern, own: u32, file: File, x: Structures)
  {
    && Inv(k) && OnePerTask(map[0 := x.vspace], [0], Flats(k).Keys, own) && KernelMapped(Flats(k), own)
    && AllHeld(k, Blocks(x)) && Separate(x)
    && LoadedAs(file, x.loaded) && LaidOut(k, x.vspace, ImageOf(file, x.loaded), x.stack)
  }

  /** There are enough free blocks for the kernel's own space, and then for what follows of a process's. */
  ghost predicate ShellEnough(k: Kern, file: File)
  {
    Room(k) >= BLOCKS && forall v, k' :: Created(k, KERNEL_FLAGS, v, k') ==> Enough(k', file)
  }

  lemma ReadyMapped(k: Kern, own: u32, file: File, x: Structures)
    requires ShellReady(k, own, file, x)
    ensures KernelMapped(Flats(k), own)
  {}

  lemma FailureMapped(k: Kern, k': Kern, own: u32, held: set<u32>)
    requires Inv(k) && Failed(k, k', held) && KernelMapped(Flats(k), own)
    ensures KernelMapped(Flats(k'), own)
  {
    FailureSame(k, k');
  }

  lemma OnlyOutcome(k: Kern, file: File, o: Outcome)
    requires OutcomeIs(k, file, o)
    ensures forall p :: OutcomeIs(k, file, p) <==> p == o
  {
    forall p | OutcomeIs(k, file, p)
      ensures p == o
    {
      OneOutcome(k, file, o, p);
    }
  }

  /**
    On a fresh heap, or any that is free from some block on for two spaces and a process, booting has all the blocks
    it needs and creates the shell, if its file is a flat binary or a program with its segments inside the file.
   */
  lemma ShellSucceeds(k: Kern, file: File, n: nat)
    requires Inv(k) && FreeFrom(k.table, n) && k.base + BLOCK_SIZE * |k.table| + PAGE_SIZE <= TWO32
    requires (file.Program? || file.Plain?) && 0 < file.size <= 0xffff_f000 && SegmentsInside(file)
    requires n + 2 * BLOCKS + 3 + 16 + 1 + 1 + 2 * FileBlocks(file) <= |k.table|
    ensures ShellEnough(k, file)
    ensures forall v, k' :: Created(k, KERNEL_FLAGS, v, k') ==> OutcomeIs(k', file, Succeeds)
  {
    hide Inv, Created, OutcomeIs, Enough, FreeFrom;
    FreeRoom(k, n);
    forall v, k' | Created(k, KERNEL_FLAGS, v, k')
      ensures Enough(k', file) && OutcomeIs(k', file, Succeeds)
    {
      CreatedKeeps(k, KERNEL_FLAGS, v, k');
      CreatedFits(k, KERNEL_FLAGS, v, k', n);
      FreeRoom(k', n + BLOCKS);
      EnoughBlocks(k', file);
      HeapPart(k');
      PlentySucceeds(k', file, n + BLOCKS);
    }
  }

  lemma HeapPart(k: Kern)
    requires Inv(k)
    ensures HeapInv(k)
  {}

  lemma NoneHeld(k: Kern)
    ensures AllHeld(k, {})
  {}

  lemma ShellIsReady(k: Kern, k1: Kern, k2: Kern, own: u32, file: File, x: Structures)
    requires k.spaces == map[] && Flats(k1) == Flats(k)[own := Identity(KERNEL_FLAGS)]
    requires Inv(k1) && Inv(k2) && Prepared(k1, k2, {}, file, x)
    ensures ShellReady(k2, own, file, x)
  {
    hide Inv, Begun, LaidOut, KernelMapped;
    OnlySpace(k, k1, own);
    ShellOnly(k1, k2, own, x.vspace);
    assert {} + Blocks(x) == Blocks(x);
  }

  lemma OnlySpace(k: Kern, k': Kern, v: u32)
    requires k.spaces == map[] && Flats(k') == Flats(k)[v := Identity(KERNEL_FLAGS)]
    ensures Flats(k').Keys == {v} && KernelMapped(Flats(k'), v)
  {
    assert Flats(k) == map[];
    IdentityIs(KERNEL_FLAGS);
  }

  lemma ShellOnly(k: Kern, k': Kern, own: u32, v: u32)
    requires Inv(k) && Flats(k).Keys == {own} && Begun(k, k', v) && KernelMapped(Flats(k), own)
    ensures OnePerTask(map[0 := v], [0], Flats(k').Keys, own) && KernelMapped(Flats(k'), own)
  {
    BegunKeeps(k, k', v);
    ShellSpace(Flats(k), Flats(k'), own, v);
  }

  predicate InShellSlot(pid: nat)
  {
    pid < MAX_PROCESSES && Booted().slots[pid] == Some(0)
  }

  ghost function ShellMachine(k: Kern, x: Structures): Machine
  {
    Machine(Booted(), k, map[0 := x.vspace])
  }

  lemma ShellKept(k: Kern, own: u32, file: File, x: Structures, at: seq<Option<Structures>>, pid: nat)
    requires ShellReady(k, own, file, x) && at == seq(MAX_PROCESSES, _ => None) && InShellSlot(pid)
    ensures MachineInv(ShellMachine(k, x), own) && Kept(ShellMachine(k, x), at[pid := Some(x)])
  {
    hide SysInv, IdentitySpace, OrEntries, OnePerTask;
    BootedKeeps();
    ShellPlaced(at, x);
  }

  lemma ShellLaidOut(k: Kern, own: u32, file: File, x: Structures)
    requires ShellReady(k, own, file, x)
    ensures LoadedAs(file, x.loaded) && LaidOut(k, x.vspace, ImageOf(file, x.loaded), x.stack)
  {}

  lemma MallocHolds(k: Kern, k': Kern, v: u32, size: u32, base: u32, held: set<u32>)
    requires Inv(k) && Inv(k') && v in k.spaces && Allocated(k, k', v, size, base) && AllHeld(k, held)
    ensures AllHeld(k', held)
  {
    KzallocHolds(k, size, held);
    RangesHold(AfterKzalloc(k, size), k', held);
  }

  /**
    What MALLOC comes to: null when no slot is free; else what kzalloc returns, which is recorded in the first free
    slot, and unless it is null or ends at the very top, each of its bytes is at its own address in the process's
    space, present, writable and open to users.
   */
  ghost predicate Malloced(k: Kern, k': Kern, v: u32, bases: seq<u32>, bases': seq<u32>, size: u32, base: u32)
  {
    var slot := FreeSlot(bases, 0);
    if slot >= 1024 then base == 0 && k' == k && bases' == bases
    else
      && HeapInv(k) && base == KzallocResult(k, size) && slot < |bases| && bases' == bases[slot := base]
      && v in Flats(k) && v in Flats(k')
      && (base != 0 && base + 4096 * BlocksFor(size) < TWO32 ==>
            && MapsBytes(Flats(k')[v], base, size, base) && HasAccess(Flats(k')[v], base, size, true)
            && forall page :: 0 <= page < PAGES && !(base <= 4096 * page < base + size) ==>
                 Flats(k')[v][page] == Flats(k)[v][page])
  }

  lemma MallocedIs(k: Kern, k': Kern, v: u32, bases: seq<u32>, bases': seq<u32>, size: u32, base: u32)
    requires Inv(k) && Inv(k') && v in k.spaces && |bases| == 1024
    requires var slot := FreeSlot(bases, 0);
             if slot == 1024 then base == 0 && k' == k && bases' == bases
             else Allocated(k, k', v, size, base) && bases' == bases[slot := base]
    ensures Malloced(k, k', v, bases, bases', size, base)
  {
    hide Inv, MapsBytes, HasAccess;
    if FreeSlot(bases, 0) < 1024 {
      NotNull(k, size);
      PagesAreBlocks(size);
      assert v in Flats(k);
      if base != 0 && base + 4096 * BlocksFor(size) < TWO32 {
        OwnAddresses(Flats(k), v, base, size);
      }
    }
  }

  lemma NotNull(k: Kern, size: u32)
    requires Inv(k)
    ensures HeapInv(k) && (KzallocResult(k, size) != 0 ==> BlocksFor(size) > 0)
  {
    MallocSound(k.base, k.table, size);
  }

  /** The slot of the current process. */
  lemma CurrentSlot(table: ProcessTable)
    requires table.Valid()
    ensures table.current != null && table.current.pid < MAX_PROCESSES && |table.s.slots| == MAX_PROCESSES
    ensures table.s.slots[table.current.pid] == Some(table.s.current)
  {}

  class GammaOS {
    const kern: Kernel
    const table: ProcessTable

    /** By pid, the addresses that the structures of each process hold. */
    var at: seq<Option<Structures>>

    /** The space of each process, and the kernel's own. */
    ghost var space: map<nat, u32>
    ghost var kernelSpace: u32

    ghost function State(): Machine
      reads this, kern, table
    {
      Machine(table.s, kern.k, space)
    }

    ghost predicate Valid()
      reads this, kern, kern.heap, kern.heap.entries
      reads table, table.list, table.list[..], table.tasks, table.tasks.tasks, table.current
    {
      kern.Valid() && table.Valid() && TwoArrays() && MachineInv(State(), kernelSpace) && Kept(State(), at)
    }

    /** The heap's table and the process list are not the same array. */
    ghost predicate TwoArrays()
      reads this, kern, kern.heap
    {
      var entries: object := kern.heap.entries;
      entries != table.list
    }

    /** Before booting: no process. */
    constructor (kern: Kernel, table: ProcessTable)
      ensures this.kern == kern && this.table == table && at == seq(MAX_PROCESSES, _ => None)
    {
      this.kern, this.table, at := kern, table, seq(MAX_PROCESSES, _ => None);
      space, kernelSpace := map[], 0;
    }

    /** The kernel's own space, and the shell as first process; the kernel halts when it cannot be created. */
    method Boot(file: File) returns (ok: bool)
      requires kern.Valid() && kern.k.spaces == map[] && ShellEnough(kern.k, file)
      requires table.Linked() && table.tasks.tasks == [] && table.s == Sys(seq(MAX_PROCESSES, _ => None), 0, 0, [], 0)
      requires TwoArrays() && at == seq(MAX_PROCESSES, _ => None)
      modifies this, kern, kern.heap.entries, table, table.list, table.tasks, table.tasks.tail
      ensures ok ==> Valid() && State().sys == Booted() && Runs(file)
      ensures exists k :: Created(old(kern.k), KERNEL_FLAGS, kernelSpace, k) && (ok <==> OutcomeIs(k, file, Succeeds))
      ensures KernelMapped(Flats(kern.k), kernelSpace)
    {
      hide Inv, SysInv, MachineInv, Kept, ShellReady, Created, OutcomeIs, KernelMapped;
      ghost var k;
      var outcome, x;
      outcome, x, k := ShellMemory(file);
      ok := ShellEntry(outcome);
      OnlyOutcome(k, file, outcome);
      if ok {
        RecordShell(file, x);
      }
    }

    /** EXEC: it succeeds exactly when no step of creating the process fails, and a failure gives back what it took. */
    method Exec(file: File) returns (status: int)
      requires Valid() && HasFreeSlot(table.s) && Enough(kern.k, file)
      modifies this, kern, kern.heap.entries, table, table.list, table.tasks, table.tasks.tasks
      ensures Valid() && kernelSpace == old(kernelSpace)
      ensures ExecStep(old(State()), State(), status == SUCCESS)
      ensures status == SUCCESS || status == -ERR_PROCESS_CREATION_FAILED
      ensures status == SUCCESS <==> OutcomeIs(old(kern.k), file, Succeeds)
      ensures status == SUCCESS ==> Runs(file) && Ends(old(kern.k), file, Succeeds, CurrentParts(), kern.k)
      ensures status == SUCCESS ==> table.tasks.cur != null && table.tasks.cur.owner == old(table.s.created)
      ensures status != SUCCESS ==> at == old(at) && exists o, x ::
                o != Succeeds && Ends(old(kern.k), file, o, x, kern.k) && GivenBack(kern.k, Returned(o, x))
    {
      hide Inv, SysInv, MachineInv, AllHeld, Begun, Failed, ExecStep, OutcomeIs, Ends, GivenBack, LaidOut;
      ghost var m := State();
      var outcome, x := NewMemory(file, AllBlocks(at));
      EndsIs(m.kern, file, outcome, x, kern.k);
      OnlyOutcome(m.kern, file, outcome);
      status := NewEntry(outcome);
      if status == SUCCESS {
        Record(file, x, m);
      } else {
        FailureRecorded(m, kern.k, at, file, outcome, x, kernelSpace);
      }
    }

    /** The structures of the current process. */
    ghost function CurrentParts(): Structures
      requires table.current != null && table.current.pid < |at| && at[table.current.pid].Some?
      reads this, table, table.current
    {
      at[table.current.pid].value
    }

    /** The memory of a new process; the process table does not change. */
    method NewMemory(file: File, ghost held: set<u32>) returns (outcome: Outcome, x: Structures)
      requires kern.Valid() && table.Valid() && TwoArrays()
      requires AllHeld(kern.k, held) && Enough(kern.k, file)
      modifies kern, kern.heap.entries
      ensures kern.Valid() && table.Valid() && TwoArrays() && table.s == old(table.s)
      ensures Done(old(kern.k), kern.k, held, file, outcome, x) && Ends(old(kern.k), file, outcome, x, kern.k)
    {
      hide Inv, Begun, Failed, LaidOut, AllHeld, Ends, GivenBack;
      outcome, x := PrepareProcess(kern, file, held);
    }

    /** The same at boot, after the kernel's own space. */
    method ShellMemory(file: File) returns (outcome: Outcome, x: Structures, ghost k1: Kern)
      requires kern.Valid() && kern.k.spaces == map[] && ShellEnough(kern.k, file)
      requires table.Linked() && TwoArrays()
      modifies this`kernelSpace, kern, kern.heap.entries
      ensures kern.Valid() && table.Linked() && TwoArrays()
      ensures table.s == old(table.s) && table.tasks.tasks == old(table.tasks.tasks)
      ensures outcome == Succeeds ==> ShellReady(kern.k, kernelSpace, file, x)
      ensures Created(old(kern.k), KERNEL_FLAGS, kernelSpace, k1) && OutcomeIs(k1, file, outcome)
      ensures KernelMapped(Flats(kern.k), kernelSpace)
    {
      hide Inv, Begun, Failed, LaidOut, AllHeld, Created, Ends, OutcomeIs, KernelMapped, GivenBack;
      ghost var k := kern.k;
      kernelSpace := kern.CreateSpace(KERNEL_FLAGS);
      k1 := kern.k;
      NoneHeld(k1);
      OnlySpace(k, k1, kernelSpace);
      outcome, x := PrepareProcess(kern, file, {});
      EndsIs(k1, file, outcome, x, kern.k);
      if outcome == Succeeds {
        ShellIsReady(k, k1, kern.k, kernelSpace, file, x);
        ReadyMapped(kern.k, kernelSpace, file, x);
      } else {
        FailureMapped(k1, kern.k, kernelSpace, {} + Left(outcome, x));
      }
    }

    /** Its entry in the process table and the task list; memory does not change. */
    method NewEntry(outcome: Outcome) returns (status: int)
      requires kern.Valid() && table.Valid() && TwoArrays() && HasFreeSlot(table.s)
      modifies table, table.list, table.tasks, table.tasks.tasks
      ensures kern.Valid() && table.Valid() && TwoArrays() && kern.k == old(kern.k)
      ensures table.s == Processes.Exec(old(table.s), outcome == Succeeds)
      ensures status == if outcome == Succeeds then SUCCESS else -ERR_PROCESS_CREATION_FAILED
      ensures outcome == Succeeds ==> table.tasks.cur != null && table.tasks.cur.owner == old(table.s.created)
    {
      status := table.ExecSyscall(outcome);
    }

    method ShellEntry(outcome: Outcome) returns (ok: bool)
      requires kern.Valid() && TwoArrays()
      requires table.Linked() && table.tasks.tasks == [] && table.s == Sys(seq(MAX_PROCESSES, _ => None), 0, 0, [], 0)
      modifies table, table.list, table.tasks, table.tasks.tail
      ensures kern.Valid() && TwoArrays() && kern.k == old(kern.k)
      ensures ok <==> outcome == Succeeds
      ensures ok ==> table.Valid() && table.s == Booted()
    {
      hide Inv, SysInv;
      var shell := table.Boot(outcome);
      ok := shell != null;
    }

    method RecordShell(file: File, x: Structures)
      requires kern.Valid() && table.Valid() && TwoArrays() && table.s == Booted()
      requires ShellReady(kern.k, kernelSpace, file, x) && at == seq(MAX_PROCESSES, _ => None)
      modifies this`at, this`space
      ensures Valid() && Runs(file)
    {
      hide Inv, SysInv, MachineInv, AllHeld, Kept, LaidOut, ShellReady;
      CurrentSlot(table);
      ShellKept(kern.k, kernelSpace, file, x, at, table.current.pid);
      ShellLaidOut(kern.k, kernelSpace, file, x);
      at := at[table.current.pid := Some(x)];
      space := map[0 := x.vspace];
    }

    /** The addresses of a new process are kept with it. */
    method Record(file: File, x: Structures, ghost m: Machine)
      requires kern.Valid() && table.Valid() && TwoArrays()
      requires MachineInv(m, kernelSpace) && Kept(m, at) && space == m.space
      requires HasFreeSlot(m.sys) && table.s == Processes.Exec(m.sys, true)
      requires Prepared(m.kern, kern.k, AllBlocks(at), file, x)
      modifies this`at, this`space
      ensures Valid() && ExecStep(m, State(), true) && Runs(file) && CurrentParts() == x
    {
      hide Inv, SysInv, MachineInv, AllHeld, Kept, Begun, LaidOut, ExecStep;
      CurrentSlot(table);
      ExecRecorded(m, kern.k, at, table.current.pid, file, x, kernelSpace);
      at := at[table.current.pid := Some(x)];
      space := space[m.sys.created := x.vspace];
    }

    /** The current process's space holds the file's program and its stack, and is the one it was given. */
    ghost predicate Runs(file: File)
      requires table.current != null
      reads this, kern, table, table.current
    {
      && table.current.pid < |at| && at[table.current.pid].Some?
      && var x := at[table.current.pid].value;
         && table.s.current in space && space[table.s.current] == x.vspace && LoadedAs(file, x.loaded)
         && LaidOut(kern.k, x.vspace, ImageOf(file, x.loaded), x.stack)
    }

    /** EXIT. */
    method Exit()
      requires Valid() && table.s.current != 0
      modifies this, kern, kern.heap.entries, table, table.list, table.tasks, table.tasks.tasks
      ensures Valid() && kernelSpace == old(kernelSpace)
      ensures ExitStep(old(State()), State())
      ensures table.tasks.cur != null && table.tasks.cur.owner == 0
      ensures old(table.current) != null && old(table.current.pid) < |old(at)| && old(at[table.current.pid]).Some?
      ensures at == old(at)[old(table.current.pid) := None]
      ensures GivenBack(kern.k, Blocks(old(CurrentParts())))
      ensures Room(kern.k) == old(Room(kern.k)) + 1026 + |Blocks(old(CurrentParts()))|
    {
      hide Kernel.Valid, ProcessTable.Valid, MachineInv, AllHeld, Kept, Ended, Separate, ExitStep, GivenBack, Blocks;
      ghost var m := State();
      CurrentSlot(table);
      var pid := table.current.pid;
      CurrentKept(m, at, pid, kernelSpace);
      ReleaseMemory(at[pid].value, AllBlocks(at[pid := None]));
      RemoveEntry();
      ExitRecorded(m, kern.k, at, pid, kernelSpace);
      at := at[pid := None];
      space := space - {m.sys.current};
    }

    method ReleaseMemory(x: Structures, ghost held: set<u32>)
      requires kern.Valid() && table.Valid() && TwoArrays()
      requires AllHeld(kern.k, held + Blocks(x)) && Blocks(x) !! held && Separate(x) && x.vspace in kern.k.spaces
      modifies kern, kern.heap.entries
      ensures kern.Valid() && table.Valid() && TwoArrays() && table.s == old(table.s)
      ensures Ended(old(kern.k), kern.k, x.vspace) && AllHeld(kern.k, held)
      ensures GivenBack(kern.k, Blocks(x)) && Room(kern.k) == old(Room(kern.k)) + 1026 + |Blocks(x)|
    {
      hide Inv, Ended, AllHeld, GivenBack, Blocks;
      ReleaseProcess(kern, x, held);
    }

    method RemoveEntry()
      requires kern.Valid() && table.Valid() && TwoArrays() && table.s.current != 0
      modifies table, table.list, table.tasks, table.tasks.tasks
      ensures kern.Valid() && table.Valid() && TwoArrays() && kern.k == old(kern.k)
      ensures table.s == Processes.Exit(old(table.s)) && table.tasks.cur != null && table.tasks.cur.owner == 0
    {
      table.ExitSyscall();
    }

    /** MALLOC of the current process. */
    method Malloc(slots: Slots, size: u32) returns (base: u32)
      requires Valid() && slots.Valid(kern.k)
      modifies kern, kern.heap.entries, slots
      ensures Valid() && slots.Valid(kern.k) && at == old(at)
      ensures WorkStep(old(State()), State())
      ensures Malloced(old(kern.k), kern.k, space[table.s.current], old(slots.bases), slots.bases, size, base)
      ensures FreeSlot(old(slots.bases), 0) < 1024 ==> slots.sizes == old(slots.sizes)[FreeSlot(old(slots.bases), 0) := size]
    {
      hide Inv, SysInv, MachineInv, AllHeld, Kept, Work, Recorded, WorkStep, Malloced;
      ghost var m := State();
      CurrentSlot(table);
      CurrentKept(m, at, table.current.pid, kernelSpace);
      var v := at[table.current.pid].value.vspace;
      base := MallocMemory(slots, v, size, AllBlocks(at));
      WorkKept(m, kern.k, at, kernelSpace);
    }

    method MallocMemory(slots: Slots, v: u32, size: u32, ghost held: set<u32>) returns (base: u32)
      requires kern.Valid() && table.Valid() && TwoArrays()
      requires slots.Valid(kern.k) && v in kern.k.spaces && AllHeld(kern.k, held)
      modifies kern, kern.heap.entries, slots
      ensures kern.Valid() && table.Valid() && TwoArrays() && table.s == old(table.s)
      ensures slots.Valid(kern.k) && Work(old(kern.k), kern.k, Some(v)) && AllHeld(kern.k, held)
      ensures Malloced(old(kern.k), kern.k, v, old(slots.bases), slots.bases, size, base)
      ensures FreeSlot(old(slots.bases), 0) < 1024 ==> slots.sizes == old(slots.sizes)[FreeSlot(old(slots.bases), 0) := size]
    {
      hide Inv, AllHeld, Work, Recorded, Allocated, Malloced;
      ghost var k := kern.k;
      base := ProcessMalloc(kern, v, slots, size);
      MallocedIs(k, kern.k, v, old(slots.bases), slots.bases, size, base);
      if kern.k == k {
        NoWork(k, Some(v));
      } else {
        MallocIsWork(k, kern.k, v, size, base);
        MallocHolds(k, kern.k, v, size, base, held);
      }
    }
  }
}
