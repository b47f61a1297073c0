/** Creating and killing a process in place: its allocations, its address space and its layout. */
module ProcessLife {
  import opened Options
  import opened Words
  import opened HeapTable
  import opened Paging
  import opened KernelHeap
  import opened AddressSpaces
  import opened KernelPaging
  import opened HeldBlocks
  import opened Creation
  import opened Loader
  import opened Processes
  import opened ProcessSpaces

  // ---------- Allocations since some state ----------

  /** Only work since k0, and these allocations are held. */
  ghost predicate Since(k0: Kern, k: Kern, held: set<u32>)
  {
    Work(k0, k, None) && AllHeld(k, held)
  }

  lemma NoWork(k: Kern, own: Option<u32>)
    ensures Work(k, k, own)
  {
    var states: seq<Kern>, events: seq<Event> := [k], [];
    assert WorkRun(states, events, own) && states[0] == k && states[|events|] == k;
  }

  lemma OtherWork(k0: Kern, k: Kern, k': Kern)
    requires Work(k0, k, None) && AddressSpaces.Step(k, Other, k')
    ensures Work(k0, k', None)
  {
    WorkOne(k, Other, k', None);
    WorkThen(k0, k, k', None);
  }

  lemma FewerHeld(k: Kern, held: set<u32>, fewer: set<u32>)
    requires AllHeld(k, held) && fewer <= held
    ensures AllHeld(k, fewer)
  {}

  lemma TakenSince(k0: Kern, k: Kern, size: u32, held: set<u32>)
    requires Inv(k) && Since(k0, k, held)
    ensures var r := KzallocResult(k, size);
            && Since(k0, AfterKzalloc(k, size), if r == 0 then held else held + {r}) && (r != 0 ==> r !in held)
    ensures AfterKzalloc(k, size).spaces == k.spaces
  {
    KzallocHolds(k, size, held);
    HeapCallsAreSteps(k, size, 0);
    OtherWork(k0, k, AfterKzalloc(k, size));
    MoreLive(k, size);
  }

  lemma GivenSince(k0: Kern, k: Kern, a: u32, held: set<u32>)
    requires Inv(k) && Since(k0, k, held) && a in held
    ensures MayFree(k, a) && Since(k0, AfterKfree(k, a), held - {a})
    ensures AfterKfree(k, a).spaces == k.spaces && Given(AfterKfree(k, a), a)
  {
    KfreeHolds(k, a, held);
    KfreeGone(k, a);
    HeapCallsAreSteps(k, 0, a);
    OtherWork(k0, k, AfterKfree(k, a));
  }

  /** Already free, and free to be freed once more. */
  ghost predicate Given(k: Kern, a: u32)
  {
    MayFree(k, a) && BlockOf(k.base, a) !in k.live
  }

  /** kzalloc. */
  method Take(kern: Kernel, size: u32, ghost k0: Kern, ghost held: set<u32>) returns (r: u32)
    requires kern.Valid() && Since(k0, kern.k, held)
    modifies kern, kern.heap.entries
    ensures kern.Valid() && Since(k0, kern.k, if r == 0 then held else held + {r}) && (r != 0 ==> r !in held)
    ensures Kzalloced(old(kern.k), size, r, kern.k) && kern.k.spaces == old(kern.k.spaces)
  {
    TakenSince(k0, kern.k, size, held);
    r := kern.Kzalloc(size);
  }

  /** kfree: one block more is free, and what was given back before still is. */
  method Give(kern: Kernel, a: u32, ghost k0: Kern, ghost held: set<u32>, ghost gone: set<u32>)
    requires kern.Valid() && Since(k0, kern.k, held) && a in held && GivenBack(kern.k, gone)
    modifies kern, kern.heap.entries
    ensures kern.Valid() && Since(k0, kern.k, held - {a}) && Given(kern.k, a)
    ensures kern.k == AfterKfree(old(kern.k), a) && kern.k.spaces == old(kern.k.spaces)
    ensures GivenBack(kern.k, gone + {a}) && Room(kern.k) == old(Room(kern.k)) + 1
  {
    GivenSince(k0, kern.k, a, held);
    KfreeGives(kern.k, a, gone);
    kern.Kfree(a);
  }

  /** kfree of what is free already. */
  method GiveAgain(kern: Kernel, a: u32)
    requires kern.Valid() && Given(kern.k, a)
    modifies kern, kern.heap.entries
    ensures kern.Valid() && kern.k == old(kern.k)
  {
    FreedAgain(kern.k, a);
    kern.Kfree(a);
  }

  // ---------- Loading the file ----------

  /** gloader_load_elf: a structure and a buffer of the file's size, given back when the file is no program. */
  method LoadElf(kern: Kernel, file: File, ghost k0: Kern, ghost held: set<u32>) returns (r: Option<Loaded>)
    requires kern.Valid() && Since(k0, kern.k, held)
    modifies kern, kern.heap.entries
    ensures kern.Valid() && LoadedSince(k0, kern.k, held, file, r)
    ensures match r
            case None => NoElf(old(kern.k), file, kern.k)
            case Some(x) => x.ElfFile? && FileLoaded(old(kern.k), file, x, kern.k)
  {
    if file.Missing? {
      return None;
    }
    ghost var k1 := kern.k;
    var elf := Take(kern, ELF_FILE_BYTES, k0, held);
    if elf == 0 {
      return None;
    }
    r := LoadElfData(kern, file, elf, k0, held, k1);
  }

  method LoadElfData(kern: Kernel, file: File, elf: u32, ghost k0: Kern, ghost held: set<u32>, ghost k1: Kern)
    returns (r: Option<Loaded>)
    requires kern.Valid() && Since(k0, kern.k, held + {elf}) && elf !in held && !file.Missing?
    requires elf != 0 && Kzalloced(k1, ELF_FILE_BYTES, elf, kern.k)
    modifies kern, kern.heap.entries
    ensures kern.Valid() && LoadedSince(k0, kern.k, held, file, r)
    ensures match r
            case None => NoElf(k1, file, kern.k)
            case Some(x) => x.ElfFile? && FileLoaded(k1, file, x, kern.k)
  {
    hide Inv, AllHeld, Work;
    ghost var k2 := kern.k;
    var data := Take(kern, file.size, k0, held + {elf});
    ghost var k3 := kern.k;
    if data == 0 {
      Give(kern, elf, k0, held + {elf}, {});
      assert held + {elf} - {elf} == held;
      assert ElfUndone(k1, file, elf, data, k2, k3, kern.k);
      return None;
    }
    ghost var more := TwoMore(held, elf, data);
    if !file.Program? {
      Give(kern, elf, k0, more, {});
      Give(kern, data, k0, more - {elf}, {});
      assert ElfUndone(k1, file, elf, data, k2, k3, kern.k);
      return None;
    }
    r := Some(ElfFile(elf, data));
  }

  lemma TwoMore(held: set<u32>, a: u32, b: u32) returns (more: set<u32>)
    requires a !in held && b !in held + {a}
    ensures more == held + {a} + {b} == held + {a, b} && b in more - {a} && more - {a} - {b} == held
  {
    more := held + {a, b};
  }

  /** process_load_binary. */
  method LoadBinary(kern: Kernel, file: File, ghost k0: Kern, ghost held: set<u32>) returns (r: Option<Loaded>)
    requires kern.Valid() && Since(k0, kern.k, held)
    modifies kern, kern.heap.entries
    ensures kern.Valid() && LoadedSince(k0, kern.k, held, file, r)
    ensures match r
            case None => NoBinary(old(kern.k), file, kern.k)
            case Some(x) => x.RawData? && BinaryLoaded(old(kern.k), file, x.raw, kern.k)
  {
    hide Inv, AllHeld, Work;
    if file.Missing? {
      return None;
    }
    var raw := Take(kern, file.size, k0, held);
    if raw == 0 {
      return None;
    }
    if file.Unreadable? {
      Give(kern, raw, k0, held + {raw}, {});
      assert held + {raw} - {raw} == held;
      return None;
    }
    r := Some(RawData(raw));
  }

  /** process_load_data: as a program if it is one and there is memory for it, else as a flat binary. */
  method LoadData(kern: Kernel, file: File, ghost k0: Kern, ghost held: set<u32>) returns (r: Option<Loaded>)
    requires kern.Valid() && Since(k0, kern.k, held)
    modifies kern, kern.heap.entries
    ensures kern.Valid() && LoadedSince(k0, kern.k, held, file, r)
    ensures match r
            case None => NotLoaded(old(kern.k), file, kern.k)
            case Some(x) => FileLoaded(old(kern.k), file, x, kern.k)
  {
    hide Inv, AllHeld, Work, NoElf, NoBinary, BinaryLoaded;
    r := LoadElf(kern, file, k0, held);
    if r == None {
      r := LoadBinary(kern, file, k0, held);
    }
  }

  ghost predicate LoadedSince(k0: Kern, k: Kern, held: set<u32>, file: File, r: Option<Loaded>)
  {
    match r
    case None => Since(k0, k, held)
    case Some(x) =>
      && LoadedAs(file, x) && Since(k0, k, held + LoadedBlocks(x))
      && LoadedBlocks(x) !! held && (x.ElfFile? ==> x.file != x.data)
  }

  // ---------- process_new ----------

  /** A process that was created: a new space with its layout, and new allocations. */
  ghost predicate Prepared(k0: Kern, k: Kern, held: set<u32>, file: File, s: Structures)
  {
    && Begun(k0, k, s.vspace) && AllHeld(k, held + Blocks(s)) && Blocks(s) !! held && Separate(s)
    && LoadedAs(file, s.loaded) && LaidOut(k, s.vspace, ImageOf(file, s.loaded), s.stack)
  }

  /** The flat map of the space is the identity with the image and the stack mapped over it, none refused. */
  ghost predicate LaidOut(k: Kern, v: u32, image: Image, stack: u32)
  {
    && v in Flats(k) && AllAccepted(Ranges(image, stack))
    && Flats(k)[v] == AppliedAll(Identity(TASK_FLAGS), Ranges(image, stack))
  }

  /** A failure leaves the spaces and the allocations held before. */
  ghost predicate Failed(k0: Kern, k: Kern, held: set<u32>)
  {
    (Work(k0, k, None) || Undone(k0, k)) && AllHeld(k, held)
  }

  /** What a failure leaves behind, in no structure: the file, when it was loaded before. */
  function Left(outcome: Outcome, s: Structures): set<u32>
  {
    if outcome == TaskFails || outcome == MapFails then LoadedBlocks(s.loaded) else {}
  }

  /** What stays, and what changes: the spaces and the held allocations, and which of those it made it gave back. */
  ghost predicate Done(k0: Kern, k: Kern, held: set<u32>, file: File, outcome: Outcome, s: Structures)
  {
    && (if outcome == Succeeds then Prepared(k0, k, held, file, s)
        else Failed(k0, k, held + Left(outcome, s)) && Left(outcome, s) !! held)
    && GivenBack(k, Returned(outcome, s))
  }

  /** The memory part of process_new. */
  method PrepareProcess(kern: Kernel, file: File, ghost held: set<u32>) returns (outcome: Outcome, s: Structures)
    requires kern.Valid() && AllHeld(kern.k, held) && Enough(kern.k, file)
    modifies kern, kern.heap.entries
    ensures kern.Valid() && Done(old(kern.k), kern.k, held, file, outcome, s)
    ensures Ends(old(kern.k), file, outcome, s, kern.k)
  {
    hide Inv, HeapInv, AllHeld, Work, Undone, Prepared, Enough, GivenBack, FreeAt, Begun;
    ghost var k0 := kern.k;
    s := Structures(0, 0, RawData(0), 0, 0);
    NoWork(k0, None);
    var process := Take(kern, PROCESS_BYTES, k0, held);
    if process == 0 {
      NothingBack(kern.k);
      assert held == held + {};
      return ProcessFails, s;
    }
    outcome, s := PrepareStack(kern, file, process, k0, held);
  }

  /** The part of process_new from the stack on. */
  method PrepareStack(kern: Kernel, file: File, process: u32, ghost k0: Kern, ghost held: set<u32>)
    returns (outcome: Outcome, s: Structures)
    requires kern.Valid() && Inv(k0) && Since(k0, kern.k, held + {process}) && Enough(k0, file)
    requires process !in held && process != 0 && Kzalloced(k0, PROCESS_BYTES, process, kern.k)
    modifies kern, kern.heap.entries
    ensures kern.Valid() && Done(k0, kern.k, held, file, outcome, s) && Ends(k0, file, outcome, s, kern.k)
  {
    hide Inv, HeapInv, AllHeld, Work, Undone, Prepared, Enough, GivenBack, FreeAt, Begun;
    s := Structures(process, 0, RawData(0), 0, 0);
    var stack := Take(kern, STACK_BYTES, k0, held + {process});
    if stack == 0 {
      NothingBack(kern.k);
      Give(kern, process, k0, held + {process}, {});
      assert held + {process} - {process} == held + {} && {} + {process} == Returned(StackFails, s);
      return StackFails, s;
    }
    assert held + {process} + {stack} == held + {process, stack};
    outcome, s := PrepareTask(kern, file, process, stack, k0, held);
  }

  /** The part of process_new from loading the file on. */
  method PrepareTask(kern: Kernel, file: File, process: u32, stack: u32, ghost k0: Kern, ghost held: set<u32>)
    returns (outcome: Outcome, s: Structures)
    requires kern.Valid() && Inv(k0) && Since(k0, kern.k, held + {process, stack}) && Enough(k0, file)
    requires process !in held && stack !in held && process != stack && TwoTaken(k0, process, stack, kern.k)
    modifies kern, kern.heap.entries
    ensures kern.Valid() && Done(k0, kern.k, held, file, outcome, s) && Ends(k0, file, outcome, s, kern.k)
  {
    hide Inv, AllHeld, Work, Undone, Prepared, Enough, TwoTaken, NotLoaded, FileLoaded;
    ghost var two := held + {process, stack};
    s := Structures(process, stack, RawData(0), 0, 0);
    var loaded := LoadData(kern, file, k0, two);
    if loaded == None {
      GiveTwo(kern, process, stack, k0, two);
      assert two - {stack} - {process} == held + {};
      return LoadFails, s;
    }
    assert FileAt(k0, file, s.(loaded := loaded.value), kern.k);
    outcome, s := PrepareLoaded(kern, file, process, stack, loaded.value, k0, held, two);
  }

  /** The part of process_new from the task on. */
  method PrepareLoaded(kern: Kernel, file: File, process: u32, stack: u32, loaded: Loaded,
                       ghost k0: Kern, ghost held: set<u32>, ghost two: set<u32>)
    returns (outcome: Outcome, s: Structures)
    requires kern.Valid() && Inv(k0) && LoadedSince(k0, kern.k, two, file, Some(loaded)) && Enough(k0, file)
    requires two == held + {process, stack} && process !in held && stack !in held && process != stack
    requires FileAt(k0, file, Structures(process, stack, loaded, 0, 0), kern.k)
    modifies kern, kern.heap.entries
    ensures kern.Valid() && Done(k0, kern.k, held, file, outcome, s) && Ends(k0, file, outcome, s, kern.k)
  {
    hide Inv, AllHeld, Begun, LaidOut, Blocks, LoadedBlocks, Separate, TwoTaken, FileLoaded, Prepared;
    ghost var more := two + LoadedBlocks(loaded);
    ghost var k1 := kern.k;
    var task := Take(kern, TASK_BYTES, k0, more);
    s := Structures(process, stack, loaded, task, 0);
    assert FileAt(k0, file, s, k1);
    if task == 0 {
      GiveTwo(kern, process, stack, k0, more);
      OnlyLoaded(s, held, two);
      return TaskFails, s;
    }
    PartsSeparate(s, held, two);
    assert AtSpace(k0, file, s, kern.k);
    outcome, s := MapTask(kern, file, s, k0, held);
  }

  lemma OnlyLoaded(s: Structures, held: set<u32>, two: set<u32>)
    requires two == held + {s.process, s.stack} && s.process !in held && s.stack !in held
    requires LoadedBlocks(s.loaded) !! two
    ensures two + LoadedBlocks(s.loaded) - {s.stack} - {s.process} == held + LoadedBlocks(s.loaded)
    ensures LoadedBlocks(s.loaded) !! held
  {}

  lemma PartsSeparate(s: Structures, held: set<u32>, two: set<u32>)
    requires two == held + {s.process, s.stack} && s.process !in held && s.stack !in held && s.process != s.stack
    requires LoadedBlocks(s.loaded) !! two && (s.loaded.ElfFile? ==> s.loaded.file != s.loaded.data)
    requires s.task !in two + LoadedBlocks(s.loaded)
    ensures two + LoadedBlocks(s.loaded) + {s.task} == held + Blocks(s) && Blocks(s) !! held && Separate(s)
  {}

  /** The kfree calls of a process_new that fails before it has a task. */
  method GiveTwo(kern: Kernel, process: u32, stack: u32, ghost k0: Kern, ghost more: set<u32>)
    requires kern.Valid() && Since(k0, kern.k, more) && {process, stack} <= more && process != stack
    modifies kern, kern.heap.entries
    ensures kern.Valid() && Since(k0, kern.k, more - {stack} - {process})
    ensures kern.k == AfterKfree(AfterKfree(old(kern.k), stack), process) && GivenBack(kern.k, {process, stack})
  {
    Give(kern, stack, k0, more, {});
    Give(kern, process, k0, more - {stack}, {} + {stack});
    assert {} + {stack} + {process} == {process, stack};
  }

  /** The task's space, and the program in it. */
  method MapTask(kern: Kernel, file: File, parts: Structures, ghost k0: Kern, ghost held: set<u32>)
    returns (outcome: Outcome, s: Structures)
    requires kern.Valid() && Inv(k0) && Since(k0, kern.k, held + Blocks(parts)) && Enough(k0, file)
    requires LoadedAs(file, parts.loaded) && Blocks(parts) !! held && Separate(parts) && AtSpace(k0, file, parts, kern.k)
    modifies kern, kern.heap.entries
    ensures kern.Valid() && Done(k0, kern.k, held, file, outcome, s) && Ends(k0, file, outcome, s, kern.k)
  {
    hide Inv, AllHeld, Begun, LaidOut, Blocks, LoadedBlocks, Separate, SpaceMapped, Closed, AllAccepted, GivenBack;
    hide Enough, AtSpace, ImageOf;
    ghost var k1 := kern.k;
    EnoughHere(k0, file, parts, k1);
    var v, status := CreateAndMap(kern, ImageOf(file, parts.loaded), parts.stack, k0, held + Blocks(parts));
    s := parts.(vspace := v);
    SameParts(parts, s, held);
    AnySpace(k0, file, parts, v, k1);
    if status < 0 {
      outcome := MapFails;
      Unmap(kern, s, k0, held);
    } else {
      outcome := Succeeds;
      NothingBack(kern.k);
    }
  }

  /** A new space for a task, and its layout. */
  method CreateAndMap(kern: Kernel, image: Image, stack: u32, ghost k0: Kern, ghost held: set<u32>)
    returns (v: u32, status: int)
    requires kern.Valid() && Inv(k0) && Since(k0, kern.k, held) && Room(kern.k) >= BLOCKS
    modifies kern, kern.heap.entries
    ensures kern.Valid() && Begun(k0, kern.k, v) && v in kern.k.spaces && AllHeld(kern.k, held)
    ensures SpaceMapped(old(kern.k), v, Ranges(image, stack), kern.k)
    ensures status >= 0 <==> AllAccepted(Ranges(image, stack))
    ensures status >= 0 ==> LaidOut(kern.k, v, image, stack)
  {
    ghost var k1 := kern.k;
    v := kern.CreateSpace(TASK_FLAGS);
    ghost var k2 := kern.k;
    SpaceThere(k1, v, k2);
    CreatedHolds(k1, TASK_FLAGS, v, k2, held);
    status := ProcessMapMemory(kern, v, image, stack);
    BegunSince(k0, k1, k2, kern.k, v, Ranges(image, stack), held);
    if status >= 0 {
      IsLaidOut(Flats(k1), k2, kern.k, v, image, stack);
    }
  }

  lemma EnoughHere(k: Kern, file: File, s: Structures, k': Kern)
    requires Enough(k, file) && AtSpace(k, file, s, k')
    ensures Room(k') >= BLOCKS
  {}

  lemma SameParts(parts: Structures, s: Structures, held: set<u32>)
    requires s == parts.(vspace := s.vspace) && Separate(parts) && Blocks(parts) !! held
    ensures Blocks(s) == Blocks(parts) && Separate(s) && s.loaded == parts.loaded && LoadedBlocks(s.loaded) !! held
  {}

  lemma SpaceThere(k: Kern, v: u32, k': Kern)
    requires Flats(k') == Flats(k)[v := Identity(TASK_FLAGS)]
    ensures v in k'.spaces
  {
    assert v in Flats(k');
  }

  lemma BegunSince(k0: Kern, k1: Kern, k2: Kern, k3: Kern, v: u32, rs: seq<Range>, held: set<u32>)
    requires Inv(k0) && Work(k0, k1, None) && Created(k1, TASK_FLAGS, v, k2) && v in k2.spaces
    requires k3 == RangesMapped(k2, v, rs) && AllHeld(k2, held)
    ensures Begun(k0, k3, v) && v in k3.spaces && AllHeld(k3, held)
  {
    RangesAreWork(k2, v, rs);
    RangesHold(k2, k3, held);
  }

  lemma RangesHold(k: Kern, k': Kern, held: set<u32>)
    requires k' == k.(mem := k'.mem) && AllHeld(k, held)
    ensures AllHeld(k', held)
  {
    forall a | a in held
      ensures Held(k', a)
    {
      assert Held(k, a);
    }
  }

  /** Mapping ranges in a space is work in it. */
  lemma {:induction false} RangesAreWork(k: Kern, v: u32, rs: seq<Range>)
    requires v in k.spaces
    ensures Work(k, RangesMapped(k, v, rs), Some(v))
    decreases |rs|
  {
    NoWork(k, Some(v));
    if rs != [] && Accepted(rs[0]) {
      var k1 := OneMapped(k, v, rs[0]);
      var e := MapRange(v, rs[0].vaddr, rs[0].paddr, rs[0].endaddr, rs[0].flags);
      assert AddressSpaces.Step(k, e, k1);
      WorkOne(k, e, k1, Some(v));
      RangesAreWork(k1, v, rs[1..]);
      WorkThen(k, k1, RangesMapped(k1, v, rs[1..]), Some(v));
    }
  }

  lemma IsLaidOut(f: map<u32, FlatMap>, k2: Kern, k3: Kern, v: u32, image: Image, stack: u32)
    requires v in k2.spaces && Flats(k2) == f[v := Identity(TASK_FLAGS)]
    requires Flats(k3) == AfterRanges(k2, v, Ranges(image, stack)) && AllAccepted(Ranges(image, stack))
    ensures LaidOut(k3, v, image, stack)
  {}

  /** The end of a process_new that could not map the program: all is given back but what was loaded. */
  method Unmap(kern: Kernel, s: Structures, ghost k0: Kern, ghost held: set<u32>)
    requires kern.Valid() && Begun(k0, kern.k, s.vspace) && s.vspace in kern.k.spaces
    requires AllHeld(kern.k, held + Blocks(s)) && Blocks(s) !! held && Separate(s)
    modifies kern, kern.heap.entries
    ensures kern.Valid() && Failed(k0, kern.k, held + LoadedBlocks(s.loaded))
    ensures Closed(AfterKfree(old(kern.k), s.stack), s.vspace, s.task, s.process, kern.k)
    ensures GivenBack(kern.k, {s.process, s.stack, s.task})
  {
    hide Inv, AllHeld, Begun, Ended, Closed;
    ghost var k1 := kern.k;
    ghost var more, rest := AfterStack(s, held);
    NoWork(k1, None);
    Give(kern, s.stack, k1, more, {});
    CloseTask(kern, s, k1, rest, {} + {s.stack});
    assert {} + {s.stack} + {s.task} + {s.process} == {s.process, s.stack, s.task};
    FewerHeld(kern.k, rest - {s.task} - {s.process}, held + LoadedBlocks(s.loaded));
    UndoneNow(k0, k1, kern.k, s.vspace);
  }

  lemma UndoneNow(k0: Kern, k1: Kern, k2: Kern, v: u32)
    requires Begun(k0, k1, v) && Ended(k1, k2, v)
    ensures Undone(k0, k2)
  {}

  /** What is held before and after the stack is given back. */
  lemma AfterStack(s: Structures, held: set<u32>) returns (more: set<u32>, rest: set<u32>)
    requires Blocks(s) !! held && Separate(s)
    ensures more == held + Blocks(s) && s.stack in more && rest == more - {s.stack}
    ensures s.task in rest && s.process in rest && s.task != s.process && LoadedBlocks(s.loaded) <= rest
    ensures held <= rest - LoadedBlocks(s.loaded) - {s.task} - {s.process}
    ensures held + LoadedBlocks(s.loaded) <= rest - {s.task} - {s.process}
    ensures s.task in rest - LoadedBlocks(s.loaded) && s.process in rest - LoadedBlocks(s.loaded)
    ensures s.loaded.ElfFile? ==> s.loaded.file != s.loaded.data
  {
    more := held + Blocks(s);
    rest := more - {s.stack};
  }

  /** close_task or task_kill, with its two kfree calls for the task, and the kfree of the process. */
  method CloseTask(kern: Kernel, s: Structures, ghost k0: Kern, ghost held: set<u32>, ghost gone: set<u32>)
    requires kern.Valid() && Since(k0, kern.k, held) && s.vspace in kern.k.spaces && GivenBack(kern.k, gone)
    requires s.task in held && s.process in held && s.task != s.process
    modifies kern, kern.heap.entries
    ensures kern.Valid() && Ended(k0, kern.k, s.vspace) && AllHeld(kern.k, held - {s.task} - {s.process})
    ensures Closed(old(kern.k), s.vspace, s.task, s.process, kern.k)
    ensures GivenBack(kern.k, gone + {s.task} + {s.process}) && Room(kern.k) == old(Room(kern.k)) + 1026 + 2
  {
    hide Inv, AllHeld, Work, Destroyed, GivenBack;
    ghost var k1 := kern.k;
    kern.DestroySpace(s.vspace);
    ghost var k2 := kern.k;
    DestroyedHolds(k1, s.vspace, k2, held);
    DestroyedGives(k1, s.vspace, k2, gone);
    NoWork(k2, None);
    Give(kern, s.task, k2, held, gone);
    GiveAgain(kern, s.task);
    Give(kern, s.process, k2, held - {s.task}, gone + {s.task});
    assert Ended(k0, kern.k, s.vspace);
  }

  /**
    In the new space of a program whose segments are as ElfLayout asks, every byte of a segment is the byte of the
    file at its offset, writable exactly when the header asks for it; the stack is the stack allocation, writable;
    every other page is mapped to itself, open to users and not writable.
   */
  lemma ProgramInPlace(k: Kern, v: u32, data: u32, phdrs: seq<Phdr>, stack: u32)
    requires LaidOut(k, v, Elf(data, phdrs), stack) && Loadable(data, phdrs, stack)
    ensures v in Flats(k)
    ensures var g := Flats(k)[v];
            && (forall j :: 0 <= j < |phdrs| ==>
                  && MapsBytes(g, phdrs[j].vaddr, phdrs[j].memsz, data + phdrs[j].offset)
                  && HasAccess(g, phdrs[j].vaddr, phdrs[j].memsz, phdrs[j].flags / 2 % 2 == 1))
            && MapsBytes(g, 0x3f_b000, 0x4000, stack) && HasAccess(g, 0x3f_b000, 0x4000, true)
    ensures var g := Flats(k)[v];
            forall a: u32 :: !(0x3f_b000 <= a < 0x3f_f000)
                             && (forall j :: 0 <= j < |phdrs| ==> !SegmentPage(phdrs[j], a / 4096)) ==>
                               Phys(g, a) == a && g[a / 4096] == Or(4096 * (a / 4096), 5)
  {
    ElfLayout(Identity(TASK_FLAGS), data, phdrs, stack);
    IdentityIs(TASK_FLAGS);
    forall a: u32 | !(0x3f_b000 <= a < 0x3f_f000) && forall j :: 0 <= j < |phdrs| ==> !SegmentPage(phdrs[j], a / 4096)
      ensures Phys(Flats(k)[v], a) == a && Flats(k)[v][a / 4096] == Or(4096 * (a / 4096), 5)
    {
      assert !StackPage(a / 4096);
      assert Phys(Identity(TASK_FLAGS), a) == a;
    }
  }

  // ---------- process_kill ----------

  /** The memory part of process_kill: every allocation of the process is given back, and all its space but the directory. */
  method ReleaseProcess(kern: Kernel, s: Structures, ghost held: set<u32>)
    requires kern.Valid() && AllHeld(kern.k, held + Blocks(s)) && Blocks(s) !! held && Separate(s)
    requires s.vspace in kern.k.spaces
    modifies kern, kern.heap.entries
    ensures kern.Valid() && Ended(old(kern.k), kern.k, s.vspace) && AllHeld(kern.k, held)
    ensures GivenBack(kern.k, Blocks(s)) && Room(kern.k) == old(Room(kern.k)) + 1026 + |Blocks(s)|
  {
    hide Inv, AllHeld, Ended, GivenBack, Blocks, LoadedBlocks, Separate;
    ghost var k0 := kern.k;
    ghost var more, rest := AfterStack(s, held);
    NoWork(k0, None);
    NothingBack(k0);
    Give(kern, s.stack, k0, more, {});
    CloseFile(kern, s.loaded, k0, rest, {} + {s.stack});
    CloseTask(kern, s, k0, rest - LoadedBlocks(s.loaded), {} + {s.stack} + LoadedBlocks(s.loaded));
    PartsSum(s);
    BlocksNumber(s);
    FewerHeld(kern.k, rest - LoadedBlocks(s.loaded) - {s.task} - {s.process}, held);
  }

  lemma PartsSum(s: Structures)
    ensures {} + {s.stack} + LoadedBlocks(s.loaded) + {s.task} + {s.process} == Blocks(s)
  {}

  lemma NothingBack(k: Kern)
    ensures GivenBack(k, {})
  {}

  /** gloader_close_elf, or the kfree of a flat binary. */
  method CloseFile(kern: Kernel, loaded: Loaded, ghost k0: Kern, ghost held: set<u32>, ghost gone: set<u32>)
    requires kern.Valid() && Since(k0, kern.k, held) && LoadedBlocks(loaded) <= held && GivenBack(kern.k, gone)
    requires loaded.ElfFile? ==> loaded.file != loaded.data
    modifies kern, kern.heap.entries
    ensures kern.Valid() && Since(k0, kern.k, held - LoadedBlocks(loaded)) && kern.k.spaces == old(kern.k.spaces)
    ensures GivenBack(kern.k, gone + LoadedBlocks(loaded))
    ensures Room(kern.k) == old(Room(kern.k)) + if loaded.ElfFile? then 2 else 1
  {
    hide Inv, AllHeld, Work, GivenBack;
    match loaded {
      case ElfFile(file, data) =>
        Give(kern, data, k0, held, gone);
        Give(kern, file, k0, held - {data}, gone + {data});
        assert held - {data} - {file} == held - {file, data} && gone + {data} + {file} == gone + {file, data};
      case RawData(raw) =>
        Give(kern, raw, k0, held, gone);
    }
  }
}
