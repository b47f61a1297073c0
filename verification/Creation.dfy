/** Creating a process: which allocations it makes, how it ends, and when it succeeds. */
module Creation {
  import opened Options
  import opened Words
  import opened HeapTable
  import opened Memory
  import opened Paging
  import opened PageRanges
  import opened KernelHeap
  import opened AddressSpaces
  import opened HeldBlocks
  import opened Loader
  import opened Processes

  /** The sizes of the kernel's structures, and of a process's stack. */
  const PROCESS_BYTES: u32 := 9760
  const ELF_FILE_BYTES: u32 := 536
  const TASK_BYTES: u32 := 64
  const STACK_BYTES: u32 := 65536

  const TASK_FLAGS: byte := PRESENT + USER

  /** What opening, reading and checking the file of a program comes to. */
  datatype File =
    | Missing
    | Unreadable(size: u32)
    | Plain(size: u32)
    | Program(size: u32, phdrs: seq<Phdr>)

  /** The memory a program's file was loaded to. */
  datatype Loaded = ElfFile(file: u32, data: u32) | RawData(raw: u32)

  /** The addresses that the structures of a process hold. */
  datatype Structures = Structures(process: u32, stack: u32, loaded: Loaded, task: u32, vspace: u32)

  function LoadedBlocks(x: Loaded): set<u32>
  {
    match x
    case ElfFile(file, data) => {file, data}
    case RawData(raw) => {raw}
  }

  /** The allocations of a process. */
  function Blocks(s: Structures): set<u32>
  {
    {s.process, s.stack, s.task} + LoadedBlocks(s.loaded)
  }

  predicate Separate(s: Structures)
  {
    && s.process != s.stack && s.process != s.task && s.stack != s.task
    && (s.loaded.ElfFile? ==> s.loaded.file != s.loaded.data)
    && {s.process, s.stack, s.task} !! LoadedBlocks(s.loaded)
  }

  lemma BlocksNumber(s: Structures)
    requires Separate(s)
    ensures |Blocks(s)| == 3 + |LoadedBlocks(s.loaded)| && |LoadedBlocks(s.loaded)| == if s.loaded.ElfFile? then 2 else 1
  {
    assert |{s.process, s.stack, s.task}| == 3;
  }

  /** What the file was loaded as: only a program as one, but also a program as a flat binary. */
  predicate LoadedAs(file: File, x: Loaded)
  {
    (x.ElfFile? ==> file.Program?) && (x.RawData? ==> file.Plain? || file.Program?)
  }

  function ImageOf(file: File, x: Loaded): Image
    requires LoadedAs(file, x)
  {
    match x
    case ElfFile(_, data) => Elf(data, file.phdrs)
    case RawData(raw) => Binary(raw, file.size)
  }

  /** What is mapped for a process. */
  function AllRanges(file: File, s: Structures): seq<Range>
    requires LoadedAs(file, s.loaded)
  {
    Ranges(ImageOf(file, s.loaded), s.stack)
  }

  // ---------- The allocations ----------

  /** k' is what kzalloc makes of k, and r what it returns. */
  ghost predicate Kzalloced(k: Kern, size: u32, r: u32, k': Kern)
  {
    HeapInv(k) && r == KzallocResult(k, size) && k' == AfterKzalloc(k, size)
  }

  ghost predicate TwoTaken(k: Kern, process: u32, stack: u32, k': Kern)
  {
    process != 0 && stack != 0 &&
    exists k1 :: Kzalloced(k, PROCESS_BYTES, process, k1) && Kzalloced(k1, STACK_BYTES, stack, k')
  }

  ghost predicate ElfLoaded(k: Kern, file: File, elf: u32, data: u32, k': Kern)
  {
    file.Program? && elf != 0 && data != 0 &&
    exists k1 :: Kzalloced(k, ELF_FILE_BYTES, elf, k1) && Kzalloced(k1, file.size, data, k')
  }

  /** Without memory, or no program: what was taken is given back. */
  ghost predicate NoElf(k: Kern, file: File, k': Kern)
  {
    || (file.Missing? && k' == k)
    || (!file.Missing? && Kzalloced(k, ELF_FILE_BYTES, 0, k'))
    || (!file.Missing? && exists elf, data, k1, k2 :: ElfUndone(k, file, elf, data, k1, k2, k'))
  }

  ghost predicate ElfUndone(k: Kern, file: File, elf: u32, data: u32, k1: Kern, k2: Kern, k': Kern)
    requires !file.Missing?
  {
    && elf != 0 && Kzalloced(k, ELF_FILE_BYTES, elf, k1) && Kzalloced(k1, file.size, data, k2)
    && (data == 0 || !file.Program?)
    && k' == if data == 0 then AfterKfree(k2, elf) else AfterKfree(AfterKfree(k2, elf), data)
  }

  ghost predicate BinaryLoaded(k: Kern, file: File, raw: u32, k': Kern)
  {
    (file.Plain? || file.Program?) && raw != 0 && Kzalloced(k, file.size, raw, k')
  }

  ghost predicate NoBinary(k: Kern, file: File, k': Kern)
  {
    || (file.Missing? && k' == k)
    || (!file.Missing? && Kzalloced(k, file.size, 0, k'))
    || (file.Unreadable? && exists raw, k1 :: raw != 0 && Kzalloced(k, file.size, raw, k1) && k' == AfterKfree(k1, raw))
  }

  /** As a program, or when that fails as a flat binary. */
  ghost predicate FileLoaded(k: Kern, file: File, x: Loaded, k': Kern)
  {
    match x
    case ElfFile(elf, data) => ElfLoaded(k, file, elf, data, k')
    case RawData(raw) => exists k1 :: NoElf(k, file, k1) && BinaryLoaded(k1, file, raw, k')
  }

  ghost predicate NotLoaded(k: Kern, file: File, k': Kern)
  {
    exists k1 :: NoElf(k, file, k1) && NoBinary(k1, file, k')
  }

  ghost predicate FileAt(k: Kern, file: File, s: Structures, k': Kern)
  {
    exists k1 :: TwoTaken(k, s.process, s.stack, k1) && FileLoaded(k1, file, s.loaded, k')
  }

  /** All allocations are made, and the address space is next. */
  ghost predicate AtSpace(k: Kern, file: File, s: Structures, k': Kern)
  {
    s.task != 0 && exists k1 :: FileAt(k, file, s, k1) && Kzalloced(k1, TASK_BYTES, s.task, k')
  }

  lemma AnySpace(k: Kern, file: File, s: Structures, v: u32, k': Kern)
    requires AtSpace(k, file, s, k')
    ensures AtSpace(k, file, s.(vspace := v), k')
  {
    var k1: Kern :| FileAt(k, file, s, k1) && Kzalloced(k1, TASK_BYTES, s.task, k');
    assert FileAt(k, file, s.(vspace := v), k1);
  }

  // ---------- How it ends ----------

  /** The first step that fails, if any does: each is a condition on the state before and the file alone. */
  ghost predicate OutcomeIs(k: Kern, file: File, o: Outcome)
  {
    match o
    case ProcessFails => HeapInv(k) && KzallocResult(k, PROCESS_BYTES) == 0
    case StackFails => exists process, k1 ::
      process != 0 && Kzalloced(k, PROCESS_BYTES, process, k1) && HeapInv(k1) && KzallocResult(k1, STACK_BYTES) == 0
    case LoadFails => exists process, stack, k1, k2 :: TwoTaken(k, process, stack, k1) && NotLoaded(k1, file, k2)
    case TaskFails => exists s, k1 :: FileAt(k, file, s, k1) && HeapInv(k1) && KzallocResult(k1, TASK_BYTES) == 0
    case MapFails => exists s, k1 ::
      AtSpace(k, file, s, k1) && LoadedAs(file, s.loaded) && !AllAccepted(AllRanges(file, s))
    case Succeeds => exists s, k1 ::
      AtSpace(k, file, s, k1) && LoadedAs(file, s.loaded) && AllAccepted(AllRanges(file, s))
  }

  lemma ElfOnce(k: Kern, file: File, elf: u32, data: u32, k1: Kern)
    requires ElfLoaded(k, file, elf, data, k1)
    ensures forall k2 :: !NoElf(k, file, k2)
    ensures forall e, d, k2 :: ElfLoaded(k, file, e, d, k2) ==> e == elf && d == data && k2 == k1
  {}

  lemma NoElfOnce(k: Kern, file: File, k1: Kern, k2: Kern)
    requires NoElf(k, file, k1) && NoElf(k, file, k2)
    ensures k1 == k2
  {}

  lemma FileOnce(k: Kern, file: File, x: Loaded, k1: Kern)
    requires FileLoaded(k, file, x, k1)
    ensures forall k2 :: !NotLoaded(k, file, k2)
    ensures forall y, k2 :: FileLoaded(k, file, y, k2) ==> y == x && k2 == k1
  {
    hide ElfLoaded, NoElf, HeapInv;
    match x {
      case ElfFile(elf, data) =>
        ElfOnce(k, file, elf, data, k1);
      case RawData(raw) =>
        var k0: Kern :| NoElf(k, file, k0) && BinaryLoaded(k0, file, raw, k1);
        forall k2 | NoElf(k, file, k2)
          ensures k2 == k0
        {
          NoElfOnce(k, file, k0, k2);
        }
        forall e, d, k2
          ensures !ElfLoaded(k, file, e, d, k2)
        {
          if ElfLoaded(k, file, e, d, k2) {
            ElfOnce(k, file, e, d, k2);
          }
        }
    }
  }

  ghost function AfterTwo(k: Kern): Kern
    requires HeapInv(k)
  {
    KzallocHeap(k, PROCESS_BYTES);
    AfterKzalloc(AfterKzalloc(k, PROCESS_BYTES), STACK_BYTES)
  }

  lemma TwoOnce(k: Kern, process: u32, stack: u32, k1: Kern)
    requires TwoTaken(k, process, stack, k1)
    ensures HeapInv(k) && HeapInv(AfterKzalloc(k, PROCESS_BYTES)) && k1 == AfterTwo(k)
    ensures process == KzallocResult(k, PROCESS_BYTES) != 0
    ensures stack == KzallocResult(AfterKzalloc(k, PROCESS_BYTES), STACK_BYTES) != 0
  {}

  lemma FileAtOnce(k: Kern, file: File, s: Structures, k1: Kern)
    requires FileAt(k, file, s, k1)
    ensures HeapInv(k) && TwoTaken(k, s.process, s.stack, AfterTwo(k)) && FileLoaded(AfterTwo(k), file, s.loaded, k1)
  {
    var k0: Kern :| TwoTaken(k, s.process, s.stack, k0) && FileLoaded(k0, file, s.loaded, k1);
    TwoOnce(k, s.process, s.stack, k0);
  }

  /** Two ways to have loaded the file are one. */
  lemma FilesAgree(k: Kern, file: File, s: Structures, k1: Kern, t: Structures, k2: Kern)
    requires FileAt(k, file, s, k1) && FileAt(k, file, t, k2)
    ensures t.process == s.process && t.stack == s.stack && t.loaded == s.loaded && k2 == k1
  {
    FileAtOnce(k, file, s, k1);
    FileAtOnce(k, file, t, k2);
    TwoOnce(k, s.process, s.stack, AfterTwo(k));
    TwoOnce(k, t.process, t.stack, AfterTwo(k));
    FileOnce(AfterTwo(k), file, s.loaded, k1);
  }

  lemma SpacesAgree(k: Kern, file: File, s: Structures, k1: Kern, t: Structures, k2: Kern)
    requires AtSpace(k, file, s, k1) && AtSpace(k, file, t, k2)
    ensures t == s.(vspace := t.vspace) && k2 == k1
  {
    var a: Kern :| FileAt(k, file, s, a) && Kzalloced(a, TASK_BYTES, s.task, k1);
    var b: Kern :| FileAt(k, file, t, b) && Kzalloced(b, TASK_BYTES, t.task, k2);
    FilesAgree(k, file, s, a, t, b);
  }

  /** The process's and the stack's allocation decide the first two outcomes. */
  lemma EarlyOutcome(k: Kern, file: File, o: Outcome)
    requires OutcomeIs(k, file, o)
    ensures HeapInv(k) && HeapInv(AfterKzalloc(k, PROCESS_BYTES))
    ensures o == ProcessFails <==> KzallocResult(k, PROCESS_BYTES) == 0
    ensures o == StackFails <==>
            KzallocResult(k, PROCESS_BYTES) != 0 && KzallocResult(AfterKzalloc(k, PROCESS_BYTES), STACK_BYTES) == 0
  {
    hide TwoTaken, NotLoaded, FileAt, AtSpace;
    match o {
      case ProcessFails => KzallocHeap(k, PROCESS_BYTES);
      case StackFails =>
      case LoadFails =>
        var process: u32, stack: u32, k1: Kern, k2: Kern :| TwoTaken(k, process, stack, k1) && NotLoaded(k1, file, k2);
        TwoOnce(k, process, stack, k1);
      case TaskFails =>
        var s: Structures, k1: Kern :| FileAt(k, file, s, k1) && HeapInv(k1) && KzallocResult(k1, TASK_BYTES) == 0;
        FileTwo(k, file, s, k1);
      case MapFails =>
        var s: Structures, k1: Kern :|
          AtSpace(k, file, s, k1) && LoadedAs(file, s.loaded) && !AllAccepted(AllRanges(file, s));
        SpaceTwo(k, file, s, k1);
      case Succeeds =>
        var s: Structures, k1: Kern :|
          AtSpace(k, file, s, k1) && LoadedAs(file, s.loaded) && AllAccepted(AllRanges(file, s));
        SpaceTwo(k, file, s, k1);
    }
  }

  lemma FileTwo(k: Kern, file: File, s: Structures, k1: Kern)
    requires FileAt(k, file, s, k1)
    ensures HeapInv(k) && HeapInv(AfterKzalloc(k, PROCESS_BYTES)) && KzallocResult(k, PROCESS_BYTES) != 0
    ensures KzallocResult(AfterKzalloc(k, PROCESS_BYTES), STACK_BYTES) != 0
    ensures forall process, stack, k2, k3 :: TwoTaken(k, process, stack, k2) ==> !NotLoaded(k2, file, k3)
  {
    FileAtOnce(k, file, s, k1);
    TwoOnce(k, s.process, s.stack, AfterTwo(k));
    FileOnce(AfterTwo(k), file, s.loaded, k1);
    forall process, stack, k2 | TwoTaken(k, process, stack, k2)
      ensures k2 == AfterTwo(k)
    {
      TwoOnce(k, process, stack, k2);
    }
  }

  lemma SpaceTwo(k: Kern, file: File, s: Structures, k1: Kern)
    requires AtSpace(k, file, s, k1)
    ensures HeapInv(k) && HeapInv(AfterKzalloc(k, PROCESS_BYTES)) && KzallocResult(k, PROCESS_BYTES) != 0
    ensures KzallocResult(AfterKzalloc(k, PROCESS_BYTES), STACK_BYTES) != 0
    ensures forall process, stack, k2, k3 :: TwoTaken(k, process, stack, k2) ==> !NotLoaded(k2, file, k3)
    ensures forall t, k2 :: FileAt(k, file, t, k2) && HeapInv(k2) ==> KzallocResult(k2, TASK_BYTES) != 0
  {
    var a: Kern :| FileAt(k, file, s, a) && Kzalloced(a, TASK_BYTES, s.task, k1);
    FileTwo(k, file, s, a);
    forall t, k2 | FileAt(k, file, t, k2)
      ensures k2 == a
    {
      FilesAgree(k, file, s, a, t, k2);
    }
  }

  /** No state and file have two outcomes. */
  lemma OneOutcome(k: Kern, file: File, o: Outcome, p: Outcome)
    requires OutcomeIs(k, file, o) && OutcomeIs(k, file, p)
    ensures o == p
  {
    hide OutcomeIs;
    EarlyOutcome(k, file, o);
    EarlyOutcome(k, file, p);
    if o == LoadFails || p == LoadFails {
      LateOutcome(k, file, if o == LoadFails then p else o);
    } else if o == TaskFails || p == TaskFails {
      LateOutcome(k, file, if o == TaskFails then p else o);
    } else if o == MapFails && p == Succeeds {
      Acceptance(k, file);
    } else if o == Succeeds && p == MapFails {
      Acceptance(k, file);
    }
  }

  lemma LateOutcome(k: Kern, file: File, o: Outcome)
    requires OutcomeIs(k, file, o)
    ensures o == TaskFails || o == MapFails || o == Succeeds ==> !OutcomeIs(k, file, LoadFails)
    ensures o == MapFails || o == Succeeds ==> !OutcomeIs(k, file, TaskFails)
  {
    hide TwoTaken, NotLoaded, FileAt, AtSpace, HeapInv;
    if o == TaskFails {
      var s: Structures, k1: Kern :| FileAt(k, file, s, k1) && HeapInv(k1) && KzallocResult(k1, TASK_BYTES) == 0;
      FileTwo(k, file, s, k1);
    } else if o == MapFails || o == Succeeds {
      var s: Structures, k1: Kern :| AtSpace(k, file, s, k1);
      SpaceTwo(k, file, s, k1);
    }
  }

  lemma Acceptance(k: Kern, file: File)
    ensures !(OutcomeIs(k, file, MapFails) && OutcomeIs(k, file, Succeeds))
  {
    forall s: Structures, k1: Kern, t: Structures, k2: Kern | AtSpace(k, file, s, k1) && AtSpace(k, file, t, k2)
      ensures t.loaded == s.loaded && t.stack == s.stack
    {
      SpacesAgree(k, file, s, k1, t, k2);
    }
  }

  // ---------- The state it ends in ----------

  ghost predicate SpaceMapped(k: Kern, v: u32, rs: seq<Range>, k': Kern)
  {
    exists k1 :: Created(k, TASK_FLAGS, v, k1) && v in k1.spaces && k' == RangesMapped(k1, v, rs)
  }

  ghost predicate Closed(k: Kern, v: u32, task: u32, process: u32, k': Kern)
  {
    exists k1 :: Destroyed(k, v, k1, false) && k' == AfterKfree(AfterKfree(k1, task), process)
  }

  ghost function TwoGiven(k: Kern, s: Structures): Kern
  {
    AfterKfree(AfterKfree(k, s.stack), s.process)
  }

  /** What creating a process makes of the state before: all that is allocated and given back, for every outcome. */
  ghost predicate Ends(k: Kern, file: File, o: Outcome, s: Structures, k': Kern)
  {
    match o
    case ProcessFails => Kzalloced(k, PROCESS_BYTES, 0, k')
    case StackFails => exists k1, k2 ::
      && s.process != 0 && Kzalloced(k, PROCESS_BYTES, s.process, k1) && Kzalloced(k1, STACK_BYTES, 0, k2)
      && k' == AfterKfree(k2, s.process)
    case LoadFails => exists k1, k2 ::
      TwoTaken(k, s.process, s.stack, k1) && NotLoaded(k1, file, k2) && k' == TwoGiven(k2, s)
    case TaskFails => exists k1, k2 :: FileAt(k, file, s, k1) && Kzalloced(k1, TASK_BYTES, 0, k2) && k' == TwoGiven(k2, s)
    case MapFails => LoadedAs(file, s.loaded) && !AllAccepted(AllRanges(file, s)) && exists k1, k2 ::
      && AtSpace(k, file, s, k1) && SpaceMapped(k1, s.vspace, AllRanges(file, s), k2)
      && Closed(AfterKfree(k2, s.stack), s.vspace, s.task, s.process, k')
    case Succeeds => LoadedAs(file, s.loaded) && AllAccepted(AllRanges(file, s)) && exists k1 ::
      AtSpace(k, file, s, k1) && SpaceMapped(k1, s.vspace, AllRanges(file, s), k')
  }

  lemma EndsIs(k: Kern, file: File, o: Outcome, s: Structures, k': Kern)
    requires Ends(k, file, o, s, k')
    ensures OutcomeIs(k, file, o)
  {
    hide TwoTaken, NotLoaded, FileAt, AtSpace, SpaceMapped, Closed;
  }

  /** What a failure has given back; the file, once it is loaded, is not part of it. */
  function Returned(o: Outcome, s: Structures): set<u32>
  {
    match o
    case ProcessFails => {}
    case StackFails => {s.process}
    case LoadFails => {s.process, s.stack}
    case TaskFails => {s.process, s.stack}
    case MapFails => {s.process, s.stack, s.task}
    case Succeeds => {}
  }

  // ---------- Enough memory ----------

  /** Where creating a process comes to create the space, 1027 blocks are free, as the code does not check it. */
  ghost predicate Enough(k: Kern, file: File)
  {
    forall s, k' :: AtSpace(k, file, s, k') ==> Room(k') >= BLOCKS
  }

  function FileBlocks(file: File): nat
  {
    if file.Missing? then 0 else BlocksFor(file.size)
  }

  /** The blocks that loading a file goes through: a file that is no program is read twice. */
  function FileRoom(file: File): nat
  {
    1 + FileBlocks(file) + if file.Program? then 0 else FileBlocks(file)
  }

  lemma StructureBlocks()
    ensures BlocksFor(PROCESS_BYTES) == 3 && BlocksFor(ELF_FILE_BYTES) == 1 && BlocksFor(TASK_BYTES) == 1
    ensures BlocksFor(STACK_BYTES) == 16
  {}

  /** A number of free blocks that is always enough. */
  lemma EnoughBlocks(k: Kern, file: File)
    requires Room(k) >= BLOCKS + 3 + 16 + 1 + 1 + 2 * FileBlocks(file)
    ensures Enough(k, file)
  {
    StructureBlocks();
    forall s, k' | AtSpace(k, file, s, k')
      ensures Room(k') >= BLOCKS
    {
      var k3: Kern :| FileAt(k, file, s, k3) && Kzalloced(k3, TASK_BYTES, s.task, k');
      var k2: Kern :| TwoTaken(k, s.process, s.stack, k2) && FileLoaded(k2, file, s.loaded, k3);
      TwoRoom(k, s.process, s.stack, k2);
      LoadedRoom(k2, file, s.loaded, k3);
      KzallocRoom(k3, TASK_BYTES);
    }
  }

  lemma TwoRoom(k: Kern, process: u32, stack: u32, k': Kern)
    requires TwoTaken(k, process, stack, k')
    ensures Room(k') + 19 >= Room(k)
  {
    StructureBlocks();
    KzallocRoom(k, PROCESS_BYTES);
    KzallocRoom(AfterKzalloc(k, PROCESS_BYTES), STACK_BYTES);
  }

  lemma LoadedRoom(k: Kern, file: File, x: Loaded, k': Kern)
    requires FileLoaded(k, file, x, k')
    ensures Room(k') + 1 + 2 * FileBlocks(file) >= Room(k)
  {
    StructureBlocks();
    if x.ElfFile? {
      ElfRoom(k, file);
    } else {
      var k1: Kern :| NoElf(k, file, k1) && BinaryLoaded(k1, file, x.raw, k');
      NoElfRoom(k, file, k1);
      KzallocRoom(k1, file.size);
    }
  }

  /** Two allocations: the structure and the file. */
  lemma ElfRoom(k: Kern, file: File)
    requires HeapInv(k) && !file.Missing?
    ensures var k1 := AfterKzalloc(k, ELF_FILE_BYTES);
            Room(k1) + 1 >= Room(k) && (HeapInv(k1) ==> Room(AfterKzalloc(k1, file.size)) + 1 + FileBlocks(file) >= Room(k))
  {
    StructureBlocks();
    var k1 := AfterKzalloc(k, ELF_FILE_BYTES);
    KzallocRoom(k, ELF_FILE_BYTES);
    if HeapInv(k1) {
      KzallocRoom(k1, file.size);
    }
  }

  lemma NoElfRoom(k: Kern, file: File, k': Kern)
    requires NoElf(k, file, k')
    ensures Room(k') + 1 + FileBlocks(file) >= Room(k)
  {
    if !file.Missing? {
      ElfRoom(k, file);
      if !Kzalloced(k, ELF_FILE_BYTES, 0, k') {
        var elf: u32, data: u32, k1: Kern, k2: Kern :| ElfUndone(k, file, elf, data, k1, k2, k');
        KfreeRoom(k2, elf);
        KfreeRoom(AfterKfree(k2, elf), data);
      }
    }
  }

  // ---------- When it succeeds ----------

  /** The segments of a program lie inside its file. */
  ghost predicate SegmentsInside(file: File)
  {
    file.Program? ==> forall j :: 0 <= j < |file.phdrs| ==> file.phdrs[j].offset + file.phdrs[j].memsz <= file.size
  }

  /** An allocation lies between the ends of the heap, from a whole block on. */
  ghost predicate InsideHeap(k: Kern, a: u32, size: nat)
  {
    a % PAGE_SIZE == 0 && a + size <= k.base + BLOCK_SIZE * |k.table|
  }

  lemma KzallocInside(k: Kern, size: u32)
    requires HeapInv(k) && KzallocResult(k, size) != 0
    ensures InsideHeap(k, KzallocResult(k, size), size)
  {
    MallocSound(k.base, k.table, size);
  }

  /** From n on the heap is free; k has the same heap. */
  ghost predicate Ready(k: Kern, base: u32, size: nat, n: nat)
  {
    HeapInv(k) && k.base == base && |k.table| == size && FreeFrom(k.table, n)
  }

  lemma ReadyKzalloc(k: Kern, base: u32, total: nat, n: nat, size: u32)
    requires Ready(k, base, total, n) && 0 < BlocksFor(size) <= total - n
    ensures KzallocResult(k, size) != 0 && InsideHeap(k, KzallocResult(k, size), size)
    ensures Kzalloced(k, size, KzallocResult(k, size), AfterKzalloc(k, size))
    ensures Ready(AfterKzalloc(k, size), base, total, n + BlocksFor(size))
    ensures BlockOf(base, KzallocResult(k, size)) !in k.live
    ensures BlockOf(base, KzallocResult(k, size)) in AfterKzalloc(k, size).live
    ensures k.live.Keys <= AfterKzalloc(k, size).live.Keys
  {
    KzallocFits(k, size, n);
    KzallocInside(k, size);
    MoreLive(k, size);
    NewRun(k, size);
  }

  lemma NewRun(k: Kern, size: u32)
    requires HeapInv(k) && KzallocResult(k, size) != 0
    ensures BlockOf(k.base, KzallocResult(k, size)) !in k.live
    ensures BlockOf(k.base, KzallocResult(k, size)) in AfterKzalloc(k, size).live
  {
    MallocSound(k.base, k.table, size);
    RoundingNeverShort(size);
    var s := FirstFit(k.table, BlocksFor(size)).value;
    assert KzallocResult(k, size) == k.base + BLOCK_SIZE * s && k.table[s] == FREE;
    if s in k.live {
      assert Covers(k.live, s, s);
    }
  }

  /** The process and its stack. */
  lemma PlentyTwo(k: Kern, base: u32, total: nat, n: nat) returns (process: u32, stack: u32, k': Kern)
    requires Ready(k, base, total, n) && n + 19 <= total
    ensures TwoTaken(k, process, stack, k') && Ready(k', base, total, n + 19)
    ensures stack % PAGE_SIZE == 0 && stack + STACK_BYTES <= base + BLOCK_SIZE * total
  {
    StructureBlocks();
    ReadyKzalloc(k, base, total, n, PROCESS_BYTES);
    process := KzallocResult(k, PROCESS_BYTES);
    var k1 := AfterKzalloc(k, PROCESS_BYTES);
    ReadyKzalloc(k1, base, total, n + 3, STACK_BYTES);
    stack, k' := KzallocResult(k1, STACK_BYTES), AfterKzalloc(k1, STACK_BYTES);
  }

  /** A program as one. */
  lemma PlentyElf(k: Kern, file: File, base: u32, total: nat, n: nat) returns (x: Loaded, k': Kern)
    requires Ready(k, base, total, n) && file.Program? && 0 < FileBlocks(file) && n + FileRoom(file) <= total
    ensures FileLoaded(k, file, x, k') && Ready(k', base, total, n + FileRoom(file)) && x.ElfFile?
    ensures x.data % PAGE_SIZE == 0 && x.data + file.size <= base + BLOCK_SIZE * total
  {
    StructureBlocks();
    ReadyKzalloc(k, base, total, n, ELF_FILE_BYTES);
    var k1 := AfterKzalloc(k, ELF_FILE_BYTES);
    ReadyKzalloc(k1, base, total, n + 1, file.size);
    x := ElfFile(KzallocResult(k, ELF_FILE_BYTES), KzallocResult(k1, file.size));
    k' := AfterKzalloc(k1, file.size);
  }

  /** A file that is no program, after it was loaded and given back as one. */
  lemma PlentyBinary(k: Kern, file: File, base: u32, total: nat, n: nat) returns (x: Loaded, k': Kern)
    requires Ready(k, base, total, n) && file.Plain? && 0 < FileBlocks(file) && n + FileRoom(file) <= total
    ensures FileLoaded(k, file, x, k') && Ready(k', base, total, n + FileRoom(file)) && x.RawData?
    ensures x.raw % PAGE_SIZE == 0 && x.raw + file.size <= base + BLOCK_SIZE * total
  {
    var k1 := PlentyUndone(k, file, base, total, n);
    ReadyKzalloc(k1, base, total, n + 1 + FileBlocks(file), file.size);
    x, k' := RawData(KzallocResult(k1, file.size)), AfterKzalloc(k1, file.size);
  }

  lemma PlentyUndone(k: Kern, file: File, base: u32, total: nat, n: nat) returns (k': Kern)
    requires Ready(k, base, total, n) && file.Plain? && 0 < FileBlocks(file) && n + 1 + FileBlocks(file) <= total
    ensures NoElf(k, file, k') && Ready(k', base, total, n + 1 + FileBlocks(file))
  {
    hide HeapInv, FreeFrom, BlocksFor, AfterKzalloc, AfterKfree, KzallocResult;
    StructureBlocks();
    ReadyKzalloc(k, base, total, n, ELF_FILE_BYTES);
    var elf, k1 := KzallocResult(k, ELF_FILE_BYTES), AfterKzalloc(k, ELF_FILE_BYTES);
    ReadyKzalloc(k1, base, total, n + 1, file.size);
    var data, k2 := KzallocResult(k1, file.size), AfterKzalloc(k1, file.size);
    var m := n + 1 + FileBlocks(file);
    KfreeFits(k2, elf, m);
    k' := AfterKfree(k2, elf);
    KfreeFits(k', data, m);
    k' := AfterKfree(k', data);
    assert ElfUndone(k, file, elf, data, k1, k2, k');
  }

  /** Ranges that start at aligned addresses and end below 2^32 are accepted. */
  lemma RangeFits(vaddr: u32, code: u32, size: nat, flags: nat)
    requires code + size + PAGE_SIZE <= TWO32 && flags < PAGE_SIZE
    ensures Accepted(Range(AlignLower(vaddr), AlignLower(code), AlignUpper(Plus(code, size)), flags))
  {
    LowerPage(vaddr);
    RangeSpan(code, size);
    NoWrap(code, size);
  }

  lemma StackFits(stack: u32)
    requires stack % PAGE_SIZE == 0 && stack + STACK_BYTES <= TWO32
    ensures Accepted(StackRange(stack))
  {
    StackCovers(stack, 0);
  }

  lemma SegmentFits(data: u32, ph: Phdr, size: u32)
    requires ph.offset + ph.memsz <= size && data + size + PAGE_SIZE <= TWO32
    ensures Accepted(SegmentRange(data, ph))
  {
    NoWrap(data, ph.offset);
    RangeFits(ph.vaddr, data + ph.offset, ph.memsz, SegmentAccess(ph));
  }

  lemma BinaryFits(raw: u32, size: u32)
    requires raw % PAGE_SIZE == 0 && raw + size + PAGE_SIZE <= TWO32
    ensures Accepted(BinaryRange(raw, size))
  {
    RangeFits(TASK_START, raw, size, PRESENT + WRITE + USER);
  }

  lemma AllFits(file: File, s: Structures)
    requires LoadedAs(file, s.loaded) && SegmentsInside(file) && s.stack % PAGE_SIZE == 0 && s.stack + STACK_BYTES <= TWO32
    requires !file.Missing?
    requires match s.loaded
             case ElfFile(_, data) => data + file.size + PAGE_SIZE <= TWO32
             case RawData(raw) => raw % PAGE_SIZE == 0 && raw + file.size + PAGE_SIZE <= TWO32
    ensures AllAccepted(AllRanges(file, s))
  {
    var rs := AllRanges(file, s);
    StackFits(s.stack);
    RangesAre(ImageOf(file, s.loaded), s.stack);
    forall i | 0 <= i < |rs| - 1
      ensures Accepted(rs[i])
    {
      match s.loaded {
        case ElfFile(_, data) => SegmentFits(data, file.phdrs[i], file.size);
        case RawData(raw) => BinaryFits(raw, file.size);
      }
    }
  }

  /**
    A program whose segments lie inside its file, or a file that is none, becomes a process on every heap that ends
    below the top of memory and is free, from some block on, for as many blocks as the allocations are of.
   */
  lemma PlentySucceeds(k: Kern, file: File, n: nat)
    requires HeapInv(k) && FreeFrom(k.table, n) && k.base + BLOCK_SIZE * |k.table| + PAGE_SIZE <= TWO32
    requires file.Program? || file.Plain?
    requires 0 < file.size <= 0xffff_f000 && SegmentsInside(file)
    requires n + 3 + 16 + FileRoom(file) + 1 <= |k.table|
    ensures OutcomeIs(k, file, Succeeds)
  {
    hide HeapInv, FreeFrom, TwoTaken, FileLoaded, AllAccepted, AllRanges, BlocksFor;
    var base, total := k.base, |k.table|;
    assert Ready(k, base, total, n);
    var process, stack, k1 := PlentyTwo(k, base, total, n);
    RoundingNeverShort(file.size);
    var x, k2;
    if file.Program? {
      x, k2 := PlentyElf(k1, file, base, total, n + 19);
    } else {
      x, k2 := PlentyBinary(k1, file, base, total, n + 19);
    }
    StructureBlocks();
    ReadyKzalloc(k2, base, total, n + 19 + FileRoom(file), TASK_BYTES);
    var s := Structures(process, stack, x, KzallocResult(k2, TASK_BYTES), 0);
    assert FileAt(k, file, s, k2);
    assert AtSpace(k, file, s, AfterKzalloc(k2, TASK_BYTES));
    AllFits(file, s);
  }

  // ---------- Where the program comes to lie ----------

  lemma SameHeap(k: Kern, size: u32)
    requires HeapInv(k)
    ensures AfterKzalloc(k, size).base == k.base && |AfterKzalloc(k, size).table| == |k.table|
  {}

  /**
    A program that was created is laid out as the layout theorem asks, whatever blocks it got: it is enough that its
    own headers are congruent to their offsets, inside the file, and apart from one another and from the stack.
   */
  lemma LoadableHere(k: Kern, file: File, s: Structures, k': Kern)
    requires Ends(k, file, Succeeds, s, k') && s.loaded.ElfFile?
    requires SegmentsInside(file) && k.base + BLOCK_SIZE * |k.table| + PAGE_SIZE <= TWO32
    requires forall j :: 0 <= j < |file.phdrs| ==>
               && file.phdrs[j].vaddr % 4096 == file.phdrs[j].offset % 4096
               && file.phdrs[j].vaddr + file.phdrs[j].memsz <= TWO32
    requires Apart(file.phdrs)
    ensures file.Program? && Loadable(s.loaded.data, file.phdrs, s.stack)
  {
    var k1: Kern :| AtSpace(k, file, s, k1);
    var k2: Kern :| FileAt(k, file, s, k2) && Kzalloced(k2, TASK_BYTES, s.task, k1);
    FileAtOnce(k, file, s, k2);
    TwoOnce(k, s.process, s.stack, AfterTwo(k));
    StackInside(k, s.process, s.stack, AfterTwo(k));
    DataInside(AfterTwo(k), file, s.loaded.file, s.loaded.data, k2);
  }

  lemma StackInside(k: Kern, process: u32, stack: u32, k': Kern)
    requires TwoTaken(k, process, stack, k')
    ensures InsideHeap(k, stack, STACK_BYTES) && k'.base == k.base && |k'.table| == |k.table|
  {
    var k1 := AfterKzalloc(k, PROCESS_BYTES);
    SameHeap(k, PROCESS_BYTES);
    SameHeap(k1, STACK_BYTES);
    KzallocInside(k1, STACK_BYTES);
  }

  lemma DataInside(k: Kern, file: File, elf: u32, data: u32, k': Kern)
    requires ElfLoaded(k, file, elf, data, k')
    ensures InsideHeap(k, data, file.size)
  {
    var k1 := AfterKzalloc(k, ELF_FILE_BYTES);
    SameHeap(k, ELF_FILE_BYTES);
    KzallocInside(k1, file.size);
  }
}
