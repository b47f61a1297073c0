/** Creating and destroying address spaces, and whole runs of paging operations on many spaces. */
module AddressSpaces {
  import opened Options
  import opened Words
  import opened HeapTable
  import HeapRuns
  import opened Memory
  import opened Paging
  import opened KernelHeap
  import opened PageRanges

  predicate HasBlock(first: Frame, fs: seq<Frame>, b: nat)
  {
    b < PAGES && first + b in fs
  }

  /** The heap blocks behind the given frames, in a heap that starts at frame `first`. */
  function BlocksOf(first: Frame, fs: seq<Frame>): set<nat>
  {
    set b: nat | b < PAGES && HasBlock(first, fs, b)
  }

  lemma {:induction false} BlocksCount(first: Frame, fs: seq<Frame>)
    requires forall r :: 0 <= r < |fs| ==> first <= fs[r]
    requires Distinct(fs)
    ensures |BlocksOf(first, fs)| == |fs|
  {
    if fs == [] {
      assert BlocksOf(first, fs) == {};
    } else {
      var last := |fs| - 1;
      BlocksCount(first, fs[..last]);
      OneMoreBlock(first, fs);
    }
  }

  lemma OneMoreBlock(first: Frame, fs: seq<Frame>)
    requires fs != [] && first <= fs[|fs| - 1]
    ensures BlocksOf(first, fs) == BlocksOf(first, fs[..|fs| - 1]) + {fs[|fs| - 1] - first}
  {
    var last := |fs| - 1;
    forall b: nat | b < PAGES
      ensures HasBlock(first, fs, b) <==> HasBlock(first, fs[..last], b) || b == fs[last] - first
    {
      assert fs == fs[..last] + [fs[last]];
    }
  }

  /** No free block that is left is below one of these. */
  ghost predicate Lowest(t: Table, blocks: set<nat>)
  {
    forall b, c :: b in blocks && c in FreeBlocks(t) && c !in blocks ==> b < c
  }

  /** k is k0 after its lowest free blocks, the frames fs, were taken one by one; only their pages have changed. */
  ghost predicate Taken(k0: Kern, k: Kern, fs: seq<Frame>)
  {
    && (forall r :: 0 <= r < |fs| ==> FrameOf(k0.base) <= fs[r])
    && Distinct(fs)
    && Grown(k0, k, BlocksOf(FrameOf(k0.base), fs))
    && Lowest(k0.table, BlocksOf(FrameOf(k0.base), fs))
  }

  lemma TakenNone(k: Kern)
    ensures Taken(k, k, [])
  {
    assert BlocksOf(FrameOf(k.base), []) == {};
    assert TakenTable(k.table, {}) == k.table && k.live + TakenRuns({}) == k.live;
  }

  /** One more kzalloc of at most a block, when a block is left. */
  lemma TakenOneMore(k0: Kern, k: Kern, fs: seq<Frame>, size: u32)
    requires Inv(k0) && Inv(k) && Taken(k0, k, fs) && 0 < size <= BLOCK_SIZE && |fs| < |FreeBlocks(k0.table)|
    ensures var r := KzallocResult(k, size);
            r != 0 && r == Addr(FrameOf(r)) && FrameOf(r) !in fs && Taken(k0, AfterKzalloc(k, size), fs + [FrameOf(r)])
  {
    var r := KzallocResult(k, size);
    BlockLeft(k0, k, fs);
    GrownOne(k, size);
    MallocSound(k.base, k.table, size);
    LowestFree(k, size);
    TakenExtend(k0, k, AfterKzalloc(k, size), fs, FrameOf(r));
  }

  lemma BlockLeft(k0: Kern, k: Kern, fs: seq<Frame>)
    requires Taken(k0, k, fs) && |fs| < |FreeBlocks(k0.table)|
    ensures FreeBlocks(k.table) != {}
  {
    GrownCount(k0.table, BlocksOf(FrameOf(k0.base), fs));
    BlocksCount(FrameOf(k0.base), fs);
  }

  lemma TakenExtend(k0: Kern, k: Kern, k': Kern, fs: seq<Frame>, f: Frame)
    requires Taken(k0, k, fs) && FrameOf(k0.base) <= f && Grown(k, k', {f - FrameOf(k0.base)})
    requires forall c :: c in FreeBlocks(k.table) ==> f - FrameOf(k0.base) <= c
    ensures f !in fs && Taken(k0, k', fs + [f])
  {
    var first := FrameOf(k0.base);
    var gs := fs + [f];
    GrownTrans(k0, k, k', BlocksOf(first, fs), {f - first});
    assert !HasBlock(first, fs, f - first);
    assert gs[..|fs|] == fs;
    OneMoreBlock(first, gs);
    LowestMore(k0.table, BlocksOf(first, fs), f - first);
  }

  lemma LowestMore(t: Table, blocks: set<nat>, b: nat)
    requires blocks <= FreeBlocks(t) && Lowest(t, blocks)
    requires forall c :: c in FreeBlocks(TakenTable(t, blocks)) ==> b <= c
    ensures Lowest(t, blocks + {b})
  {
    GrownCount(t, blocks);
    forall x, c | x in blocks + {b} && c in FreeBlocks(t) && c !in blocks + {b}
      ensures x < c
    {
      assert c in FreeBlocks(TakenTable(t, blocks));
    }
  }

  /** kzalloc of at most a block takes the lowest free one. */
  lemma LowestFree(k: Kern, size: u32)
    requires HeapInv(k) && 0 < size <= BLOCK_SIZE && FreeBlocks(k.table) != {}
    ensures KzallocResult(k, size) % PAGE_SIZE == 0 && FrameOf(k.base) <= FrameOf(KzallocResult(k, size))
    ensures forall c :: c in FreeBlocks(k.table) ==> FrameOf(KzallocResult(k, size)) - FrameOf(k.base) <= c
  {
    RoundingNeverShort(size);
    OneBlockFit(k.table);
    MallocSound(k.base, k.table, size);
    var s := FirstFit(k.table, 1).value;
    forall c | c in FreeBlocks(k.table)
      ensures s <= c
    {
      assert FreeRun(k.table, c, 1);
    }
  }

  /** The order in which frames were taken does not matter. */
  lemma TakenReordered(k0: Kern, k: Kern, fs: seq<Frame>, gs: seq<Frame>)
    requires Taken(k0, k, fs) && Distinct(gs) && forall f :: f in fs <==> f in gs
    ensures Taken(k0, k, gs)
  {
    var first := FrameOf(k0.base);
    forall b: nat
      ensures HasBlock(first, fs, b) <==> HasBlock(first, gs, b)
    {}
    assert BlocksOf(first, fs) == BlocksOf(first, gs);
    forall r | 0 <= r < |gs|
      ensures first <= gs[r]
    {
      assert gs[r] in fs;
    }
  }

  lemma LayoutOrder(k0: Kern, k: Kern, vf: Frame, descriptor: Frame, dir: Frame, tables: seq<Frame>)
    requires |tables| == ENTRIES && Taken(k0, k, [vf, dir] + tables + [descriptor])
    ensures Taken(k0, k, [vf, descriptor, dir] + tables)
  {
    var fs, gs := [vf, dir] + tables + [descriptor], [vf, descriptor, dir] + tables;
    forall r | 0 <= r < BLOCKS
      ensures gs[r] == fs[TakenAt(r)] && fs[r] == gs[RoleTaken(r)]
    {}
    forall r, q | 0 <= r < BLOCKS && 0 <= q < BLOCKS && gs[r] == gs[q]
      ensures r == q
    {
      assert fs[TakenAt(r)] == fs[TakenAt(q)];
    }
    TakenReordered(k0, k, fs, gs);
  }

  /** When the block of a role is taken, and the role of the block taken at some point. */
  function TakenAt(r: nat): (q: nat)
    requires r < BLOCKS
    ensures q < BLOCKS
  {
    if r == VSPACE then 0 else if r == DESCRIPTOR then BLOCKS - 1 else r - 1
  }

  function RoleTaken(q: nat): (r: nat)
    requires q < BLOCKS
    ensures r < BLOCKS
  {
    if q == 0 then VSPACE else if q == BLOCKS - 1 then DESCRIPTOR else q + 1
  }

  /** Writing to a taken page. */
  lemma TakenWrite(k0: Kern, k: Kern, fs: seq<Frame>, f: Frame, m: Mem)
    requires Inv(k0) && Taken(k0, k, fs) && f in fs && SameOutside(k.mem, m, {f})
    ensures Inv(k.(mem := m)) && Flats(k.(mem := m)) == Flats(k0) && Taken(k0, k.(mem := m), fs)
  {
    var first := FrameOf(k0.base);
    assert HasBlock(first, fs, f - first);
    GrownWrite(k0, k, BlocksOf(first, fs), m);
    GrownInv(k0, k.(mem := m), BlocksOf(first, fs));
  }

  // ---------- Creating a space ----------

  /** k' is k with a new address space v, built from free blocks, in which every page maps to itself. */
  ghost predicate Created(k: Kern, flags: byte, v: u32, k': Kern)
  {
    exists sp: Space, k1: Kern :: CreatedAs(k, flags, v, sp, k1, k')
  }

  ghost predicate CreatedAs(k: Kern, flags: byte, v: u32, sp: Space, k1: Kern, k': Kern)
  {
    && v == Addr(sp[VSPACE])
    && Taken(k, k1, sp)
    && Wired(k1.mem, sp) && Flat(k1.mem, sp) == Identity(flags)
    && (forall i :: 0 <= i < ENTRIES ==> DirEntry(k1.mem, sp, i) == Addr(sp[TABLES + i]) + Or(flags, WRITE))
    && k' == WithSpace(k1, sp)
  }

  lemma CreatedKeeps(k: Kern, flags: byte, v: u32, k': Kern)
    requires Inv(k) && Created(k, flags, v, k')
    ensures Inv(k') && v !in k.spaces
    ensures Flats(k') == Flats(k)[v := Identity(flags)]
    ensures |FreeBlocks(k'.table)| == |FreeBlocks(k.table)| - BLOCKS
  {
    var sp: Space, k1: Kern :| CreatedAs(k, flags, v, sp, k1, k');
    CreatedAsKeeps(k, flags, v, sp, k1, k');
  }

  lemma CreatedAsKeeps(k: Kern, flags: byte, v: u32, sp: Space, k1: Kern, k': Kern)
    requires Inv(k) && CreatedAs(k, flags, v, sp, k1, k')
    ensures Inv(k') && v !in k.spaces
    ensures Flats(k') == Flats(k)[v := Identity(flags)]
    ensures |FreeBlocks(k'.table)| == |FreeBlocks(k.table)| - BLOCKS
  {
    var blocks := BlocksOf(FrameOf(k.base), sp);
    GrownInv(k, k1, blocks);
    GrownCount(k.table, blocks);
    BlocksCount(FrameOf(k.base), sp);
    forall r | 0 <= r < BLOCKS
      ensures OneBlock(k1, sp[r]) && Unowned(k1, sp[r])
    {
      TakenForSpace(k, k1, sp, r);
    }
    AddSpace(k1, sp);
  }

  lemma TakenForSpace(k: Kern, k1: Kern, sp: Space, r: nat)
    requires Inv(k) && Grown(k, k1, BlocksOf(FrameOf(k.base), sp)) && r < BLOCKS && FrameOf(k.base) <= sp[r]
    ensures OneBlock(k1, sp[r]) && Unowned(k1, sp[r])
  {
    assert HasBlock(FrameOf(k.base), sp, sp[r] - FrameOf(k.base));
    GrownUnowned(k, k1, BlocksOf(FrameOf(k.base), sp), sp[r]);
  }

  /** A structure built from taken blocks becomes a live space. */
  lemma Complete(k0: Kern, k1: Kern, sp: Space, flags: byte)
    requires Inv(k0) && Taken(k0, k1, sp) && Wired(k1.mem, sp) && Flat(k1.mem, sp) == Identity(flags)
    requires forall i :: 0 <= i < ENTRIES ==> DirEntry(k1.mem, sp, i) == Addr(sp[TABLES + i]) + Or(flags, WRITE)
    ensures Inv(WithSpace(k1, sp)) && Created(k0, flags, Addr(sp[VSPACE]), WithSpace(k1, sp))
  {
    assert CreatedAs(k0, flags, Addr(sp[VSPACE]), sp, k1, WithSpace(k1, sp));
    CreatedAsKeeps(k0, flags, Addr(sp[VSPACE]), sp, k1, WithSpace(k1, sp));
  }

  // ---------- Destroying a space ----------

  /** The frames destroy_virtual_address_space gives back: as written, all but the directory itself. */
  function ReturnedFrames(sp: Space, meant: bool): seq<Frame>
  {
    sp[TABLES..] + [sp[DESCRIPTOR], sp[VSPACE]] + if meant then [sp[DIRECTORY]] else []
  }

  ghost predicate Destroyed(k: Kern, v: u32, k': Kern, meant: bool)
  {
    v in k.spaces &&
    k' == Freed(WithoutSpace(k, v), BlocksOf(FrameOf(k.base), ReturnedFrames(k.spaces[v], meant)))
  }

  lemma DestroyedKeeps(k: Kern, v: u32, k': Kern, meant: bool)
    requires Inv(k) && Destroyed(k, v, k', meant)
    ensures Inv(k')
    ensures Flats(k') == Flats(k) - {v}
    ensures |FreeBlocks(k'.table)| == |FreeBlocks(k.table)| + BLOCKS - (if meant then 0 else 1)
  {
    var sp := k.spaces[v];
    var fs := ReturnedFrames(sp, meant);
    var k1 := WithoutSpace(k, v);
    var blocks := BlocksOf(FrameOf(k.base), fs);
    RemoveSpace(k, v);
    ReturnedAreOwned(k, v, meant);
    FreedKeeps(k1, blocks);
    FreedCount(k1, blocks);
  }

  lemma ReturnedAreOwned(k: Kern, v: u32, meant: bool)
    requires Inv(k) && v in k.spaces
    ensures var blocks := BlocksOf(FrameOf(k.base), ReturnedFrames(k.spaces[v], meant));
            && OneBlockRuns(k, blocks) && |blocks| == BLOCKS - (if meant then 0 else 1)
            && forall f: Frame :: AmongBlocks(FrameOf(k.base), blocks, f) ==> Unowned(WithoutSpace(k, v), f)
  {
    var sp, fs := k.spaces[v], ReturnedFrames(k.spaces[v], meant);
    var first := FrameOf(k.base);
    SpaceDistinct(k, v);
    ReturnedDistinct(sp, meant);
    forall f | f in fs
      ensures OneBlock(k, f) && Unowned(WithoutSpace(k, v), f)
    {
      ReturnedIsOwned(k, v, meant, f);
    }
    forall r | 0 <= r < |fs|
      ensures first <= fs[r]
    {
      assert OneBlock(k, fs[r]);
    }
    BlocksCount(first, fs);
    BlocksAreRuns(k, fs);
  }

  lemma ReturnedIsOwned(k: Kern, v: u32, meant: bool, f: Frame)
    requires Inv(k) && v in k.spaces && Distinct(k.spaces[v]) && f in ReturnedFrames(k.spaces[v], meant)
    ensures OneBlock(k, f) && Unowned(WithoutSpace(k, v), f)
  {
    RemoveSpace(k, v);
    ReturnedOrDirectory(k.spaces[v], f, meant);
    var r :| 0 <= r < BLOCKS && k.spaces[v][r] == f;
  }

  lemma BlocksAreRuns(k: Kern, fs: seq<Frame>)
    requires forall f :: f in fs ==> OneBlock(k, f)
    ensures OneBlockRuns(k, BlocksOf(FrameOf(k.base), fs))
    ensures forall f: Frame :: AmongBlocks(FrameOf(k.base), BlocksOf(FrameOf(k.base), fs), f) ==> f in fs
  {
    var first := FrameOf(k.base);
    forall b | b in BlocksOf(first, fs)
      ensures b in k.live && k.live[b] == 1
    {
      var f: Frame := first + b;
      assert f in fs;
    }
    forall f: Frame | AmongBlocks(first, BlocksOf(first, fs), f)
      ensures f in fs
    {
      assert HasBlock(first, fs, f - first);
    }
  }

  lemma ReturnedDistinct(sp: Space, meant: bool)
    requires Distinct(sp)
    ensures Distinct(ReturnedFrames(sp, meant))
  {
    var fs := ReturnedFrames(sp, meant);
    forall r | 0 <= r < |fs|
      ensures fs[r] == sp[Role(r)]
    {}
  }

  /** The role of the r-th returned frame. */
  function Role(r: nat): (q: nat)
    requires r < BLOCKS
    ensures q < BLOCKS
  {
    if r < ENTRIES then r + TABLES else if r == ENTRIES then DESCRIPTOR else if r == ENTRIES + 1 then VSPACE else DIRECTORY
  }

  // ---------- Giving frames back one by one ----------

  ghost function FreedFrames(k: Kern, fs: seq<Frame>): Kern
  {
    Freed(k, BlocksOf(FrameOf(k.base), fs))
  }

  /** Distinct one-block runs that no space owns. */
  ghost predicate Returnable(k: Kern, fs: seq<Frame>)
  {
    Distinct(fs) && forall i :: 0 <= i < |fs| ==> OneBlock(k, fs[i]) && Unowned(k, fs[i])
  }

  lemma ReturnedAreLive(k: Kern, v: u32)
    requires Inv(k) && v in k.spaces
    ensures Inv(WithoutSpace(k, v)) && Returnable(WithoutSpace(k, v), ReturnedFrames(k.spaces[v], false))
  {
    RemoveSpace(k, v);
    SpaceDistinct(k, v);
    ReturnedDistinct(k.spaces[v], false);
    var fs := ReturnedFrames(k.spaces[v], false);
    forall i | 0 <= i < |fs|
      ensures OneBlock(WithoutSpace(k, v), fs[i]) && Unowned(WithoutSpace(k, v), fs[i])
    {
      ReturnedIsOwned(k, v, false, fs[i]);
    }
  }

  lemma FreedNone(k: Kern)
    ensures FreedFrames(k, []) == k
  {
    assert BlocksOf(FrameOf(k.base), []) == {};
    assert FreedTable(k.table, {}) == k.table && k.live - {} == k.live;
  }

  /** The next frame to give back may be freed, and freeing it adds it to those given back. */
  lemma FreeNext(k: Kern, fs: seq<Frame>, i: nat)
    requires Inv(k) && Returnable(k, fs) && i < |fs|
    ensures var k' := FreedFrames(k, fs[..i]);
            && k'.base <= Addr(fs[i]) && BlockOf(k'.base, Addr(fs[i])) in k'.live && Unowned(k', fs[i])
            && AfterKfree(k', Addr(fs[i])) == FreedFrames(k, fs[..i + 1])
  {
    var first, f := FrameOf(k.base), fs[i];
    var before, after := BlocksOf(first, fs[..i]), BlocksOf(first, fs[..i + 1]);
    assert fs[..i + 1][..i] == fs[..i];
    OneMoreBlock(first, fs[..i + 1]);
    assert !HasBlock(first, fs[..i], f - first);
    FreedOne(k, before, f);
  }

  lemma FreedOne(k: Kern, blocks: set<nat>, f: Frame)
    requires HeapInv(k) && OneBlock(k, f) && f - FrameOf(k.base) !in blocks
    ensures BlockOf(k.base, Addr(f)) == f - FrameOf(k.base) && k.base <= Addr(f)
    ensures AfterKfree(Freed(k, blocks), Addr(f)) == Freed(k, blocks + {f - FrameOf(k.base)})
  {
    var b := f - FrameOf(k.base);
    OneBlockTaken(k, f);
    assert BlockOf(k.base, Addr(f)) == b;
    assert FreedTable(k.table, blocks)[b := FREE] == FreedTable(k.table, blocks + {b});
    assert k.live - blocks - {b} == k.live - (blocks + {b});
    assert HeapRuns.Tail(b, 1) == {};
  }

  // ---------- Runs ----------

  /** What happens to the kernel: paging operations with their results, and anything else the kernel does. */
  datatype Event =
    | Create(flags: byte, v: u32)
    | Map(v: u32, vaddr: u32, val: u32)
    | MapRange(v: u32, vaddr: u32, paddr: u32, endaddr: u32, access: nat)
    | Destroy(v: u32)
    | Other

  ghost predicate Step(k: Kern, e: Event, k': Kern)
  {
    match e
    case Create(flags, v) => Created(k, flags, v, k')
    case Map(v, vaddr, val) =>
      v in k.spaces && k' == if vaddr % PAGE_SIZE == 0 then Mapped(k, v, vaddr / PAGE_SIZE, val) else k
    case MapRange(v, vaddr, paddr, endaddr, flags) =>
      v in k.spaces && flags < PAGE_SIZE && k' == AfterMapRange(k, v, vaddr, paddr, endaddr, flags)
    case Destroy(v) => Destroyed(k, v, k', false)
    case Other => HeapInv(k') && LeavesSpaces(k, k')
  }

  ghost predicate Trace(states: seq<Kern>, events: seq<Event>)
  {
    && |states| == |events| + 1
    && Inv(states[0]) && states[0].spaces == map[]
    && forall i :: 0 <= i < |events| ==> Step(states[i], events[i], states[i + 1])
  }

  /** How far a page is behind the first one of a range, in bytes, wrapping at 2^32. */
  function Offset(vaddr: u32, page: nat): (r: nat)
    ensures r % PAGE_SIZE == 0
  {
    PAGE_SIZE * ((page - vaddr / PAGE_SIZE) % PAGES)
  }

  /** The range is accepted and has the page. */
  predicate InArgs(vaddr: u32, paddr: u32, endaddr: u32, page: nat)
  {
    RangeArgs(vaddr, paddr, endaddr) && Offset(vaddr, page) < endaddr - paddr
  }

  /** What the events so far say the entry of a page of space v is; None when v is not a live space. */
  function LastValue(events: seq<Event>, v: u32, page: nat): Option<u32>
    requires page < PAGES
  {
    if events == [] then None
    else
      var before := events[..|events| - 1];
      match events[|events| - 1]
      case Create(flags, w) => if w == v then Some(IdentityEntry(page, flags)) else LastValue(before, v, page)
      case Map(w, vaddr, val) => if w == v && vaddr == PAGE_SIZE * page then Some(val) else LastValue(before, v, page)
      case MapRange(w, vaddr, paddr, endaddr, flags) =>
        if w == v && flags < PAGE_SIZE && InArgs(vaddr, paddr, endaddr, page)
        then Some(PackedAddr(paddr + Offset(vaddr, page), flags)) else LastValue(before, v, page)
      case Destroy(w) => if w == v then None else LastValue(before, v, page)
      case Other => LastValue(before, v, page)
  }

  /** The entry of a page in a space's tables; None when v is not a live space. */
  ghost function EntrySeen(k: Kern, v: u32, page: nat): Option<u32>
    requires page < PAGES
  {
    if v in k.spaces then Some(Entry(k.mem, k.spaces[v], page)) else None
  }

  ghost predicate Agrees(k: Kern, events: seq<Event>)
  {
    forall v, page :: 0 <= page < PAGES ==> LastValue(events, v, page) == EntrySeen(k, v, page)
  }

  /**
    Over every run of create, map, map-range and destroy calls on any number of spaces, interleaved with whatever
    else the kernel does to memory it owns, the tables of each live space hold at every page the last
    value mapped there in that space, else the page's own address with the creation flags.
   */
  lemma {:induction false} RunRefinesFlatMaps(states: seq<Kern>, events: seq<Event>)
    requires Trace(states, events)
    ensures Inv(states[|events|]) && Agrees(states[|events|], events)
    decreases |events|
  {
    var n := |events|;
    if n > 0 {
      TracePrefix(states, events);
      RunRefinesFlatMaps(states[..n], events[..n - 1]);
      StepAgrees(states[n - 1], events[..n - 1], events[n - 1], states[n]);
      assert events[..n - 1] + [events[n - 1]] == events;
    }
  }

  lemma TracePrefix(states: seq<Kern>, events: seq<Event>)
    requires Trace(states, events) && events != []
    ensures var n := |events|;
            && Trace(states[..n], events[..n - 1]) && states[..n][n - 1] == states[n - 1]
            && Step(states[n - 1], events[n - 1], states[n])
  {}

  lemma StepAgrees(k: Kern, events: seq<Event>, e: Event, k': Kern)
    requires Inv(k) && Agrees(k, events) && Step(k, e, k')
    ensures Inv(k') && Agrees(k', events + [e])
  {
    StepKeeps(k, e, k');
    forall v, page | 0 <= page < PAGES
      ensures LastValue(events + [e], v, page) == EntrySeen(k', v, page)
    {
      StepAgreesAt(k, events, e, k', v, page);
    }
  }

  lemma StepAgreesAt(k: Kern, events: seq<Event>, e: Event, k': Kern, v: u32, page: nat)
    requires MapsIn(Flats(k), e) && Flats(k') == AbstractStep(Flats(k), e)
    requires page < PAGES && LastValue(events, v, page) == EntrySeen(k, v, page)
    ensures LastValue(events + [e], v, page) == EntrySeen(k', v, page)
  {
    assert (events + [e])[..|events|] == events;
    FlatsSeen(k, v, page);
    FlatsSeen(k', v, page);
  }

  lemma FlatsSeen(k: Kern, v: u32, page: nat)
    requires page < PAGES
    ensures v in Flats(k) <==> v in k.spaces
    ensures v in k.spaces ==> EntrySeen(k, v, page) == Some(Flats(k)[v][page])
  {}

  ghost predicate MapsIn(m: map<u32, FlatMap>, e: Event)
  {
    && (e.Map? || e.MapRange? ==> e.v in m)
    && (e.MapRange? ==> e.access < PAGE_SIZE)
  }

  /** What an event does to the flat maps. */
  ghost function AbstractStep(m: map<u32, FlatMap>, e: Event): map<u32, FlatMap>
    requires MapsIn(m, e)
  {
    match e
    case Create(flags, v) => m[v := Identity(flags)]
    case Map(v, vaddr, val) => if vaddr % PAGE_SIZE == 0 then WithValue(m, v, vaddr / PAGE_SIZE, val) else m
    case MapRange(v, vaddr, paddr, endaddr, flags) => WithMapRange(m, v, vaddr, paddr, endaddr, flags)
    case Destroy(v) => m - {v}
    case Other => m
  }

  /** One step keeps the invariant and acts on the flat maps as its name says. */
  lemma StepKeeps(k: Kern, e: Event, k': Kern)
    requires Inv(k) && Step(k, e, k')
    ensures Inv(k') && MapsIn(Flats(k), e)
    ensures Flats(k') == AbstractStep(Flats(k), e)
  {
    match e {
      case Create(flags, v) => CreatedKeeps(k, flags, v, k');
      case Map(v, vaddr, val) =>
        if vaddr % PAGE_SIZE == 0 {
          MapKeeps(k, v, vaddr / PAGE_SIZE, val);
        }
      case MapRange(v, vaddr, paddr, endaddr, flags) => MapRangeKeeps(k, v, vaddr, paddr, endaddr, flags);
      case Destroy(v) => DestroyedKeeps(k, v, k', false);
      case Other => OthersKeep(k, k');
    }
  }

  /** A range is mapped by one map step for each of its pages. */
  lemma RangeIsMaps(k: Kern, v: u32, vaddr: u32, paddr: u32, endaddr: u32, flags: nat, i: nat)
    requires v in k.spaces && flags < PAGE_SIZE && RangeArgs(vaddr, paddr, endaddr) && i < (endaddr - paddr) / PAGE_SIZE
    ensures paddr + PAGE_SIZE * (i + 1) <= TWO32
    ensures RangeUpTo(k, v, vaddr / PAGE_SIZE, paddr, 0, flags) == k
    ensures Step(RangeUpTo(k, v, vaddr / PAGE_SIZE, paddr, i, flags),
                 Map(v, RangeAddr(vaddr, i), RangeEntry(paddr, i, flags)),
                 RangeUpTo(k, v, vaddr / PAGE_SIZE, paddr, i + 1, flags))
  {
    WholePages(paddr, endaddr);
    NextPage(vaddr, i);
    NextFrame(paddr, i);
  }

  /** kzalloc, and kfree of what no space owns, are steps of such runs. */
  lemma HeapCallsAreSteps(k: Kern, size: u32, addr: u32)
    requires Inv(k)
    ensures Step(k, Other, AfterKzalloc(k, size))
    ensures MayFree(k, addr) ==> Step(k, Other, AfterKfree(k, addr))
  {
    KzallocLeaves(k, size);
    if MayFree(k, addr) {
      KfreeLeaves(k, addr);
    }
  }

  // ---------- Accounting ----------

  /**
    Creating a space and destroying it as meant gives the heap table back byte for byte;
    destroying it as written leaves exactly the block of its directory taken.
   */
  lemma CreateThenDestroy(k: Kern, flags: byte, v: u32, sp: Space, k0: Kern, k1: Kern, k2: Kern, meant: bool)
    requires HeapInv(k) && CreatedAs(k, flags, v, sp, k0, k1) && Destroyed(k1, v, k2, meant)
    ensures meant ==> k2.table == k.table && k2.live == k.live
    ensures var dir := sp[DIRECTORY] - FrameOf(k.base);
            !meant ==> dir in FreeBlocks(k.table) && k2.table == TakenTable(k.table, {dir})
  {
    CreatedHeap(k, flags, v, sp, k0, k1);
    DestroyedHeap(k1, v, k2, meant);
    RestoredBy(k, sp, k1, k2, meant);
  }

  /** What creating and destroying a space does to the heap alone. */
  lemma CreatedHeap(k: Kern, flags: byte, v: u32, sp: Space, k0: Kern, k1: Kern)
    requires CreatedAs(k, flags, v, sp, k0, k1)
    ensures Distinct(sp) && FrameOf(k.base) <= sp[DIRECTORY]
    ensures k1.base == k.base && v in k1.spaces && k1.spaces[v] == sp
    ensures BlocksOf(FrameOf(k.base), sp) <= FreeBlocks(k.table)
    ensures k1.table == TakenTable(k.table, BlocksOf(FrameOf(k.base), sp))
    ensures k1.live == k.live + TakenRuns(BlocksOf(FrameOf(k.base), sp))
  {}

  lemma DestroyedHeap(k: Kern, v: u32, k': Kern, meant: bool)
    requires Destroyed(k, v, k', meant)
    ensures k'.table == FreedTable(k.table, BlocksOf(FrameOf(k.base), ReturnedFrames(k.spaces[v], meant)))
    ensures k'.live == k.live - BlocksOf(FrameOf(k.base), ReturnedFrames(k.spaces[v], meant))
  {}

  lemma RestoredBy(k: Kern, sp: Space, k1: Kern, k2: Kern, meant: bool)
    requires HeapInv(k) && Distinct(sp) && FrameOf(k.base) <= sp[DIRECTORY]
    requires BlocksOf(FrameOf(k.base), sp) <= FreeBlocks(k.table)
    requires k1.table == TakenTable(k.table, BlocksOf(FrameOf(k.base), sp))
    requires k1.live == k.live + TakenRuns(BlocksOf(FrameOf(k.base), sp))
    requires k2.table == FreedTable(k1.table, BlocksOf(FrameOf(k.base), ReturnedFrames(sp, meant)))
    requires k2.live == k1.live - BlocksOf(FrameOf(k.base), ReturnedFrames(sp, meant))
    ensures meant ==> k2.table == k.table && k2.live == k.live
    ensures var dir := sp[DIRECTORY] - FrameOf(k.base);
            !meant ==> dir in FreeBlocks(k.table) && k2.table == TakenTable(k.table, {dir})
  {
    HeapRestored(k, sp, meant);
  }

  lemma HeapRestored(k: Kern, sp: Space, meant: bool)
    requires HeapInv(k) && Distinct(sp) && FrameOf(k.base) <= sp[DIRECTORY]
    requires BlocksOf(FrameOf(k.base), sp) <= FreeBlocks(k.table)
    ensures var taken := BlocksOf(FrameOf(k.base), sp);
            var returned := BlocksOf(FrameOf(k.base), ReturnedFrames(sp, meant));
            var b := sp[DIRECTORY] - FrameOf(k.base);
            && b in FreeBlocks(k.table)
            && FreedTable(TakenTable(k.table, taken), returned) == (if meant then k.table else TakenTable(k.table, {b}))
            && (meant ==> k.live + TakenRuns(taken) - returned == k.live)
  {
    var first := FrameOf(k.base);
    var taken := BlocksOf(first, sp);
    ReturnedBlocks(first, sp, meant);
    FreeNotLive(k, taken);
    FreedTaken(k.table, k.live, taken, BlocksOf(first, ReturnedFrames(sp, meant)));
    assert HasBlock(first, sp, sp[DIRECTORY] - first);
    assert taken - (taken - {sp[DIRECTORY] - first}) == {sp[DIRECTORY] - first};
  }

  lemma FreeNotLive(k: Kern, blocks: set<nat>)
    requires HeapInv(k) && blocks <= FreeBlocks(k.table)
    ensures forall b :: b in blocks ==> b !in k.live
  {
    forall b | b in blocks
      ensures b !in k.live
    {
      assert !Covers(k.live, b, b);
    }
  }

  lemma ReturnedBlocks(first: Frame, sp: Space, meant: bool)
    requires Distinct(sp) && first <= sp[DIRECTORY]
    ensures BlocksOf(first, ReturnedFrames(sp, meant))
            == BlocksOf(first, sp) - if meant then {} else {sp[DIRECTORY] - first}
  {
    forall b: nat | b < PAGES
      ensures HasBlock(first, ReturnedFrames(sp, meant), b) <==>
              HasBlock(first, sp, b) && (meant || b != sp[DIRECTORY] - first)
    {
      if first + b < PAGES {
        ReturnedOrDirectory(sp, first + b, meant);
      }
    }
  }

  lemma FreedTaken(t: Table, live: Runs, taken: set<nat>, returned: set<nat>)
    requires returned <= taken <= FreeBlocks(t) && forall b :: b in taken ==> b !in live
    ensures FreedTable(TakenTable(t, taken), returned) == TakenTable(t, taken - returned)
    ensures live + TakenRuns(taken) - returned == live + TakenRuns(taken - returned)
    ensures taken - returned == {} ==> TakenTable(t, taken - returned) == t && live + TakenRuns(taken - returned) == live
  {}

  lemma ReturnedOrDirectory(sp: Space, f: Frame, meant: bool)
    requires Distinct(sp)
    ensures f in ReturnedFrames(sp, meant) <==> f in sp && (meant || f != sp[DIRECTORY])
  {
    var fs := ReturnedFrames(sp, meant);
    if f in sp {
      var r :| 0 <= r < BLOCKS && sp[r] == f;
      if r >= TABLES {
        assert fs[r - TABLES] == f;
      }
    }
  }
}
