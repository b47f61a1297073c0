/**
  The present bits. The translation of an address that the other modules speak of is the one the processor
  makes where the bits of both table entries are set: here they are shown to be set in all spaces.
 */
module Presence {
  import opened Words
  import opened Memory
  import opened Paging
  import opened PageRanges
  import opened KernelHeap
  import opened AddressSpaces

  predicate Present(entry: u32)
  {
    entry % 2 == PRESENT
  }

  /** All entries of a space's directory and of its tables are present. */
  ghost predicate SpacePresent(k: Kern, v: u32)
    requires v in k.spaces
  {
    AllPresent(Flat(k.mem, k.spaces[v])) && DirectoryPresent(k.mem, k.spaces[v])
  }

  ghost predicate AllPresent(f: FlatMap)
  {
    forall page :: 0 <= page < PAGES ==> Present(f[page])
  }

  ghost predicate DirectoryPresent(m: Mem, sp: Space)
  {
    forall i :: 0 <= i < ENTRIES ==> Present(DirEntry(m, sp, i))
  }

  /** Spaces are created with the present flag, and pages are mapped with it. */
  predicate WithPresent(e: Event)
  {
    match e
    case Create(flags, _) => Present(flags)
    case Map(_, _, val) => Present(val)
    case MapRange(_, _, _, _, access) => access % 2 == PRESENT
    case _ => true
  }

  /** In every state of a run with only such calls, every entry of every live space is present. */
  lemma {:induction false} RunPresent(states: seq<Kern>, events: seq<Event>, i: nat)
    requires Trace(states, events) && i < |states| && forall j :: 0 <= j < |events| ==> WithPresent(events[j])
    ensures Inv(states[i]) && forall v :: v in states[i].spaces ==> SpacePresent(states[i], v)
  {
    if i > 0 {
      RunPresent(states, events, i - 1);
      assert AddressSpaces.Step(states[i - 1], events[i - 1], states[i]);
      StepPresent(states[i - 1], events[i - 1], states[i]);
    }
  }

  lemma StepPresent(k: Kern, e: Event, k': Kern)
    requires Inv(k) && Step(k, e, k') && WithPresent(e)
    requires forall v :: v in k.spaces ==> SpacePresent(k, v)
    ensures Inv(k') && forall v :: v in k'.spaces ==> SpacePresent(k', v)
  {
    StepKeeps(k, e, k');
    forall v | v in k'.spaces
      ensures SpacePresent(k', v)
    {
      OnePresent(k, e, k', v);
    }
  }

  lemma OnePresent(k: Kern, e: Event, k': Kern, v: u32)
    requires Inv(k) && Step(k, e, k') && WithPresent(e) && v in k'.spaces
    requires forall w :: w in k.spaces ==> SpacePresent(k, w)
    ensures SpacePresent(k', v)
  {
    if e.Create? && e.v == v {
      CreatedPresent(k, e.flags, v, k');
    } else {
      WasThere(k, e, k', v);
      KeptPresent(k, e, k', v);
    }
  }

  lemma WasThere(k: Kern, e: Event, k': Kern, v: u32)
    requires Inv(k) && Step(k, e, k') && v in k'.spaces && !(e.Create? && e.v == v)
    ensures v in k.spaces
  {
    StepKeeps(k, e, k');
    FlatsSeen(k', v, 0);
    FlatsSeen(k, v, 0);
  }

  lemma CreatedPresent(k: Kern, flags: byte, v: u32, k': Kern)
    requires Inv(k) && Created(k, flags, v, k') && Present(flags)
    ensures v in k'.spaces && SpacePresent(k', v)
  {
    CreatedKeeps(k, flags, v, k');
    CreatedDirectory(k, flags, v, k');
    IdentityPresent(flags);
    assert Flats(k')[v] == Flat(k'.mem, k'.spaces[v]);
  }

  lemma KeptPresent(k: Kern, e: Event, k': Kern, v: u32)
    requires Inv(k) && Step(k, e, k') && WithPresent(e) && v in k.spaces && v in k'.spaces
    requires SpacePresent(k, v) && !(e.Create? && e.v == v)
    ensures SpacePresent(k', v)
  {
    StepKeeps(k, e, k');
    AbstractPresent(Flats(k), e, v);
    SameDirectory(k, e, k', v);
    assert Flats(k')[v] == Flat(k'.mem, k'.spaces[v]);
  }

  lemma IdentityPresent(flags: byte)
    requires Present(flags)
    ensures AllPresent(Identity(flags))
  {}

  lemma AbstractPresent(m: map<u32, FlatMap>, e: Event, v: u32)
    requires MapsIn(m, e) && WithPresent(e) && v in m && AllPresent(m[v]) && v in AbstractStep(m, e)
    requires !(e.Create? && e.v == v)
    ensures AllPresent(AbstractStep(m, e)[v])
  {
    if e.MapRange? && e.v == v && RangeArgs(e.vaddr, e.paddr, e.endaddr) {
      WholePages(e.paddr, e.endaddr);
      RangePresent(m[v], e.vaddr / PAGE_SIZE, e.paddr, (e.endaddr - e.paddr) / PAGE_SIZE, e.access);
    }
  }

  lemma RangePresent(f: FlatMap, vpage: nat, paddr: u32, count: nat, flags: nat)
    requires paddr % PAGE_SIZE == 0 && paddr + PAGE_SIZE * count <= TWO32 && flags < PAGE_SIZE
    requires AllPresent(f) && flags % 2 == PRESENT
    ensures AllPresent(RangeMapped(f, vpage, paddr, count, flags))
  {
    var g := RangeMapped(f, vpage, paddr, count, flags);
    forall page | 0 <= page < PAGES
      ensures Present(g[page])
    {
      if InRange(page, vpage, count) {
        EvenPlus(paddr + PAGE_SIZE * ((page - vpage) % PAGES), flags);
      }
    }
  }

  lemma EvenPlus(a: nat, flags: nat)
    requires a % PAGE_SIZE == 0
    ensures (a + flags) % 2 == flags % 2
  {
    assert a == PAGE_SIZE * (a / PAGE_SIZE);
  }

  /** A new directory's entries have the creation flags. */
  lemma CreatedDirectory(k: Kern, flags: byte, v: u32, k': Kern)
    requires Inv(k) && Created(k, flags, v, k') && Present(flags)
    ensures v in k'.spaces && DirectoryPresent(k'.mem, k'.spaces[v])
  {
    var sp: Space, k1: Kern :| CreatedAs(k, flags, v, sp, k1, k');
    CreatedAsDirectory(k, flags, v, sp, k1, k');
  }

  lemma CreatedAsDirectory(k: Kern, flags: byte, v: u32, sp: Space, k1: Kern, k': Kern)
    requires CreatedAs(k, flags, v, sp, k1, k') && Present(flags)
    ensures v in k'.spaces && DirectoryPresent(k'.mem, k'.spaces[v])
  {
    PublishedAs(k, flags, v, sp, k1, k');
    FlagBit(flags);
    LinksPresent(k1.mem, sp, Or(flags, WRITE));
  }

  lemma FlagBit(flags: byte)
    requires Present(flags)
    ensures Or(flags, WRITE) % 2 == PRESENT
  {
    OrStep(flags / 2, flags % 2, WRITE / 2, 0);
  }

  lemma LinksPresent(m: Mem, sp: Space, bits: nat)
    requires bits % 2 == PRESENT
    requires forall i :: 0 <= i < ENTRIES ==> DirEntry(m, sp, i) == Addr(sp[TABLES + i]) + bits
    ensures DirectoryPresent(m, sp)
  {
    forall i | 0 <= i < ENTRIES
      ensures Present(DirEntry(m, sp, i))
    {
      LinkPresent(sp[TABLES + i], bits);
    }
  }

  lemma LinkPresent(f: Frame, bits: nat)
    requires bits % 2 == PRESENT
    ensures (Addr(f) + bits) % 2 == PRESENT
  {
    EvenPlus(Addr(f), bits);
  }

  /** No step changes the directory of a space that was there before it. */
  lemma SameDirectory(k: Kern, e: Event, k': Kern, v: u32)
    requires Inv(k) && Step(k, e, k') && v in k.spaces && v in k'.spaces && !(e.Create? && e.v == v)
    requires DirectoryPresent(k.mem, k.spaces[v])
    ensures k'.spaces[v] == k.spaces[v] && DirectoryPresent(k'.mem, k'.spaces[v])
  {
    var dir := k.spaces[v][DIRECTORY];
    DirectoryUntouched(k, e, k', v);
    forall i | 0 <= i < ENTRIES
      ensures DirEntry(k'.mem, k.spaces[v], i) == DirEntry(k.mem, k.spaces[v], i)
    {
      WordFrame(k.mem, k'.mem, dir, i);
    }
  }

  lemma DirectoryUntouched(k: Kern, e: Event, k': Kern, v: u32)
    requires Inv(k) && Step(k, e, k') && v in k.spaces && v in k'.spaces && !(e.Create? && e.v == v)
    ensures k'.spaces[v] == k.spaces[v] && Page(k'.mem, k.spaces[v][DIRECTORY]) == Page(k.mem, k.spaces[v][DIRECTORY])
  {
    match e {
      case Create(flags, w) => CreateMisses(k, flags, w, k', v);
      case Map(w, vaddr, val) => MapMisses(k, w, vaddr, val, v);
      case MapRange(w, vaddr, paddr, endaddr, access) => RangeMisses(k, w, vaddr, paddr, endaddr, access, v);
      case Destroy(w) =>
      case Other =>
    }
  }

  lemma PublishedAs(k: Kern, flags: byte, w: u32, sp: Space, k1: Kern, k': Kern)
    requires CreatedAs(k, flags, w, sp, k1, k')
    ensures k'.mem == k1.mem && k'.spaces == k.spaces[w := sp]
    ensures forall i :: 0 <= i < ENTRIES ==> DirEntry(k1.mem, sp, i) == Addr(sp[TABLES + i]) + Or(flags, WRITE)
  {}

  lemma CreateMisses(k: Kern, flags: byte, w: u32, k': Kern, v: u32)
    requires Inv(k) && Created(k, flags, w, k') && v in k.spaces && w != v
    ensures v in k'.spaces && k'.spaces[v] == k.spaces[v]
    ensures Page(k'.mem, k.spaces[v][DIRECTORY]) == Page(k.mem, k.spaces[v][DIRECTORY])
  {
    var sp: Space, k1: Kern :| CreatedAs(k, flags, w, sp, k1, k');
    CreatedAsMisses(k, flags, w, sp, k1, k', v);
  }

  lemma CreatedAsMisses(k: Kern, flags: byte, w: u32, sp: Space, k1: Kern, k': Kern, v: u32)
    requires Inv(k) && CreatedAs(k, flags, w, sp, k1, k') && v in k.spaces && w != v
    ensures v in k'.spaces && k'.spaces[v] == k.spaces[v]
    ensures Page(k'.mem, k.spaces[v][DIRECTORY]) == Page(k.mem, k.spaces[v][DIRECTORY])
  {
    PublishedAs(k, flags, w, sp, k1, k');
    assert SpaceInv(k, v) && Owned(k, v, DIRECTORY);
    GrownMissesBlock(k, k1, BlocksOf(FrameOf(k.base), sp), k.spaces[v][DIRECTORY]);
  }

  lemma MapMisses(k: Kern, w: u32, vaddr: u32, val: u32, v: u32)
    requires Inv(k) && w in k.spaces && v in k.spaces
    ensures vaddr % PAGE_SIZE == 0 ==>
              var k' := Mapped(k, w, vaddr / PAGE_SIZE, val);
              Page(k'.mem, k.spaces[v][DIRECTORY]) == Page(k.mem, k.spaces[v][DIRECTORY])
  {
    if vaddr % PAGE_SIZE == 0 {
      NoTable(k, v, w);
      EntryInTables(k.mem, k.mem, k.spaces[w], vaddr / PAGE_SIZE, val);
    }
  }

  lemma RangeMisses(k: Kern, w: u32, vaddr: u32, paddr: u32, endaddr: u32, access: nat, v: u32)
    requires Inv(k) && w in k.spaces && v in k.spaces && access < PAGE_SIZE
    ensures var k' := AfterMapRange(k, w, vaddr, paddr, endaddr, access);
            && k'.spaces == k.spaces
            && Page(k'.mem, k.spaces[v][DIRECTORY]) == Page(k.mem, k.spaces[v][DIRECTORY])
  {
    if RangeArgs(vaddr, paddr, endaddr) {
      NoTable(k, v, w);
      WholePages(paddr, endaddr);
      assert SpaceInv(k, w);
      SpaceDistinct(k, w);
      RangeStoredKeeps(k.mem, k.spaces[w], vaddr / PAGE_SIZE, paddr, (endaddr - paddr) / PAGE_SIZE, access);
    }
  }

  /** A directory is no table of any space. */
  lemma NoTable(k: Kern, v: u32, w: u32)
    requires Inv(k) && v in k.spaces && w in k.spaces
    ensures k.spaces[v][DIRECTORY] !in k.spaces[w][TABLES..]
  {
    assert SpaceInv(k, v) && SpaceInv(k, w);
    forall i | TABLES <= i < BLOCKS
      ensures k.spaces[w][i] != k.spaces[v][DIRECTORY]
    {
      assert Owned(k, v, DIRECTORY) && Owned(k, w, i);
    }
  }
}
