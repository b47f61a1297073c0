/** The kernel's memory manager in place: kzalloc and kfree, and the paging functions on physical memory. */
module KernelPaging {
  import opened Status
  import opened Words
  import opened HeapTable
  import opened Memory
  import opened Paging
  import opened PageTables
  import opened PageRanges
  import opened KernelHeap
  import opened AddressSpaces
  import H = Heap


  class Kernel {
    const heap: H.Heap
    var mem: Mem

    /** What the heap table and memory represent. */
    ghost var k: Kern

    ghost predicate Valid()
      reads this, heap, heap.entries
    {
      k.base == heap.base && k.table == heap.entries[..] && k.mem == mem && Inv(k)
    }

    /** A kernel with a heap just created and no address space. */
    constructor (h: H.Heap, m: Mem)
      requires h.Valid() && 0 < h.base && forall i :: 0 <= i < h.entries.Length ==> h.entries[i] == FREE
      ensures Valid() && heap == h && k == Kern(h.base, h.entries[..], map[], {}, m, map[], map[])
    {
      heap, mem := h, m;
      k := Kern(h.base, h.entries[..], map[], {}, m, map[], map[]);
    }

    method Kzalloc(size: u32) returns (r: u32)
      requires Valid()
      modifies this, heap.entries
      ensures Valid() && k == AfterKzalloc(old(k), size) && Flats(k) == Flats(old(k))
      ensures r == KzallocResult(old(k), size)
      ensures forall a: u32 :: mem[a] == if r != 0 && r <= a < r + size then 0 else old(mem)[a]
    {
      KzallocKeeps(k, size);
      MallocSound(k.base, k.table, size);
      r := heap.Malloc(size);
      if r != 0 {
        mem := ZeroBytes(mem, r, size);
      }
      k := AfterKzalloc(k, size);
    }

    method Kfree(addr: u32)
      requires Valid() && MayFree(k, addr)
      modifies this, heap.entries
      ensures Valid() && k == AfterKfree(old(k), addr) && Flats(k) == Flats(old(k))
    {
      KfreeKeeps(k, addr);
      heap.Free(addr);
      k := AfterKfree(k, addr);
    }

    // ---------- paging.c ----------

    /** The indices of a page in the directory and in its table; an unaligned address has none. */
    static method GetPageIndices(vaddr: u32) returns (status: int, pdIndex: nat, ptIndex: nat)
      ensures vaddr % PAGE_SIZE != 0 <==> status == -ERR_INVARG
      ensures vaddr % PAGE_SIZE == 0 ==>
              && status == SUCCESS && pdIndex < ENTRIES && ptIndex < ENTRIES
              && PAGE_SIZE * (ENTRIES * pdIndex + ptIndex) == vaddr
    {
      pdIndex, ptIndex := 0, 0;
      if vaddr % PAGE_SIZE != 0 {
        return -ERR_INVARG, 0, 0;
      }
      pdIndex := vaddr / (PAGE_SIZE * ENTRIES);
      ptIndex := vaddr % (ENTRIES * PAGE_SIZE) / PAGE_SIZE;
      status := SUCCESS;
    }

    /** Follows the packed pointer in the directory to the page table of an index. */
    method TableAt(pd: u32, pdIndex: nat, ghost sp: Space) returns (pt: u32)
      requires Wired(mem, sp) && pd == Addr(sp[DESCRIPTOR]) && pdIndex < ENTRIES
      ensures pt == Addr(sp[TABLES + pdIndex])
    {
      WordAddress(sp[DESCRIPTOR], 0);
      WordAddress(sp[DIRECTORY], pdIndex);
      var dir := Load32(mem, pd);
      assert dir == Word(mem, sp[DESCRIPTOR], 0);
      var entry := Load32(mem, dir + 4 * pdIndex);
      assert entry == DirEntry(mem, sp, pdIndex);
      MaskClearsOffset(entry);
      pt := And(entry, FRAME_MASK);
    }

    /** Writes the entry of a page of a space; an unaligned address is refused. */
    method MapVaddrToVal(pd: u32, vaddr: u32, val: u32, ghost sp: Space) returns (status: int)
      requires Wired(mem, sp) && pd == Addr(sp[DESCRIPTOR])
      modifies this`mem
      ensures vaddr % PAGE_SIZE != 0 ==> status == -ERR_INVARG && mem == old(mem)
      ensures vaddr % PAGE_SIZE == 0 ==> status == SUCCESS && mem == WithEntry(old(mem), sp, vaddr / PAGE_SIZE, val)
    {
      if vaddr % PAGE_SIZE != 0 {
        return -ERR_INVARG;
      }
      var _, pdIndex, ptIndex := GetPageIndices(vaddr);
      PageIndices(vaddr, pdIndex, ptIndex);
      var pt := TableAt(pd, pdIndex, sp);
      WordAddress(sp[TABLES + pdIndex], ptIndex);
      mem := Store32(mem, pt + 4 * ptIndex, val);
      status := SUCCESS;
    }

    /** The entry of a page; the caller passes an aligned address. */
    method VirtToPhy(vspace: u32, vaddr: u32, ghost sp: Space) returns (entry: u32)
      requires Wired(mem, sp) && vspace == Addr(sp[VSPACE]) && vaddr % PAGE_SIZE == 0
      ensures entry == Entry(mem, sp, vaddr / PAGE_SIZE)
    {
      WordAddress(sp[VSPACE], 0);
      var _, pdIndex, ptIndex := GetPageIndices(vaddr);
      PageIndices(vaddr, pdIndex, ptIndex);
      WordAddress(sp[TABLES + pdIndex], ptIndex);
      var pd := Load32(mem, vspace);
      assert pd == Word(mem, sp[VSPACE], 0);
      var pt := TableAt(pd, pdIndex, sp);
      entry := Load32(mem, pt + 4 * ptIndex);
    }

    /** Maps one page of a space to a frame with flags. */
    method MapPage(vspace: u32, vaddr: u32, paddr: u32, flags: nat, ghost sp: Space)
      requires Wired(mem, sp) && vspace == Addr(sp[VSPACE])
      requires vaddr % PAGE_SIZE == 0 && paddr % PAGE_SIZE == 0 && flags < PAGE_SIZE
      modifies this`mem
      ensures mem == WithEntry(old(mem), sp, vaddr / PAGE_SIZE, PackedAddr(paddr, flags))
    {
      WordAddress(sp[VSPACE], 0);
      OrFlags(paddr, flags);
      var pd := Load32(mem, vspace);
      assert pd == Word(mem, sp[VSPACE], 0);
      var _ := MapVaddrToVal(pd, vaddr, Or(paddr, flags), sp);
    }

    /** Maps the pages from vaddr on, wrapping at 2^32, to the frames of [paddr, endaddr). */
    method MapPages(vspace: u32, vaddr: u32, paddr: u32, endaddr: u32, flags: nat, ghost sp: Space)
      returns (status: int)
      requires Wired(mem, sp) && Distinct(sp) && vspace == Addr(sp[VSPACE]) && flags < PAGE_SIZE
      modifies this`mem
      ensures status == SUCCESS <==> RangeArgs(vaddr, paddr, endaddr)
      ensures status == SUCCESS ==>
              mem == RangeStored(old(mem), sp, vaddr / PAGE_SIZE, paddr, (endaddr - paddr) / PAGE_SIZE, flags)
      ensures status != SUCCESS ==> status == -ERR_PROCESS_MAPPING_FAILED && mem == old(mem)
    {
      if vaddr % PAGE_SIZE != 0 || paddr % PAGE_SIZE != 0 || endaddr % PAGE_SIZE != 0 {
        return -ERR_PROCESS_MAPPING_FAILED;
      }
      if endaddr < paddr {
        return -ERR_PROCESS_MAPPING_FAILED;
      }
      WholePages(paddr, endaddr);
      MapTotal(vspace, vaddr, paddr, (endaddr - paddr) / PAGE_SIZE, flags, sp);
      status := SUCCESS;
    }

    /** The loop of paging_map_range. */
    method MapTotal(vspace: u32, vaddr: u32, paddr: u32, totalPages: nat, flags: nat, ghost sp: Space)
      requires Wired(mem, sp) && Distinct(sp) && vspace == Addr(sp[VSPACE]) && flags < PAGE_SIZE
      requires vaddr % PAGE_SIZE == 0 && paddr % PAGE_SIZE == 0 && paddr + PAGE_SIZE * totalPages <= TWO32
      modifies this`mem
      ensures mem == RangeStored(old(mem), sp, vaddr / PAGE_SIZE, paddr, totalPages, flags)
    {
      hide Wired, Distinct, WithEntry;
      ghost var m := mem;
      var va: u32, pa: nat := vaddr, paddr;
      var page := 0;
      while page < totalPages
        invariant 0 <= page <= totalPages
        invariant AtPage(m, mem, sp, vaddr, paddr, page, flags, va, pa)
      {
        NextStore(m, mem, sp, vaddr, paddr, page, flags, va, pa);
        MapPage(vspace, va, pa, flags, sp);
        va := Plus(va, PAGE_SIZE);
        pa := pa + PAGE_SIZE;
        page := page + 1;
      }
    }

    // ---------- Creating and destroying spaces ----------

    /** kzalloc of a structure that fits a block, when free blocks are left. */
    method TakeBlock(size: u32, ghost k0: Kern, ghost fs: seq<Frame>) returns (r: u32, ghost f: Frame)
      requires Valid() && Inv(k0) && Taken(k0, k, fs) && |fs| < |FreeBlocks(k0.table)| && 0 < size <= BLOCK_SIZE
      modifies this, heap.entries
      ensures Valid() && r == Addr(f) && f !in fs && Taken(k0, k, fs + [f])
      ensures SameOutside(old(mem), mem, {f})
    {
      TakenOneMore(k0, k, fs, size);
      f := FrameOf(KzallocResult(k, size));
      ZeroedOutside(mem, f, size);
      r := Kzalloc(size);
    }

    /** Stores a word in a block taken since k0. */
    method StoreTaken(a: u32, val: u32, ghost k0: Kern, ghost fs: seq<Frame>, ghost f: Frame, ghost i: nat)
      requires Valid() && Inv(k0) && Taken(k0, k, fs) && f in fs && i < WORDS && a == Addr(f) + 4 * i
      modifies this`mem, this`k
      ensures Valid() && Taken(k0, k, fs) && mem == SetWord(old(mem), f, i, val)
    {
      SetWordOutside(mem, f, i, val);
      TakenWrite(k0, k, fs, f, SetWord(mem, f, i, val));
      mem := Store32(mem, a, val);
      k := k.(mem := mem);
    }

    /** Takes a block and fills it as page table number i. */
    method NewTable(offset: u32, flags: byte, ghost k0: Kern, ghost fs: seq<Frame>, ghost i: nat)
      returns (pt: u32, ghost f: Frame)
      requires Valid() && Inv(k0) && Taken(k0, k, fs) && |fs| < |FreeBlocks(k0.table)|
      requires i < ENTRIES && offset == PAGE_SIZE * ENTRIES * i
      modifies this, heap.entries
      ensures Valid() && pt == Addr(f) && f !in fs && Taken(k0, k, fs + [f])
      ensures SameOutside(old(mem), mem, {f}) && TableHolds(mem, f, i, flags)
    {
      pt, f := TakeBlock(4 * ENTRIES, k0, fs);
      ghost var m := mem;
      mem := FillTable(mem, pt, offset, flags, f, i);
      SameOutsideTwice(old(mem), m, mem, f);
      TakenWrite(k0, k, fs + [f], f, mem);
      k := k.(mem := mem);
    }

    /** One step of the loop below: a new table, and the directory entry that points to it. */
    method AddTable(entries: u32, pdEntry: nat, offset: u32, flags: byte,
                    ghost k0: Kern, ghost vf: Frame, ghost dir: Frame, ghost tables: seq<Frame>)
      returns (ghost f: Frame)
      requires pdEntry == |tables| < ENTRIES && entries == Addr(dir) && offset == PAGE_SIZE * ENTRIES * pdEntry
      requires Valid() && Inv(k0) && Taken(k0, k, [vf, dir] + tables) && |tables| + 2 < |FreeBlocks(k0.table)|
      requires DirectoryHolds(mem, dir, tables, Or(flags, WRITE)) && TablesHold(mem, tables, flags)
      modifies this, heap.entries
      ensures Valid() && Taken(k0, k, [vf, dir] + (tables + [f]))
      ensures DirectoryHolds(mem, dir, tables + [f], Or(flags, WRITE)) && TablesHold(mem, tables + [f], flags)
    {
      ghost var m0, fs := mem, [vf, dir] + tables;
      FramesApart(k0, k, vf, dir, tables);
      var pt;
      pt, f := NewTable(offset, flags, k0, fs, pdEntry);
      ghost var m1 := mem;
      assert fs + [f] == [vf, dir] + (tables + [f]);
      assert (fs + [f])[1] == dir;
      LinkTable(entries, pdEntry, pt, flags, k0, fs + [f], dir, f);
      OneMoreTable(m0, m1, mem, dir, tables, f, flags, Or(flags, WRITE));
    }

    /** Stores the packed pointer to a table in the directory. */
    method LinkTable(entries: u32, pdEntry: nat, pt: u32, flags: byte, ghost k0: Kern, ghost fs: seq<Frame>,
                     ghost dir: Frame, ghost f: Frame)
      requires pdEntry < ENTRIES && entries == Addr(dir) && pt == Addr(f) && dir in fs
      requires Valid() && Inv(k0) && Taken(k0, k, fs)
      modifies this`mem, this`k
      ensures Valid() && Taken(k0, k, fs)
      ensures SameOutside(old(mem), mem, {dir}) && WordsBefore(old(mem), mem, dir, pdEntry)
      ensures Word(mem, dir, pdEntry) == Addr(f) + Or(flags, WRITE)
    {
      PackedTable(pt, flags);
      WordAddress(dir, pdEntry);
      SetWordOutside(mem, dir, pdEntry, Or(Or(pt, flags), WRITE));
      SetWordBefore(mem, dir, pdEntry, Or(Or(pt, flags), WRITE));
      StoreTaken(entries + 4 * pdEntry, Or(Or(pt, flags), WRITE), k0, fs, dir, pdEntry);
    }

    /**
      Builds a directory and its tables. The source checks no allocation for failure,
      so it relies on enough free blocks.
     */
    method NewPageDirectory(flags: byte, ghost k0: Kern, ghost vf: Frame)
      returns (pd: u32, ghost descriptor: Frame, ghost dir: Frame, ghost tables: seq<Frame>)
      requires Valid() && Inv(k0) && Taken(k0, k, [vf]) && |FreeBlocks(k0.table)| >= BLOCKS
      modifies this, heap.entries
      ensures |tables| == ENTRIES
      ensures Valid() && Taken(k0, k, [vf, dir] + tables + [descriptor])
      ensures pd == Addr(descriptor) && Word(mem, descriptor, 0) == Addr(dir)
      ensures DirectoryHolds(mem, dir, tables, Or(flags, WRITE)) && TablesHold(mem, tables, flags)
    {
      var entries;
      entries, dir := TakeBlock(4 * ENTRIES, k0, [vf]);
      tables := [];
      assert [vf] + [dir] == [vf, dir] + tables;
      var offset: u32, pdEntry := 0, 0;
      while pdEntry < ENTRIES
        invariant 0 <= pdEntry <= ENTRIES && |tables| == pdEntry
        invariant pdEntry < ENTRIES ==> offset == PAGE_SIZE * ENTRIES * pdEntry
        invariant Valid() && Taken(k0, k, [vf, dir] + tables)
        invariant DirectoryHolds(mem, dir, tables, Or(flags, WRITE)) && TablesHold(mem, tables, flags)
      {
        ghost var f := AddTable(entries, pdEntry, offset, flags, k0, vf, dir, tables);
        tables := tables + [f];
        NextOffset(offset, pdEntry);
        offset := Plus(offset, ENTRIES * PAGE_SIZE);
        pdEntry := pdEntry + 1;
      }
      pd, descriptor := AddDescriptor(entries, flags, k0, vf, dir, tables);
    }

    /** The descriptor: a block whose first word is the address of the directory. */
    method AddDescriptor(entries: u32, ghost flags: byte, ghost k0: Kern, ghost vf: Frame, ghost dir: Frame,
                         ghost tables: seq<Frame>)
      returns (pd: u32, ghost f: Frame)
      requires |tables| == ENTRIES && entries == Addr(dir)
      requires Valid() && Inv(k0) && Taken(k0, k, [vf, dir] + tables) && |FreeBlocks(k0.table)| >= BLOCKS
      requires DirectoryHolds(mem, dir, tables, Or(flags, WRITE)) && TablesHold(mem, tables, flags)
      modifies this, heap.entries
      ensures Valid() && Taken(k0, k, [vf, dir] + tables + [f])
      ensures pd == Addr(f) && Word(mem, f, 0) == entries
      ensures DirectoryHolds(mem, dir, tables, Or(flags, WRITE)) && TablesHold(mem, tables, flags)
    {
      ghost var m0, fs := mem, [vf, dir] + tables;
      FramesApart(k0, k, vf, dir, tables);
      pd, f := TakeBlock(4, k0, fs);
      ghost var m1 := mem;
      StoreTaken(pd, entries, k0, fs + [f], f, 0);
      SetWordOutside(m1, f, 0, entries);
      WordSet(m1, f, 0, entries, f, 0);
      SameOutsideTwice(m0, m1, mem, f);
      DirectoryFrame(m0, mem, dir, tables, Or(flags, WRITE));
      TablesFrame(m0, mem, tables, flags);
    }

    /** A new address space in which every page maps to itself; enough free blocks are assumed, as above. */
    method CreateSpace(flags: byte) returns (v: u32)
      requires Valid() && |FreeBlocks(k.table)| >= BLOCKS
      modifies this, heap.entries
      ensures Valid() && Created(old(k), flags, v, k)
      ensures v !in old(k).spaces && Flats(k) == Flats(old(k))[v := Identity(flags)]
      ensures v in Flats(k) && IdentitySpace(Flats(k)[v]) && OrEntries(Flats(k)[v], flags)
    {
      ghost var k0 := k;
      TakenNone(k0);
      ghost var vf, descriptor, dir, tables;
      v, vf := TakeBlock(4, k0, []);
      assert [] + [vf] == [vf];
      var pd;
      pd, descriptor, dir, tables := NewPageDirectory(flags, k0, vf);
      LinkSpace(v, pd, flags, k0, vf, descriptor, dir, tables);
      CreatedKeeps(k0, flags, v, k);
      IdentityIs(flags);
    }

    /** Points the structure of the new space to its descriptor; the space is then complete. */
    method LinkSpace(vspace: u32, pd: u32, ghost flags: byte, ghost k0: Kern,
                     ghost vf: Frame, ghost descriptor: Frame, ghost dir: Frame, ghost tables: seq<Frame>)
      requires |tables| == ENTRIES && vspace == Addr(vf) && pd == Addr(descriptor)
      requires Valid() && Inv(k0) && Taken(k0, k, [vf, dir] + tables + [descriptor])
      requires Word(mem, descriptor, 0) == Addr(dir)
      requires DirectoryHolds(mem, dir, tables, Or(flags, WRITE)) && TablesHold(mem, tables, flags)
      modifies this
      ensures Valid() && Created(k0, flags, vspace, k)
    {
      ghost var sp: Space := [vf, descriptor, dir] + tables;
      ghost var m := mem;
      LayoutOrder(k0, k, vf, descriptor, dir, tables);
      assert sp[TABLES..] == tables && sp[VSPACE] == vf && Addr(sp[DESCRIPTOR]) == pd;
      StoreTaken(vspace, pd, k0, sp, vf, 0);
      SpaceComplete(k0, k, m, sp, flags);
      Publish(sp);
    }

    /** From here on the blocks count as a live space. */
    ghost method Publish(sp: Space)
      requires Valid() && Distinct(sp) && Inv(WithSpace(k, sp))
      modifies this`k
      ensures Valid() && k == WithSpace(old(k), sp)
    {
      k := WithSpace(k, sp);
    }

    /** Gives back what the source gives back: every table, the descriptor and the structure. */
    method DestroySpace(vspace: u32)
      requires Valid() && vspace in k.spaces
      modifies this, heap.entries
      ensures Valid() && mem == old(mem) && Destroyed(old(k), vspace, k, false)
    {
      ghost var sp := k.spaces[vspace];
      ghost var frames := ReturnedFrames(sp, false);
      SpaceFacts(k, vspace);
      ReturnedAreLive(k, vspace);
      k := WithoutSpace(k, vspace);
      ghost var k1 := k;
      FreeTables(vspace, k1, sp);
      WordAddress(sp[VSPACE], 0);
      var pd := Load32(mem, vspace);
      assert pd == Word(mem, sp[VSPACE], 0);
      FreeBlock(pd, k1, frames, ENTRIES);
      FreeBlock(vspace, k1, frames, ENTRIES + 1);
      assert frames[..ENTRIES + 2] == frames;
    }

    /** Frees the page tables that the directory points to, one by one. */
    method FreeTables(vspace: u32, ghost k1: Kern, ghost sp: Space)
      requires Valid() && k == k1 && Wired(mem, sp) && vspace == Addr(sp[VSPACE])
      requires Returnable(k1, ReturnedFrames(sp, false))
      modifies this, heap.entries
      ensures Valid() && mem == old(mem) && k == FreedFrames(k1, ReturnedFrames(sp, false)[..ENTRIES])
    {
      ghost var frames := ReturnedFrames(sp, false);
      FreedNone(k1);
      WordAddress(sp[VSPACE], 0);
      var pdEntry := 0;
      while pdEntry < ENTRIES
        invariant 0 <= pdEntry <= ENTRIES
        invariant Valid() && mem == old(mem) && k == FreedFrames(k1, frames[..pdEntry])
      {
        var pd := Load32(mem, vspace);
        assert pd == Word(mem, sp[VSPACE], 0);
        var pt := TableAt(pd, pdEntry, sp);
        FreeBlock(pt, k1, frames, pdEntry);
        pdEntry := pdEntry + 1;
      }
    }

    /** kfree of the i-th of the frames to give back. */
    method FreeBlock(addr: u32, ghost k1: Kern, ghost frames: seq<Frame>, ghost i: nat)
      requires Valid() && Inv(k1) && i < |frames| && addr == Addr(frames[i]) && Returnable(k1, frames)
      requires k == FreedFrames(k1, frames[..i])
      modifies this, heap.entries
      ensures Valid() && mem == old(mem) && k == FreedFrames(k1, frames[..i + 1])
    {
      FreeNext(k1, frames, i);
      Kfree(addr);
    }

    /** paging_map_range on a live space: no other space sees it. */
    method MapRange(vspace: u32, vaddr: u32, paddr: u32, endaddr: u32, flags: nat) returns (status: int)
      requires Valid() && vspace in k.spaces && flags < PAGE_SIZE
      modifies this`mem, this`k
      ensures Valid() && k == AfterMapRange(old(k), vspace, vaddr, paddr, endaddr, flags)
      ensures Flats(k) == WithMapRange(Flats(old(k)), vspace, vaddr, paddr, endaddr, flags)
      ensures status == SUCCESS <==>
              vaddr % 4096 == 0 && paddr % 4096 == 0 && endaddr % 4096 == 0 && paddr <= endaddr
      ensures status == if RangeArgs(vaddr, paddr, endaddr) then SUCCESS else -ERR_PROCESS_MAPPING_FAILED
    {
      SpaceFacts(k, vspace);
      MapRangeKeeps(k, vspace, vaddr, paddr, endaddr, flags);
      status := MapPages(vspace, vaddr, paddr, endaddr, flags, k.spaces[vspace]);
      k := AfterMapRange(k, vspace, vaddr, paddr, endaddr, flags);
    }

    /** map_vaddr_to_val on a live space. */
    method MapValue(vspace: u32, vaddr: u32, val: u32) returns (status: int)
      requires Valid() && vspace in k.spaces
      modifies this`mem, this`k
      ensures Valid() && Step(old(k), Map(vspace, vaddr, val), k)
      ensures status == if vaddr % PAGE_SIZE == 0 then SUCCESS else -ERR_INVARG
    {
      ghost var sp := k.spaces[vspace];
      SpaceFacts(k, vspace);
      WordAddress(sp[VSPACE], 0);
      var pd := Load32(mem, vspace);
      assert pd == Word(mem, sp[VSPACE], 0);
      status := MapVaddrToVal(pd, vaddr, val, sp);
      if vaddr % PAGE_SIZE == 0 {
        MapKeeps(k, vspace, vaddr / PAGE_SIZE, val);
      }
      k := k.(mem := mem);
    }
  }

  lemma NextOffset(offset: u32, i: nat)
    requires i < ENTRIES && offset == PAGE_SIZE * ENTRIES * i
    ensures i + 1 < ENTRIES ==> Plus(offset, ENTRIES * PAGE_SIZE) == PAGE_SIZE * ENTRIES * (i + 1)
  {}

  lemma FramesApart(k0: Kern, k: Kern, vf: Frame, dir: Frame, tables: seq<Frame>)
    requires Taken(k0, k, [vf, dir] + tables)
    ensures dir !in tables
    ensures forall f :: f !in [vf, dir] + tables ==> f != dir && f !in tables
  {
    var fs := [vf, dir] + tables;
    assert fs[1] == dir && forall i :: 0 <= i < |tables| ==> fs[i + 2] == tables[i];
  }

  /** Storing the descriptor's address into the structure completes a space. */
  lemma SpaceComplete(k0: Kern, k1: Kern, m: Mem, sp: Space, flags: byte)
    requires Inv(k0) && Taken(k0, k1, sp) && k1.mem == SetWord(m, sp[VSPACE], 0, Addr(sp[DESCRIPTOR]))
    requires Word(m, sp[DESCRIPTOR], 0) == Addr(sp[DIRECTORY])
    requires DirectoryHolds(m, sp[DIRECTORY], sp[TABLES..], Or(flags, WRITE)) && TablesHold(m, sp[TABLES..], flags)
    ensures Inv(WithSpace(k1, sp)) && Created(k0, flags, Addr(sp[VSPACE]), WithSpace(k1, sp))
  {
    DirectoryBits(flags);
    StructureLinked(m, k1.mem, sp, flags, Or(flags, WRITE));
    Complete(k0, k1, sp, flags);
  }

  lemma DirectoryBits(flags: byte)
    ensures Or(flags, WRITE) < PAGE_SIZE
  {
    OrParts(0, flags, 0, WRITE);
  }

  /** The packed directory entry: pointer, creation flags and write access. */
  lemma PackedTable(pt: u32, flags: byte)
    requires pt % PAGE_SIZE == 0
    ensures Or(pt, flags) < TWO32 && Or(Or(pt, flags), WRITE) == pt + Or(flags, WRITE) < TWO32
  {
    OrFlags(pt, flags);
    OrMoreFlags(pt, flags, WRITE);
  }

  /** What the invariant says about one space. */
  lemma SpaceFacts(k: Kern, v: u32)
    requires Inv(k) && v in k.spaces
    ensures Wired(k.mem, k.spaces[v]) && Distinct(k.spaces[v]) && Addr(k.spaces[v][VSPACE]) == v
  {
    assert SpaceInv(k, v);
    SpaceDistinct(k, v);
  }

  lemma PageIndices(vaddr: u32, pdIndex: nat, ptIndex: nat)
    requires ptIndex < ENTRIES && PAGE_SIZE * (ENTRIES * pdIndex + ptIndex) == vaddr - vaddr % PAGE_SIZE
    ensures vaddr / PAGE_SIZE / ENTRIES == pdIndex && vaddr / PAGE_SIZE % ENTRIES == ptIndex
  {
    assert vaddr / PAGE_SIZE == ENTRIES * pdIndex + ptIndex;
  }
}
