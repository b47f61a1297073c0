/** Dynamic memory of a process: kernel allocations mapped at their own addresses in its space. */
module ProcessMemory {
  import opened Words
  import opened HeapTable
  import opened Memory
  import opened Paging
  import opened PageRanges
  import opened KernelHeap
  import opened KernelPaging
  import opened Loader

  const ALLOCATIONS := 1024
  const ACCESS := PRESENT + WRITE + USER

  function PagesFor(size: u32): nat
  {
    Plus(size, PAGE_SIZE - 1) / PAGE_SIZE
  }

  /** The pages mapped for a size are the blocks allocated for it, for every size, wrapping ones included. */
  lemma PagesAreBlocks(size: u32)
    ensures PagesFor(size) == BlocksFor(size)
  {
    var q, r := size / PAGE_SIZE, size % PAGE_SIZE;
    assert size == PAGE_SIZE * q + r;
    if r == 0 {
      assert size + PAGE_SIZE - 1 < TWO32;
    } else {
      assert size - r + PAGE_SIZE == PAGE_SIZE * (q + 1);
      assert q == 0xf_ffff <==> size > 0xffff_f000;
    }
  }

  /** Every slot in use names a live allocation of the recorded size, and no two name the same one. */
  ghost predicate Recorded(k: Kern, bases: seq<u32>, sizes: seq<u32>)
    requires |bases| == |sizes|
  {
    && (forall i :: 0 <= i < |bases| && bases[i] != 0 ==> Holds(k, bases[i], sizes[i]))
    && forall i, j :: 0 <= i < j < |bases| && bases[i] != 0 ==> bases[i] != bases[j]
  }

  ghost predicate Holds(k: Kern, base: u32, size: u32)
  {
    && k.base <= base && (base - k.base) % BLOCK_SIZE == 0
    && var s := (base - k.base) / BLOCK_SIZE;
       s in k.live && k.live[s] == BlocksFor(size)
  }

  /** The first slot that is not in use. */
  function FreeSlot(bases: seq<u32>, from: nat): (r: nat)
    requires from <= |bases|
    ensures from <= r <= |bases| && (r < |bases| ==> bases[r] == 0)
    ensures forall i :: from <= i < r ==> bases[i] != 0
    decreases |bases| - from
  {
    if from == |bases| || bases[from] == 0 then from else FreeSlot(bases, from + 1)
  }

  /** The allocation slots of a process. */
  class Slots {
    var bases: seq<u32>
    var sizes: seq<u32>

    ghost predicate Valid(k: Kern)
      reads this
    {
      |bases| == |sizes| == ALLOCATIONS && Recorded(k, bases, sizes)
    }

    /** The first free slot, or ALLOCATIONS. */
    method Find() returns (slot: nat)
      requires |bases| == ALLOCATIONS
      ensures slot == FreeSlot(bases, 0)
    {
      slot := 0;
      while slot < ALLOCATIONS && bases[slot] != 0
        invariant 0 <= slot <= ALLOCATIONS
        invariant FreeSlot(bases, 0) == FreeSlot(bases, slot)
      {
        slot := slot + 1;
      }
    }
  }

  /**
    Allocates, records the allocation in the first free slot and maps its pages at their own
    addresses. When no memory is left the result is 0, and it is the pages from address 0 that are mapped.
   */
  method ProcessMalloc(kern: Kernel, vspace: u32, slots: Slots, size: u32) returns (base: u32)
    requires kern.Valid() && vspace in kern.k.spaces
    requires slots.Valid(kern.k)
    modifies kern, kern.heap.entries, slots
    ensures kern.Valid() && slots.Valid(kern.k)
    ensures var slot := FreeSlot(old(slots.bases), 0);
            if slot == ALLOCATIONS then
              base == 0 && kern.k == old(kern.k) && slots.bases == old(slots.bases) && slots.sizes == old(slots.sizes)
            else
              && Allocated(old(kern.k), kern.k, vspace, size, base)
              && slots.bases == old(slots.bases)[slot := base] && slots.sizes == old(slots.sizes)[slot := size]
  {
    ghost var k0 := kern.k;
    var slot := slots.Find();
    if slot == ALLOCATIONS {
      return 0;
    }
    base := AllocateAndMap(kern, vspace, size);
    RecordedMore(k0, kern.k, slots.bases, slots.sizes, slot, size, base);
    slots.bases := slots.bases[slot := base];
    slots.sizes := slots.sizes[slot := size];
  }

  /** Where the pages of an allocation end, in 32-bit arithmetic. */
  function EndOf(base: u32, size: u32): u32
  {
    Plus(base, PAGE_SIZE * PagesFor(size))
  }

  /** The state after kzalloc and then mapping the range of the allocation in the space. */
  ghost predicate Allocated(k: Kern, k': Kern, vspace: u32, size: u32, base: u32)
    requires Inv(k) && Inv(k') && vspace in k.spaces
  {
    && base == KzallocResult(k, size) && base % PAGE_SIZE == 0 && base + PAGE_SIZE * PagesFor(size) <= TWO32
    && vspace in AfterKzalloc(k, size).spaces
    && k' == AfterMapRange(AfterKzalloc(k, size), vspace, base, base, EndOf(base, size), ACCESS)
    && Flats(k') == WithMapRange(Flats(k), vspace, base, base, EndOf(base, size), ACCESS)
  }

  method AllocateAndMap(kern: Kernel, vspace: u32, size: u32) returns (base: u32)
    requires kern.Valid() && vspace in kern.k.spaces
    modifies kern, kern.heap.entries
    ensures kern.Valid() && Allocated(old(kern.k), kern.k, vspace, size, base)
  {
    ghost var k0 := kern.k;
    base := kern.Kzalloc(size);
    ghost var k1 := kern.k;
    InsideHeap(k0, size, base, PagesFor(size));
    KzallocSpaces(k0, size);
    var start, end := AlignLower(base), AlignUpper(Plus(base, PAGE_SIZE * PagesFor(size)));
    WholePagesEnd(base, size, start, end);
    var _ := kern.MapRange(vspace, base, start, end, ACCESS);
    MappedAsAllocated(k0, k1, kern.k, vspace, size, base, end);
  }

  lemma MappedAsAllocated(k: Kern, k1: Kern, k2: Kern, vspace: u32, size: u32, base: u32, end: u32)
    requires Inv(k) && Inv(k2) && vspace in k.spaces && vspace in k1.spaces
    requires k1 == AfterKzalloc(k, size) && Flats(k1) == Flats(k)
    requires base == KzallocResult(k, size) && base % PAGE_SIZE == 0 && base + PAGE_SIZE * PagesFor(size) <= TWO32
    requires end == EndOf(base, size) && k2 == AfterMapRange(k1, vspace, base, base, end, ACCESS)
    requires Flats(k2) == WithMapRange(Flats(k1), vspace, base, base, end, ACCESS)
    ensures Allocated(k, k2, vspace, size, base)
  {}

  lemma KzallocSpaces(k: Kern, size: u32)
    requires HeapInv(k)
    ensures AfterKzalloc(k, size).spaces == k.spaces
  {}

  lemma InsideHeap(k: Kern, size: u32, base: u32, pages: nat)
    requires HeapInv(k) && base == KzallocResult(k, size) && pages == PagesFor(size)
    ensures base % PAGE_SIZE == 0 && base + PAGE_SIZE * pages <= TWO32 && pages <= 0xf_ffff
  {
    PagesAreBlocks(size);
    var s := FirstFit(k.table, pages);
  }

  lemma WholePagesEnd(base: u32, size: u32, start: u32, end: u32)
    requires base % PAGE_SIZE == 0 && PagesFor(size) <= 0xf_ffff && base + PAGE_SIZE * PagesFor(size) <= TWO32
    requires start == AlignLower(base) && end == AlignUpper(Plus(base, PAGE_SIZE * PagesFor(size)))
    ensures start == base && end == EndOf(base, size) && end % PAGE_SIZE == 0
    ensures end == if base + PAGE_SIZE * PagesFor(size) == TWO32 then 0 else base + PAGE_SIZE * PagesFor(size)
  {
    var n := PagesFor(size);
    assert (base + PAGE_SIZE * n) % PAGE_SIZE == 0;
  }

  lemma RecordedMore(k: Kern, k': Kern, bases: seq<u32>, sizes: seq<u32>, slot: nat, size: u32, r: u32)
    requires HeapInv(k) && r == KzallocResult(k, size) && k'.live == AfterKzalloc(k, size).live && k'.base == k.base
    requires |bases| == |sizes| && Recorded(k, bases, sizes) && slot < |bases| && bases[slot] == 0
    ensures Recorded(k', bases[slot := r], sizes[slot := size])
  {
    MallocSound(k.base, k.table, size);
    forall i | 0 <= i < |bases| && bases[i] != 0
      ensures Holds(k', bases[i], sizes[i]) && bases[i] != r
    {
      assert Holds(k, bases[i], sizes[i]);
      var s := (bases[i] - k.base) / BLOCK_SIZE;
      assert Covers(k.live, s, s);
    }
  }

  /**
    In the space the allocation's bytes are at their own addresses, and every other page is what it was;
    but an allocation that ends at the very top of the address space is not mapped at all.
   */
  lemma OwnAddresses(m: map<u32, FlatMap>, v: u32, base: u32, size: u32)
    requires v in m && base % PAGE_SIZE == 0 && base + PAGE_SIZE * PagesFor(size) <= TWO32 && BlocksFor(size) > 0
    ensures var n := WithMapRange(m, v, base, base, EndOf(base, size), ACCESS);
            if base + PAGE_SIZE * PagesFor(size) == TWO32 then n == m
            else
              && n.Keys == m.Keys && (forall w :: w in m && w != v ==> n[w] == m[w])
              && MapsBytes(n[v], base, size, base) && HasAccess(n[v], base, size, true)
              && forall page :: 0 <= page < PAGES && !(base <= PAGE_SIZE * page < base + size) ==> n[v][page] == m[v][page]
  {
    hide RangeMapped, MapsBytes, HasAccess;
    PagesAreBlocks(size);
    RoundingNeverShort(size);
    WholePagesEnd(base, size, AlignLower(base), AlignUpper(EndOf(base, size)));
    if base + PAGE_SIZE * PagesFor(size) < TWO32 {
      OwnRange(m[v], base, size);
    }
  }

  lemma OwnRange(f: FlatMap, base: u32, size: u32)
    requires base % PAGE_SIZE == 0 && base + PAGE_SIZE * PagesFor(size) <= TWO32 && BlocksFor(size) > 0
    ensures var g := RangeMapped(f, base / PAGE_SIZE, base, PagesFor(size), ACCESS);
            && MapsBytes(g, base, size, base) && HasAccess(g, base, size, true)
            && forall page :: 0 <= page < PAGES && !(base <= PAGE_SIZE * page < base + size) ==> g[page] == f[page]
  {
    var g := RangeMapped(f, base / PAGE_SIZE, base, PagesFor(size), ACCESS);
    PagesAreBlocks(size);
    RoundingNeverShort(size);
    forall a: u32 | base <= a < base + size
      ensures Phys(g, a) == base + (a - base)
      ensures g[a / PAGE_SIZE] == PAGE_SIZE * (a / PAGE_SIZE) + ACCESS
    {
      OwnPage(base, PagesFor(size), a / PAGE_SIZE);
    }
    OwnAccess(g, base, size);
    forall page | 0 <= page < PAGES && !(base <= PAGE_SIZE * page < base + size)
      ensures g[page] == f[page]
    {
      OwnPage(base, PagesFor(size), page);
    }
  }

  lemma OwnAccess(g: FlatMap, base: u32, size: u32)
    requires forall a: u32 :: base <= a < base + size ==> g[a / PAGE_SIZE] == PAGE_SIZE * (a / PAGE_SIZE) + ACCESS
    ensures HasAccess(g, base, size, true)
  {
    forall a: u32 | base <= a < base + size
      ensures var e := g[FrameOf(a)]; e % 2 == 1 && e / 4 % 2 == 1 && e / 2 % 2 == 1
    {
      OwnBits(g[FrameOf(a)], FrameOf(a));
    }
  }

  lemma OwnBits(e: u32, page: nat)
    requires e == PAGE_SIZE * page + ACCESS
    ensures e % 2 == 1 && e / 4 % 2 == 1 && e / 2 % 2 == 1
  {
    AccessBits(e, ACCESS);
  }

  lemma OwnPage(base: u32, count: nat, page: nat)
    requires base % PAGE_SIZE == 0 && base + PAGE_SIZE * count <= TWO32 && page < PAGES
    ensures var vpage := base / PAGE_SIZE;
            && (InRange(page, vpage, count) <==> vpage <= page < vpage + count)
            && (vpage <= page < vpage + count ==> base + PAGE_SIZE * ((page - vpage) % PAGES) == PAGE_SIZE * page)
  {
    assert base == PAGE_SIZE * (base / PAGE_SIZE);
  }
}
