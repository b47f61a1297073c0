/** copy_data_from_task_to_kernel: reading a task's memory through a page borrowed in its address space. */
module TaskCopy {
  import opened Status
  import opened Words
  import opened HeapTable
  import opened HeapRuns
  import opened Memory
  import opened Paging
  import opened KernelHeap
  import opened AddressSpaces
  import opened KernelPaging
  import opened Loader

  // ---------- What a task sees ----------

  /** The i-th byte of a task's string at src: through its translation, addresses wrapping at 2^32. */
  function Source(f: FlatMap, src: u32, i: nat): u32
  {
    Phys(f, (src + i) % TWO32)
  }

  function Seen(m: Mem, f: FlatMap, src: u32, i: nat): byte
  {
    m[Source(f, src, i)]
  }

  /** n is the length of the string at src, cut off at size. */
  ghost predicate SeenLength(m: Mem, f: FlatMap, src: u32, size: nat, n: nat)
  {
    n <= size && (forall i :: 0 <= i < n ==> Seen(m, f, src, i) != 0) && (n < size ==> Seen(m, f, src, n) == 0)
  }

  lemma SeenLengthUnique(m: Mem, f: FlatMap, src: u32, size: nat, n: nat, p: nat)
    requires SeenLength(m, f, src, size, n) && SeenLength(m, f, src, size, p)
    ensures n == p
  {}

  // ---------- Byte copies ----------

  /** The two memories agree outside [a, a + n). */
  ghost predicate SameExcept(m: Mem, m': Mem, a: u32, n: nat)
  {
    forall b: u32 :: !(a <= b < a + n) ==> m'[b] == m[b]
  }

  /** The pages a space is made of do not meet [a, a + n). */
  ghost predicate SpaceAway(sp: Space, a: u32, n: nat)
  {
    forall r :: 0 <= r < BLOCKS ==> Addr(sp[r]) + PAGE_SIZE <= a || a + n <= Addr(sp[r])
  }

  lemma SpaceUnchanged(m: Mem, m': Mem, sp: Space, a: u32, n: nat)
    requires Wired(m, sp) && SameExcept(m, m', a, n) && SpaceAway(sp, a, n)
    ensures Wired(m', sp) && Flat(m', sp) == Flat(m, sp)
  {
    forall r | 0 <= r < BLOCKS
      ensures Page(m, sp[r]) == Page(m', sp[r])
    {}
    SpaceFrame(m, m', sp);
  }

  /** Walks the tables of the space the processor uses. */
  method Translate(kern: Kernel, pd: u32, vaddr: u32, ghost sp: Space) returns (a: u32)
    requires Wired(kern.mem, sp) && pd == Addr(sp[DESCRIPTOR])
    ensures a == Phys(Flat(kern.mem, sp), vaddr)
  {
    var entry := EntryOf(kern, pd, vaddr, sp);
    MaskPlusOffset(entry, vaddr);
    a := And(entry, FRAME_MASK) + vaddr % PAGE_SIZE;
  }

  /** The two table lookups. */
  method EntryOf(kern: Kernel, pd: u32, vaddr: u32, ghost sp: Space) returns (entry: u32)
    requires Wired(kern.mem, sp) && pd == Addr(sp[DESCRIPTOR])
    ensures entry == Entry(kern.mem, sp, vaddr / PAGE_SIZE)
  {
    var page := vaddr - vaddr % PAGE_SIZE;
    var _, pdIndex, ptIndex := Kernel.GetPageIndices(page);
    PageIndices(vaddr, pdIndex, ptIndex);
    var pt := kern.TableAt(pd, pdIndex, sp);
    WordAddress(sp[TABLES + pdIndex], ptIndex);
    entry := Load32(kern.mem, pt + 4 * ptIndex);
  }

  lemma MaskPlusOffset(entry: u32, vaddr: u32)
    ensures And(entry, FRAME_MASK) + vaddr % PAGE_SIZE == Addr(FrameOf(entry)) + vaddr % PAGE_SIZE < TWO32
  {
    MaskClearsOffset(entry);
  }

  /** No byte of the target is a byte of the source. */
  ghost predicate SourceAway(f: FlatMap, src: u32, tgt: u32, len: nat)
  {
    forall i :: 0 <= i < len ==> !(tgt <= Source(f, src, i) < tgt + len)
  }

  /** The addresses of the target translate to themselves. */
  ghost predicate IdentityOn(f: FlatMap, tgt: u32, len: nat)
  {
    forall a: u32 :: tgt <= a < tgt + len ==> Phys(f, a) == a
  }

  /** The first n bytes of the target in m' are the first n bytes of the source in m, none of them 0. */
  ghost predicate Copied(m: Mem, m': Mem, f: FlatMap, src: u32, tgt: u32, n: nat)
    requires tgt + n <= TWO32
  {
    forall i :: 0 <= i < n ==> Seen(m, f, src, i) != 0 && m'[tgt + i] == Seen(m, f, src, i)
  }

  lemma CopyStep(m: Mem, m': Mem, f: FlatMap, src: u32, tgt: u32, len: nat, n: nat)
    requires n < len && tgt + len <= TWO32 && SameExcept(m, m', tgt, n)
    ensures SameExcept(m, m'[tgt + n := m'[Source(f, src, n)]], tgt, n + 1)
    ensures SourceAway(f, src, tgt, len) ==> m'[Source(f, src, n)] == Seen(m, f, src, n)
    ensures SourceAway(f, src, tgt, len) && Copied(m, m', f, src, tgt, n) && Seen(m, f, src, n) != 0 ==>
              Copied(m, m'[tgt + n := m'[Source(f, src, n)]], f, src, tgt, n + 1)
  {}

  /**
    strncpy under the address space whose descriptor is pd, into a target that it maps to itself.
    Only target bytes change; if the source does not overlap the target, they become the source's.
   */
  method Strncpy(kern: Kernel, pd: u32, tgt: u32, src: u32, len: nat, ghost sp: Space) returns (written: nat)
    requires Wired(kern.mem, sp) && pd == Addr(sp[DESCRIPTOR])
    requires tgt + len <= TWO32 && SpaceAway(sp, tgt, len) && IdentityOn(Flat(kern.mem, sp), tgt, len)
    modifies kern`mem
    ensures written <= len && SameExcept(old(kern.mem), kern.mem, tgt, written)
    ensures SourceAway(Flat(old(kern.mem), sp), src, tgt, len) ==>
              SeenLength(old(kern.mem), Flat(old(kern.mem), sp), src, len, written)
              && Copied(old(kern.mem), kern.mem, Flat(old(kern.mem), sp), src, tgt, written)
  {
    ghost var m, f := kern.mem, Flat(kern.mem, sp);
    written := 0;
    while written < len
      invariant written <= len && SameExcept(m, kern.mem, tgt, written)
      invariant Wired(kern.mem, sp) && Flat(kern.mem, sp) == f
      invariant SourceAway(f, src, tgt, len) ==> Copied(m, kern.mem, f, src, tgt, written)
    {
      ghost var m' := kern.mem;
      CopyStep(m, m', f, src, tgt, len, written);
      var from := Translate(kern, pd, (src + written) % TWO32, sp);
      if kern.mem[from] == 0 {
        break;
      }
      var to := Translate(kern, pd, tgt + written, sp);
      kern.mem := kern.mem[to := kern.mem[from]];
      written := written + 1;
      SpaceUnchanged(m, kern.mem, sp, tgt, written);
    }
  }

  // ---------- Borrowing a page ----------

  /** The bytes of the entry of page sf in a space's tables. */
  ghost predicate InEntry(sp: Space, sf: Frame, a: u32)
  {
    var e := Addr(TableOf(sp, sf)) + 4 * (sf % ENTRIES);
    e <= a < e + 4
  }

  /** The source is not read through the borrowed page, from the borrowed frame, or from the borrowed entry itself. */
  ghost predicate Clear(f: FlatMap, sp: Space, src: u32, size: nat, sf: Frame)
  {
    forall i :: 0 <= i < size ==>
      FrameOf((src + i) % TWO32) != sf && FrameOf(Source(f, src, i)) != sf && !InEntry(sp, sf, Source(f, src, i))
  }

  /** A word stored changes its own four bytes only; storing the old word again undoes it. */
  lemma EntryBytes(m: Mem, sp: Space, sf: Frame, val: u32)
    ensures forall a: u32 :: !InEntry(sp, sf, a) ==> WithEntry(m, sp, sf, val)[a] == m[a]
  {}

  lemma EntryRestored(m: Mem, m': Mem, sp: Space, sf: Frame, n: nat)
    requires sf !in sp && n <= PAGE_SIZE
    requires forall a: u32 :: !InEntry(sp, sf, a) && !(Addr(sf) <= a < Addr(sf) + n) ==> m'[a] == m[a]
    ensures SameExcept(m, WithEntry(m', sp, sf, Entry(m, sp, sf)), Addr(sf), n)
  {
    var f, i := TableOf(sp, sf), sf % ENTRIES;
    WordAddress(f, i);
    assert sp[TABLES + sf / ENTRIES] == f;
    BytesOfLoad(m, Addr(f) + 4 * i);
  }

  lemma BytesOfLoad(m: Mem, a: u32)
    requires a % 4 == 0
    ensures var v := Load32(m, a);
            && v % 0x100 == m[a] && v / 0x100 % 0x100 == m[a + 1]
            && v / 0x1_0000 % 0x100 == m[a + 2] && v / 0x100_0000 == m[a + 3]
  {
    var b0: int, b1: int, b2: int, b3: int := m[a], m[a + 1], m[a + 2], m[a + 3];
    var v := Load32(m, a);
    assert v == b0 + 0x100 * (b1 + 0x100 * (b2 + 0x100 * b3));
    assert v / 0x100 == b1 + 0x100 * (b2 + 0x100 * b3);
    assert v / 0x1_0000 == b2 + 0x100 * b3;
  }

  /** The borrowed page mapped to its own frame. */
  lemma BorrowedSeen(m: Mem, m2: Mem, f: FlatMap, f2: FlatMap, sp: Space, src: u32, size: nat, sf: Frame, val: u32)
    requires m2 == WithEntry(m, sp, sf, val) && f2 == f[sf := val] && FrameOf(val) == sf
    requires size <= PAGE_SIZE && sf !in sp
    ensures IdentityOn(f2, Addr(sf), size)
    ensures Clear(f, sp, src, size, sf) ==>
              SourceAway(f2, src, Addr(sf), size)
              && forall i :: 0 <= i < size ==>
                   Source(f2, src, i) == Source(f, src, i) && Seen(m2, f2, src, i) == Seen(m, f, src, i)
  {
    EntryBytes(m, sp, sf, val);
    if Clear(f, sp, src, size, sf) {
      forall i | 0 <= i < size
        ensures Source(f2, src, i) == Source(f, src, i) && Seen(m2, f2, src, i) == Seen(m, f, src, i)
        ensures !(Addr(sf) <= Source(f2, src, i) < Addr(sf) + size)
      {}
    }
  }

  /** Borrows page sf of the space, copies the string at src into it, and puts the entry back. */
  method CopyThroughPage(kern: Kernel, pd: u32, vspace: u32, shared: u32, src: u32, size: u32, ghost sp: Space,
                         ghost sf: Frame)
    returns (written: nat)
    requires Wired(kern.mem, sp) && Distinct(sp) && vspace == Addr(sp[VSPACE]) && pd == Addr(sp[DESCRIPTOR])
    requires shared == Addr(sf) && sf !in sp && size <= PAGE_SIZE
    modifies kern`mem
    ensures written <= size && SameExcept(old(kern.mem), kern.mem, shared, written)
    ensures Clear(Flat(old(kern.mem), sp), sp, src, size, sf) ==>
              SeenLength(old(kern.mem), Flat(old(kern.mem), sp), src, size, written)
              && Copied(old(kern.mem), kern.mem, Flat(old(kern.mem), sp), src, shared, written)
  {
    ghost var m, f := kern.mem, Flat(kern.mem, sp);
    SharedPage(shared, sf);
    var oldEntry := kern.VirtToPhy(vspace, shared, sp);
    ghost var val := Borrow(kern, pd, shared, sp, sf);
    ghost var m2 := kern.mem;
    StoreEntry(m, sp, sf, val);
    BorrowedSeen(m, m2, f, Flat(m2, sp), sp, src, size, sf, val);
    PageAway(sp, sf, size);
    written := Strncpy(kern, pd, shared, src, size, sp);
    ghost var m3 := kern.mem;
    EntryBytes(m, sp, sf, val);
    SpaceUnchanged(m2, m3, sp, shared, written);
    var _ := kern.MapVaddrToVal(pd, shared, oldEntry, sp);
    EntryRestored(m, m3, sp, sf, written);
    SharedKept(m3, kern.mem, sp, sf, oldEntry);
    if Clear(f, sp, src, size, sf) {
      BorrowedCopied(m, m2, m3, kern.mem, f, Flat(m2, sp), src, size, sf, written);
    }
  }

  /** What was copied under the borrowed entry is what the task's translation shows. */
  lemma BorrowedCopied(m: Mem, m2: Mem, m3: Mem, m4: Mem, f: FlatMap, f2: FlatMap, src: u32, size: nat, sf: Frame, w: nat)
    requires w <= size <= PAGE_SIZE && Addr(sf) + size <= TWO32
    requires forall i :: 0 <= i < size ==> Seen(m2, f2, src, i) == Seen(m, f, src, i)
    requires forall a: u32 :: FrameOf(a) == sf ==> m4[a] == m3[a]
    requires SeenLength(m2, f2, src, size, w) && Copied(m2, m3, f2, src, Addr(sf), w)
    ensures SeenLength(m, f, src, size, w) && Copied(m, m4, f, src, Addr(sf), w)
  {
    forall a: u32 | Addr(sf) <= a < Addr(sf) + w
      ensures m4[a] == m3[a]
    {
      assert FrameOf(a) == sf;
    }
  }

  /** The page is mapped to itself in the task's space: present, writable and open to users. */
  method Borrow(kern: Kernel, pd: u32, shared: u32, ghost sp: Space, ghost sf: Frame) returns (ghost val: u32)
    requires Wired(kern.mem, sp) && pd == Addr(sp[DESCRIPTOR]) && shared == Addr(sf)
    modifies kern`mem
    ensures val == Or(shared, 7) && FrameOf(val) == sf && kern.mem == WithEntry(old(kern.mem), sp, sf, val)
  {
    SharedPage(shared, sf);
    OrFlags(shared, PRESENT + WRITE + USER);
    val := Or(shared, PRESENT + WRITE + USER);
    var _ := kern.MapVaddrToVal(pd, shared, Or(shared, PRESENT + WRITE + USER), sp);
  }

  lemma SharedPage(shared: u32, sf: Frame)
    requires shared == Addr(sf)
    ensures shared % PAGE_SIZE == 0 && shared / PAGE_SIZE == sf
  {}

  lemma PageAway(sp: Space, sf: Frame, size: nat)
    requires sf !in sp && size <= PAGE_SIZE
    ensures SpaceAway(sp, Addr(sf), size)
  {
    forall r | 0 <= r < BLOCKS
      ensures Addr(sp[r]) + PAGE_SIZE <= Addr(sf) || Addr(sf) + size <= Addr(sp[r])
    {
      assert sp[r] != sf;
    }
  }

  /** Storing an entry does not touch the borrowed frame. */
  lemma SharedKept(m: Mem, m': Mem, sp: Space, sf: Frame, val: u32)
    requires sf !in sp && m' == WithEntry(m, sp, sf, val)
    ensures forall a: u32 :: FrameOf(a) == sf ==> m'[a] == m[a]
  {
    EntryBytes(m, sp, sf, val);
    assert sp[TABLES + sf / ENTRIES] == TableOf(sp, sf);
  }

  // ---------- The whole call ----------

  /** The frame kzalloc(size) takes for a size of at most a block: the first free one. */
  ghost function BorrowedFrame(k: Kern, size: u32): Frame
    requires HeapInv(k)
  {
    FrameOf(KzallocResult(k, size))
  }

  /** No byte of [a, a + n) is in a page that a space is made of. */
  ghost predicate NoSpaceByte(k: Kern, a: u32, n: nat)
  {
    forall b: u32 :: a <= b < a + n ==> Unowned(k, FrameOf(b))
  }

  /** A buffer of the kernel: in no page of a space and in no free block; in the heap or outside it. */
  ghost predicate KernelBuffer(k: Kern, a: u32, n: nat)
  {
    a + n <= TWO32 && NoSpaceByte(k, a, n) && forall b: u32 :: a <= b < a + n ==> !FreeFrame(k, FrameOf(b))
  }

  ghost predicate FreeFrame(k: Kern, f: Frame)
  {
    InHeap(k, f) && k.table[f - FrameOf(k.base)] == FREE
  }

  /** All that is outside the heap is such a buffer, and so is a live allocation that is part of no space. */
  lemma BufferKinds(k: Kern, a: u32, n: nat)
    requires Inv(k) && a + n <= TWO32
    ensures a + n <= k.base || k.base + BLOCK_SIZE * |k.table| <= a ==> KernelBuffer(k, a, n)
    ensures NoSpaceByte(k, a, n) && (exists s :: s in k.live && InRun(k, s, a, n)) ==> KernelBuffer(k, a, n)
  {
    assert k.base == Addr(FrameOf(k.base));
    if a + n <= k.base || k.base + BLOCK_SIZE * |k.table| <= a {
      forall b: u32, v, r | a <= b < a + n && v in k.spaces && 0 <= r < BLOCKS
        ensures k.spaces[v][r] != FrameOf(b)
      {
        assert Owned(k, v, r);
        OneBlockTaken(k, k.spaces[v][r]);
      }
    }
    if s :| s in k.live && InRun(k, s, a, n) {
      forall b: u32 | a <= b < a + n
        ensures !FreeFrame(k, FrameOf(b))
      {
        assert Covers(k.live, s, FrameOf(b) - FrameOf(k.base));
      }
    }
  }

  /** The bytes are in the blocks of the run that starts at block s. */
  ghost predicate InRun(k: Kern, s: nat, a: u32, n: nat)
    requires s in k.live
  {
    k.base + BLOCK_SIZE * s <= a && a + n <= k.base + BLOCK_SIZE * (s + k.live[s])
  }

  lemma BorrowedBlock(k: Kern, size: u32)
    requires Inv(k) && 0 < size <= PAGE_SIZE && FreeBlocks(k.table) != {}
    ensures var sf := BorrowedFrame(k, size);
            && KzallocResult(k, size) == Addr(sf) && KzallocResult(k, size) != 0 && InHeap(k, sf)
            && Unowned(k, sf) && FreeFrame(k, sf) && AfterKzalloc(k, size).mem == Zeroed(k.mem, Addr(sf), size)
  {
    GrownOne(k, size);
    MallocSound(k.base, k.table, size);
    var sf := BorrowedFrame(k, size);
    GrownUnowned(k, AfterKzalloc(k, size), {sf - FrameOf(k.base)}, sf);
  }

  /** No block left, or size 0: kzalloc fails and changes nothing. */
  lemma NoBlock(k: Kern, size: u32)
    requires HeapInv(k) && size <= PAGE_SIZE && (size == 0 || FreeBlocks(k.table) == {})
    ensures KzallocResult(k, size) == 0 && AfterKzalloc(k, size) == k
  {
    RoundingNeverShort(size);
    OneBlockFit(k.table);
    MallocSound(k.base, k.table, size);
  }

  /** Freeing the borrowed block gives the heap table back. */
  lemma BlockReturned(k: Kern, size: u32, m: Mem)
    requires Inv(k) && 0 < size <= PAGE_SIZE && FreeBlocks(k.table) != {}
    ensures var r, k1 := KzallocResult(k, size), AfterKzalloc(k, size).(mem := m);
            && k1.base <= r && BlockOf(k1.base, r) in k1.live
            && AfterKfree(k1, r) == k.(mem := m)
  {
    var r := KzallocResult(k, size);
    GrownOne(k, size);
    var s := FrameOf(r) - FrameOf(k.base);
    assert r == Addr(FrameOf(r)) && k.base == Addr(FrameOf(k.base));
    assert BlockOf(k.base, r) == s;
    assert TakenTable(k.table, {s})[s := FREE] == k.table;
    assert s !in k.live by { FreeNotLive(k, {s}); }
    assert k.live + TakenRuns({s}) - {s} == k.live;
    assert Tail(s, 1) == {};
  }

  /** Bytes outside the heap, or in an unowned page, can change without any space seeing it. */
  lemma UnseenBytes(k: Kern, m: Mem, m': Mem, sf: Frame, w: nat, dst: u32, n: nat)
    requires Inv(k) && Unowned(k, sf) && w <= PAGE_SIZE && NoSpaceByte(k, dst, n)
    requires SameExcept(k.mem, m, Addr(sf), w) && SameExcept(m, m', dst, n)
    ensures Inv(k.(mem := m')) && Flats(k.(mem := m')) == Flats(k)
  {
    var k' := k.(mem := m');
    forall v | v in k.spaces
      ensures LeavesSpace(k, k', k.spaces[v])
    {
      SpaceUnseen(k, m, m', sf, w, dst, n, v);
    }
    OthersKeep(k, k');
  }

  lemma SpaceUnseen(k: Kern, m: Mem, m': Mem, sf: Frame, w: nat, dst: u32, n: nat, v: u32)
    requires HeapInv(k) && v in k.spaces && SpaceInv(k, v) && Unowned(k, sf) && w <= PAGE_SIZE && NoSpaceByte(k, dst, n)
    requires SameExcept(k.mem, m, Addr(sf), w) && SameExcept(m, m', dst, n)
    ensures LeavesSpace(k, k.(mem := m'), k.spaces[v])
  {
    forall r | 0 <= r < BLOCKS
      ensures OneBlock(k.(mem := m'), k.spaces[v][r]) && Page(m', k.spaces[v][r]) == Page(k.mem, k.spaces[v][r])
    {
      assert Owned(k, v, r);
      PageUnseen(k, m, m', sf, w, dst, n, k.spaces[v][r]);
    }
  }

  lemma PageUnseen(k: Kern, m: Mem, m': Mem, sf: Frame, w: nat, dst: u32, n: nat, f: Frame)
    requires f != sf && w <= PAGE_SIZE
    requires forall b: u32 :: dst <= b < dst + n ==> FrameOf(b) != f
    requires SameExcept(k.mem, m, Addr(sf), w) && SameExcept(m, m', dst, n)
    ensures Page(m', f) == Page(k.mem, f)
  {
    forall i | 0 <= i < PAGE_SIZE
      ensures Page(m', f)[i] == Page(k.mem, f)[i]
    {
      assert FrameOf(Addr(f) + i) == f;
    }
  }

  /** A page without a byte of [a, a + n) lies before or behind it. */
  lemma PageApart(f: Frame, a: u32, n: nat)
    requires n > 0 && a + n <= TWO32 && forall b: u32 :: a <= b < a + n ==> FrameOf(b) != f
    ensures Addr(f) + PAGE_SIZE <= a || a + n <= Addr(f)
  {
    var b: u32 := if a < Addr(f) then Addr(f) else a;
    assert Addr(f) <= b < Addr(f) + PAGE_SIZE ==> FrameOf(b) == f;
  }

  lemma BufferAway(k: Kern, v: u32, a: u32, n: nat)
    requires v in k.spaces && n > 0 && a + n <= TWO32 && NoSpaceByte(k, a, n)
    ensures SpaceAway(k.spaces[v], a, n)
  {
    forall r | 0 <= r < BLOCKS
      ensures Addr(k.spaces[v][r]) + PAGE_SIZE <= a || a + n <= Addr(k.spaces[v][r])
    {
      PageApart(k.spaces[v][r], a, n);
    }
  }

  /** The string found in the borrowed page is the task's string. */
  lemma SecondCopy(m0: Mem, m1: Mem, m2: Mem, m3: Mem, f: FlatMap, id: FlatMap, sp: Space, src: u32, size: u32,
                   sf: Frame, dst: u32, w: nat, n: nat)
    requires size <= PAGE_SIZE && m1 == Zeroed(m0, Addr(sf), size) && Clear(f, sp, src, size, sf)
    requires w <= size && SameExcept(m1, m2, Addr(sf), w)
    requires SeenLength(m1, f, src, size, w) && Copied(m1, m2, f, src, Addr(sf), w)
    requires IdentitySpace(id) && dst + size <= TWO32 && (Addr(sf) + PAGE_SIZE <= dst || dst + size <= Addr(sf))
    requires SourceAway(id, Addr(sf), dst, size) ==>
               SeenLength(m2, id, Addr(sf), size, n) && n <= size && Copied(m2, m3, id, Addr(sf), dst, n)
    ensures n == w && SeenLength(m0, f, src, size, n) && Copied(m0, m3, f, src, dst, n)
  {
    SourceSame(m0, m1, f, sp, src, size, sf);
    ReadInPlace(m2, id, Addr(sf), size);
    assert SourceAway(id, Addr(sf), dst, size);
    FirstCopy(m0, m1, m2, f, id, src, size, Addr(sf), w);
    SeenLengthUnique(m2, id, Addr(sf), size, n, w);
  }

  /** What the first copy leaves in the cleared page is the string, and a NUL when there is room. */
  lemma FirstCopy(m0: Mem, m1: Mem, m2: Mem, f: FlatMap, id: FlatMap, src: u32, size: u32, a: u32, w: nat)
    requires w <= size && a + size <= TWO32 && m1 == Zeroed(m0, a, size) && IdentitySpace(id)
    requires SameExcept(m1, m2, a, w) && Copied(m1, m2, f, src, a, w)
    ensures SeenLength(m2, id, a, size, w) && forall i :: 0 <= i < w ==> Seen(m2, id, a, i) == Seen(m1, f, src, i)
  {
    ReadInPlace(m2, id, a, size);
    forall i | 0 <= i < w
      ensures Seen(m2, id, a, i) == Seen(m1, f, src, i) != 0
    {
      assert m2[a + i] == Seen(m1, f, src, i);
    }
    if w < size {
      assert m2[a + w] == m1[a + w];
    }
  }

  /** Clearing the borrowed page changes nothing the task's string is read from. */
  lemma SourceSame(m0: Mem, m1: Mem, f: FlatMap, sp: Space, src: u32, size: u32, sf: Frame)
    requires size <= PAGE_SIZE && m1 == Zeroed(m0, Addr(sf), size) && Clear(f, sp, src, size, sf)
    ensures forall i :: 0 <= i < size ==> Seen(m1, f, src, i) == Seen(m0, f, src, i)
  {
    forall i | 0 <= i < size
      ensures Seen(m1, f, src, i) == Seen(m0, f, src, i)
    {
      assert FrameOf(Source(f, src, i)) != sf;
    }
  }

  /** Under the identity bytes are read where they are. */
  lemma ReadInPlace(m: Mem, id: FlatMap, a: u32, size: nat)
    requires IdentitySpace(id) && a + size <= TWO32
    ensures forall i :: 0 <= i < size ==> Source(id, a, i) == a + i && Seen(m, id, a, i) == m[a + i]
  {}

  lemma BorrowSucceeds(k: Kern, size: u32)
    requires Inv(k) && size <= PAGE_SIZE
    ensures KzallocResult(k, size) != 0 <==> size > 0 && FreeBlocks(k.table) != {}
    ensures KzallocResult(k, size) == 0 ==> AfterKzalloc(k, size) == k
  {
    if size == 0 || FreeBlocks(k.table) == {} {
      NoBlock(k, size);
    } else {
      BorrowedBlock(k, size);
    }
  }

  /** Only the borrowed frame and n bytes from dst on differ. */
  ghost predicate OnlyCopied(m: Mem, m': Mem, sf: Frame, dst: u32, n: nat)
  {
    forall a: u32 :: FrameOf(a) != sf && !(dst <= a < dst + n) ==> m'[a] == m[a]
  }

  /** The two copies: into the borrowed page under the task's tables, and out of it under the kernel's. */
  method CopyTwice(kern: Kernel, task: u32, kernelSpace: u32, shared: u32, src: u32, dst: u32, size: u32,
                   ghost m0: Mem, ghost sp: Space, ghost sf: Frame, ghost ks: Space)
    returns (result: int, ghost written: nat, ghost m2: Mem)
    requires 0 < size <= PAGE_SIZE && shared == Addr(sf) && sf !in sp && sf !in ks
    requires Wired(kern.mem, sp) && Distinct(sp) && task == Addr(sp[VSPACE])
    requires Wired(kern.mem, ks) && kernelSpace == Addr(ks[VSPACE]) && IdentitySpace(Flat(kern.mem, ks))
    requires dst + size <= TWO32 && SpaceAway(ks, dst, size)
    requires Addr(sf) + PAGE_SIZE <= dst || dst + size <= Addr(sf)
    requires kern.mem == Zeroed(m0, Addr(sf), size)
    modifies kern`mem
    ensures 0 <= result <= size && written <= size
    ensures SameExcept(old(kern.mem), m2, Addr(sf), written) && SameExcept(m2, kern.mem, dst, result)
    ensures var f := Flat(old(kern.mem), sp);
            Clear(f, sp, src, size, sf) ==> SeenLength(m0, f, src, size, result) && Copied(m0, kern.mem, f, src, dst, result)
  {
    ghost var m1, f := kern.mem, Flat(kern.mem, sp);
    WordAddress(sp[VSPACE], 0);
    WordAddress(ks[VSPACE], 0);
    var pd := Load32(kern.mem, task);
    assert pd == Word(kern.mem, sp[VSPACE], 0);
    var kernelPd := Load32(kern.mem, kernelSpace);
    assert kernelPd == Word(kern.mem, ks[VSPACE], 0);
    written := CopyThroughPage(kern, pd, task, shared, src, size, sp, sf);
    m2 := kern.mem;
    PageAway(ks, sf, size);
    SpaceUnchanged(m1, m2, ks, shared, written);
    result := Strncpy(kern, kernelPd, dst, shared, size, ks);
    if Clear(f, sp, src, size, sf) {
      SecondCopy(m0, m1, m2, kern.mem, f, Flat(m2, ks), sp, src, size, sf, dst, written, result);
    }
  }

  /** The part of the call after kzalloc has taken the block. */
  method CopyBorrowed(kern: Kernel, task: u32, kernelSpace: u32, shared: u32, src: u32, dst: u32, size: u32,
                      ghost k: Kern)
    returns (result: int)
    requires Inv(k) && 0 < size <= PAGE_SIZE && FreeBlocks(k.table) != {}
    requires kern.Valid() && kern.k == AfterKzalloc(k, size) && shared == KzallocResult(k, size)
    requires task in k.spaces && kernelSpace in k.spaces
    requires IdentitySpace(Flats(k)[kernelSpace]) && KernelBuffer(k, dst, size)
    modifies kern, kern.heap.entries
    ensures kern.Valid() && kern.k == k.(mem := kern.mem) && Flats(kern.k) == Flats(k)
    ensures 0 <= result <= size && OnlyCopied(k.mem, kern.mem, BorrowedFrame(k, size), dst, result)
    ensures var f := Flats(k)[task];
            Clear(f, k.spaces[task], src, size, BorrowedFrame(k, size)) ==>
              SeenLength(k.mem, f, src, size, result) && Copied(k.mem, kern.mem, f, src, dst, result)
  {
    ghost var written, m2;
    result, written, m2 := CopyBoth(kern, task, kernelSpace, shared, src, dst, size, k);
    ReturnBlock(kern, shared, k, size, m2, written, dst, result);
  }

  /** The two copies, between the spaces of a kernel state. */
  method CopyBoth(kern: Kernel, task: u32, kernelSpace: u32, shared: u32, src: u32, dst: u32, size: u32, ghost k: Kern)
    returns (result: int, ghost written: nat, ghost m2: Mem)
    requires Inv(k) && 0 < size <= PAGE_SIZE && FreeBlocks(k.table) != {}
    requires kern.mem == AfterKzalloc(k, size).mem && shared == KzallocResult(k, size)
    requires task in k.spaces && kernelSpace in k.spaces
    requires IdentitySpace(Flats(k)[kernelSpace]) && KernelBuffer(k, dst, size)
    modifies kern`mem
    ensures 0 <= result <= size && written <= size
    ensures SameExcept(AfterKzalloc(k, size).mem, m2, Addr(BorrowedFrame(k, size)), written)
    ensures SameExcept(m2, kern.mem, dst, result)
    ensures var f := Flats(k)[task];
            Clear(f, k.spaces[task], src, size, BorrowedFrame(k, size)) ==>
              SeenLength(k.mem, f, src, size, result) && Copied(k.mem, kern.mem, f, src, dst, result)
  {
    ReadyToCopy(k, size, task, kernelSpace, dst);
    result, written, m2 := CopyTwice(kern, task, kernelSpace, shared, src, dst, size, k.mem,
                                     k.spaces[task], BorrowedFrame(k, size), k.spaces[kernelSpace]);
  }

  lemma ReadyToCopy(k: Kern, size: u32, task: u32, kernelSpace: u32, dst: u32)
    requires Inv(k) && 0 < size <= PAGE_SIZE && FreeBlocks(k.table) != {}
    requires task in k.spaces && kernelSpace in k.spaces && KernelBuffer(k, dst, size)
    ensures var k1, sf, sp, ks := AfterKzalloc(k, size), BorrowedFrame(k, size), k.spaces[task], k.spaces[kernelSpace];
            && KzallocResult(k, size) == Addr(sf) && sf !in sp && sf !in ks && k1.mem == Zeroed(k.mem, Addr(sf), size)
            && Wired(k1.mem, sp) && Distinct(sp) && task == Addr(sp[VSPACE]) && Flat(k1.mem, sp) == Flats(k)[task]
            && Wired(k1.mem, ks) && kernelSpace == Addr(ks[VSPACE]) && Flat(k1.mem, ks) == Flats(k)[kernelSpace]
            && SpaceAway(ks, dst, size) && (Addr(sf) + PAGE_SIZE <= dst || dst + size <= Addr(sf))
  {
    BorrowedBlock(k, size);
    SameSpaces(k, size, task);
    SameSpaces(k, size, kernelSpace);
    BufferAway(k, kernelSpace, dst, size);
    PageApart(BorrowedFrame(k, size), dst, size);
  }

  lemma CopyDone(k: Kern, size: u32, m2: Mem, m3: Mem, w: nat, dst: u32, n: nat)
    requires Inv(k) && 0 < size <= PAGE_SIZE && FreeBlocks(k.table) != {}
    requires w <= size && n <= size && KernelBuffer(k, dst, size)
    requires SameExcept(AfterKzalloc(k, size).mem, m2, Addr(BorrowedFrame(k, size)), w) && SameExcept(m2, m3, dst, n)
    ensures var k1, r, sf := AfterKzalloc(k, size).(mem := m3), KzallocResult(k, size), BorrowedFrame(k, size);
            && Inv(k1) && Flats(k1) == Flats(k) && OnlyCopied(k.mem, m3, sf, dst, n)
            && k1.base <= r && BlockOf(k1.base, r) in k1.live && Unowned(k1, sf)
            && AfterKfree(k1, r) == k.(mem := m3)
  {
    var k1, sf := AfterKzalloc(k, size), BorrowedFrame(k, size);
    KzallocKeeps(k, size);
    BorrowedBlock(k, size);
    UnseenBytes(k1, m2, m3, sf, w, dst, n);
    OnlyThose(k.mem, k1.mem, m2, m3, sf, size, w, dst, n);
    BlockReturned(k, size, m3);
  }

  /** kfree of the borrowed block, with memory as the copies left it. */
  method ReturnBlock(kern: Kernel, shared: u32, ghost k: Kern, ghost size: u32, ghost m2: Mem, ghost w: nat,
                     ghost dst: u32, ghost n: nat)
    requires Inv(k) && 0 < size <= PAGE_SIZE && FreeBlocks(k.table) != {}
    requires w <= size && n <= size && KernelBuffer(k, dst, size)
    requires SameExcept(AfterKzalloc(k, size).mem, m2, Addr(BorrowedFrame(k, size)), w) && SameExcept(m2, kern.mem, dst, n)
    requires AfterKzalloc(k, size).base == kern.heap.base && AfterKzalloc(k, size).table == kern.heap.entries[..]
    requires shared == KzallocResult(k, size)
    modifies kern, kern.heap.entries
    ensures kern.Valid() && kern.mem == old(kern.mem) && kern.k == k.(mem := kern.mem)
    ensures Flats(kern.k) == Flats(k) && OnlyCopied(k.mem, kern.mem, BorrowedFrame(k, size), dst, n)
  {
    CopyDone(k, size, m2, kern.mem, w, dst, n);
    kern.k := AfterKzalloc(k, size).(mem := kern.mem);
    kern.Kfree(shared);
  }

  /** What the copies need to know of a space after kzalloc. */
  lemma SameSpaces(k: Kern, size: u32, v: u32)
    requires Inv(k) && v in k.spaces && 0 < size <= PAGE_SIZE && FreeBlocks(k.table) != {}
    ensures var k1 := AfterKzalloc(k, size);
            && Inv(k1) && Wired(k1.mem, k.spaces[v]) && Distinct(k.spaces[v]) && v == Addr(k.spaces[v][VSPACE])
            && Flat(k1.mem, k.spaces[v]) == Flats(k)[v] && BorrowedFrame(k, size) !in k.spaces[v]
  {
    KzallocKeeps(k, size);
    SpaceFacts(AfterKzalloc(k, size), v);
    BorrowedBlock(k, size);
    assert Flats(AfterKzalloc(k, size))[v] == Flats(k)[v];
  }

  lemma OnlyThose(m0: Mem, m1: Mem, m2: Mem, m3: Mem, sf: Frame, size: u32, w: nat, dst: u32, n: nat)
    requires size <= PAGE_SIZE && m1 == Zeroed(m0, Addr(sf), size) && w <= size
    requires SameExcept(m1, m2, Addr(sf), w) && SameExcept(m2, m3, dst, n)
    ensures OnlyCopied(m0, m3, sf, dst, n)
  {}

  /**
    Copies the string at src in a task's memory to dst in the kernel's, through a page borrowed in the
    task's address space: the page of the block that kzalloc takes for the copy.
   */
  method CopyFromTask(kern: Kernel, task: u32, kernelSpace: u32, src: u32, dst: u32, size: u32) returns (result: int)
    requires kern.Valid() && task in kern.k.spaces && kernelSpace in kern.k.spaces
    requires IdentitySpace(Flats(kern.k)[kernelSpace]) && KernelBuffer(kern.k, dst, size)
    modifies kern, kern.heap.entries
    ensures kern.Valid() && kern.k == old(kern.k).(mem := kern.mem) && Flats(kern.k) == Flats(old(kern.k))
    ensures size > PAGE_SIZE ==> result == -ERR_INVARG && kern.k == old(kern.k)
    ensures size <= PAGE_SIZE && (size == 0 || FreeBlocks(old(kern.k).table) == {}) ==>
              result == -ERR_MALLOC_FAIL && kern.k == old(kern.k)
    ensures 0 < size <= PAGE_SIZE && FreeBlocks(old(kern.k).table) != {} ==>
              var k, f := old(kern.k), Flats(old(kern.k))[task];
              && 0 <= result <= size && OnlyCopied(k.mem, kern.mem, BorrowedFrame(k, size), dst, result)
              && (Clear(f, k.spaces[task], src, size, BorrowedFrame(k, size)) ==>
                    SeenLength(k.mem, f, src, size, result) && Copied(k.mem, kern.mem, f, src, dst, result))
  {
    ghost var k := kern.k;
    if size > PAGE_SIZE {
      return -ERR_INVARG;
    }
    BorrowSucceeds(k, size);
    var shared := kern.Kzalloc(size);
    if shared == 0 {
      return -ERR_MALLOC_FAIL;
    }
    result := CopyBorrowed(kern, task, kernelSpace, shared, src, dst, size, k);
  }

  /** What the copy does is a step of the runs of AddressSpaces that no space sees. */
  lemma CopyIsStep(k: Kern, k': Kern, size: u32, dst: u32, n: nat)
    requires Inv(k) && 0 < size <= PAGE_SIZE && FreeBlocks(k.table) != {} && n <= size && NoSpaceByte(k, dst, size)
    requires k' == k.(mem := k'.mem) && OnlyCopied(k.mem, k'.mem, BorrowedFrame(k, size), dst, n)
    ensures Step(k, Other, k')
  {
    BorrowedBlock(k, size);
    forall v | v in k.spaces
      ensures LeavesSpace(k, k', k.spaces[v])
    {
      SpaceUntouched(k, k', BorrowedFrame(k, size), dst, n, v);
    }
  }

  lemma SpaceUntouched(k: Kern, k': Kern, sf: Frame, dst: u32, n: nat, v: u32)
    requires v in k.spaces && SpaceInv(k, v) && Unowned(k, sf) && NoSpaceByte(k, dst, n)
    requires k' == k.(mem := k'.mem) && OnlyCopied(k.mem, k'.mem, sf, dst, n)
    ensures LeavesSpace(k, k', k.spaces[v])
  {
    forall r | 0 <= r < BLOCKS
      ensures OneBlock(k', k.spaces[v][r]) && Page(k'.mem, k.spaces[v][r]) == Page(k.mem, k.spaces[v][r])
    {
      assert Owned(k, v, r);
      PageUntouched(k, k', sf, dst, n, k.spaces[v][r]);
    }
  }

  lemma PageUntouched(k: Kern, k': Kern, sf: Frame, dst: u32, n: nat, f: Frame)
    requires OnlyCopied(k.mem, k'.mem, sf, dst, n) && f != sf
    requires forall b: u32 :: dst <= b < dst + n ==> FrameOf(b) != f
    ensures Page(k'.mem, f) == Page(k.mem, f)
  {
    forall i | 0 <= i < PAGE_SIZE
      ensures Page(k'.mem, f)[i] == Page(k.mem, f)[i]
    {
      assert FrameOf(Addr(f) + i) == f;
    }
  }
}
