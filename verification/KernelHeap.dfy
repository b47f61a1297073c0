/** The kernel's own allocations: what kzalloc and kfree do to a kernel state and to its address spaces. */
module KernelHeap {
  import opened Words
  import opened HeapTable
  import opened HeapRuns
  import opened Memory
  import opened Paging

  ghost function HeapView(k: Kern): View
  {
    View(k.table, k.live, k.lost)
  }

  ghost function WithHeap(k: Kern, h: View): Kern
  {
    k.(table := h.table, live := h.live, lost := h.lost)
  }

  ghost function KzallocResult(k: Kern, size: u32): u32
    requires HeapInv(k)
  {
    MallocSound(k.base, k.table, size);
    MallocResult(k.base, k.table, size)
  }

  /** kzalloc: malloc, then the requested bytes set to zero. */
  ghost function AfterKzalloc(k: Kern, size: u32): Kern
    requires HeapInv(k)
  {
    var r := KzallocResult(k, size);
    MallocSound(k.base, k.table, size);
    var k1 := WithHeap(k, AfterMalloc(HeapView(k), size));
    if r == 0 then k1 else k1.(mem := Zeroed(k.mem, r, size))
  }

  /** kfree, with free_blocks as written. */
  ghost function AfterKfree(k: Kern, addr: u32): Kern
  {
    WithHeap(k, AfterFree(HeapView(k), BlockOf(k.base, addr), false))
  }

  /** The entry of a frame in the heap table. */
  ghost predicate InHeap(k: Kern, f: Frame)
  {
    0 <= f - FrameOf(k.base) < |k.table|
  }

  lemma OneBlockTaken(k: Kern, f: Frame)
    requires HeapInv(k) && OneBlock(k, f)
    ensures InHeap(k, f) && k.table[f - FrameOf(k.base)] == TAKEN | IS_FIRST != FREE
  {
    var b := f - FrameOf(k.base);
    assert Covers(k.live, b, b);
  }

  /** An allocation touches no page of a space. */
  lemma KzallocKeeps(k: Kern, size: u32)
    requires Inv(k)
    ensures Inv(AfterKzalloc(k, size))
    ensures Flats(AfterKzalloc(k, size)) == Flats(k)
  {
    KzallocLeaves(k, size);
    OthersKeep(k, AfterKzalloc(k, size));
  }

  lemma KzallocLeaves(k: Kern, size: u32)
    requires Inv(k)
    ensures HeapInv(AfterKzalloc(k, size)) && LeavesSpaces(k, AfterKzalloc(k, size))
  {
    KzallocHeap(k, size);
    forall v | v in k.spaces
      ensures LeavesSpace(k, AfterKzalloc(k, size), k.spaces[v])
    {
      KzallocMissesSpace(k, size, v);
    }
  }

  lemma KzallocHeap(k: Kern, size: u32)
    requires HeapInv(k)
    ensures HeapInv(AfterKzalloc(k, size))
    ensures var k' := AfterKzalloc(k, size);
            k' == k.(table := k'.table, live := k'.live, mem := k'.mem)
  {
    MallocKeeps(HeapView(k), size);
  }

  lemma KzallocMissesSpace(k: Kern, size: u32, v: u32)
    requires HeapInv(k) && v in k.spaces && SpaceInv(k, v)
    ensures LeavesSpace(k, AfterKzalloc(k, size), k.spaces[v])
  {
    forall r | 0 <= r < BLOCKS
      ensures OneBlock(AfterKzalloc(k, size), k.spaces[v][r])
      ensures Page(AfterKzalloc(k, size).mem, k.spaces[v][r]) == Page(k.mem, k.spaces[v][r])
    {
      assert Owned(k, v, r);
      KzallocMissesBlock(k, size, k.spaces[v][r]);
    }
  }

  lemma KzallocMissesBlock(k: Kern, size: u32, f: Frame)
    requires HeapInv(k) && OneBlock(k, f)
    ensures OneBlock(AfterKzalloc(k, size), f)
    ensures Page(AfterKzalloc(k, size).mem, f) == Page(k.mem, f)
  {
    var k' := AfterKzalloc(k, size);
    var b := f - FrameOf(k.base);
    MallocSound(k.base, k.table, size);
    RoundingNeverShort(size);
    OneBlockTaken(k, f);
    match FirstFit(k.table, BlocksFor(size)) {
      case None =>
      case Some(s) =>
        FreeRunMissesRun(HeapView(k), s, BlocksFor(size), b);
        forall i | 0 <= i < PAGE_SIZE
          ensures Page(k'.mem, f)[i] == Page(k.mem, f)[i]
        {
          var a := Addr(f) + i;
          assert a < k.base + BLOCK_SIZE * s || k.base + BLOCK_SIZE * (s + BlocksFor(size)) <= a;
        }
    }
  }

  /** Giving back a run, or a block that is free already, touches no page of a space unless the space owns it. */
  lemma KfreeKeeps(k: Kern, addr: u32)
    requires Inv(k)
    requires MayFree(k, addr)
    ensures Inv(AfterKfree(k, addr))
    ensures Flats(AfterKfree(k, addr)) == Flats(k)
  {
    KfreeLeaves(k, addr);
    OthersKeep(k, AfterKfree(k, addr));
  }

  /** The address of a live run or of a free block, in a page that no space owns. */
  ghost predicate MayFree(k: Kern, addr: u32)
  {
    && (var s := BlockOf(k.base, addr);
        s in k.live || (s < |k.table| && k.table[s] == FREE))
    && k.base <= addr && Unowned(k, FrameOf(addr))
  }

  lemma KfreeLeaves(k: Kern, addr: u32)
    requires Inv(k) && MayFree(k, addr)
    ensures HeapInv(AfterKfree(k, addr)) && LeavesSpaces(k, AfterKfree(k, addr))
  {
    var k' := AfterKfree(k, addr);
    FreeKeeps(HeapView(k), BlockOf(k.base, addr), false);
    forall v | v in k.spaces
      ensures LeavesSpace(k, k', k.spaces[v])
    {
      forall r | 0 <= r < BLOCKS
        ensures OneBlock(k', k.spaces[v][r])
      {
        assert Owned(k, v, r);
        KfreeMissesBlock(k, addr, k.spaces[v][r]);
      }
    }
  }

  lemma KfreeMissesBlock(k: Kern, addr: u32, f: Frame)
    requires HeapInv(k) && k.base <= addr && OneBlock(k, f) && FrameOf(addr) != f
    ensures OneBlock(AfterKfree(k, addr), f)
  {
    assert BlockOf(k.base, addr) == FrameOf(addr) - FrameOf(k.base);
  }

  // ---------- Taking several blocks ----------

  function TakenTable(t: Table, blocks: set<nat>): Table
  {
    seq(|t|, i requires 0 <= i < |t| => if i in blocks then TAKEN | IS_FIRST else t[i])
  }

  function TakenRuns(blocks: set<nat>): Runs
  {
    map b | b in blocks :: 1
  }

  /** The frame is one of the given blocks of a heap that starts at frame `first`. */
  predicate AmongBlocks(first: Frame, blocks: set<nat>, f: Frame)
  {
    first <= f && f - first in blocks
  }

  ghost predicate SameOutsideBlocks(m: Mem, n: Mem, first: Frame, blocks: set<nat>)
  {
    forall f: Frame :: !AmongBlocks(first, blocks, f) ==> Page(n, f) == Page(m, f)
  }

  /** k' is k after the blocks were taken, each as a run of its own; only their pages have changed. */
  ghost predicate Grown(k: Kern, k': Kern, blocks: set<nat>)
  {
    && blocks <= FreeBlocks(k.table)
    && k' == k.(table := TakenTable(k.table, blocks), live := k.live + TakenRuns(blocks), mem := k'.mem)
    && SameOutsideBlocks(k.mem, k'.mem, FrameOf(k.base), blocks)
  }

  lemma GrownCount(t: Table, blocks: set<nat>)
    requires blocks <= FreeBlocks(t)
    ensures FreeBlocks(TakenTable(t, blocks)) == FreeBlocks(t) - blocks
    ensures |FreeBlocks(TakenTable(t, blocks))| == |FreeBlocks(t)| - |blocks|
  {
    assert FreeBlocks(TakenTable(t, blocks)) == FreeBlocks(t) - blocks;
    assert FreeBlocks(t) == (FreeBlocks(t) - blocks) + blocks;
  }

  lemma TakenTwice(t: Table, live: Runs, a: set<nat>, b: set<nat>)
    requires a <= FreeBlocks(t) && b <= FreeBlocks(TakenTable(t, a))
    ensures a !! b && a + b <= FreeBlocks(t)
    ensures TakenTable(TakenTable(t, a), b) == TakenTable(t, a + b)
    ensures live + TakenRuns(a) + TakenRuns(b) == live + TakenRuns(a + b)
  {
    GrownCount(t, a);
  }

  lemma GrownTrans(k: Kern, k1: Kern, k2: Kern, a: set<nat>, b: set<nat>)
    requires Grown(k, k1, a) && Grown(k1, k2, b)
    ensures a !! b && Grown(k, k2, a + b)
  {
    TakenTwice(k.table, k.live, a, b);
    forall f: Frame | !AmongBlocks(FrameOf(k.base), a + b, f)
      ensures Page(k2.mem, f) == Page(k.mem, f)
    {
      assert Page(k1.mem, f) == Page(k.mem, f);
    }
  }

  /** One kzalloc of at most a block takes the first free block and hands out its address. */
  lemma GrownOne(k: Kern, size: u32)
    requires Inv(k) && 0 < size <= BLOCK_SIZE && FreeBlocks(k.table) != {}
    ensures var r := KzallocResult(k, size);
            && r % PAGE_SIZE == 0 && FrameOf(k.base) <= FrameOf(r)
            && Grown(k, AfterKzalloc(k, size), {FrameOf(r) - FrameOf(k.base)})
  {
    var k', r := AfterKzalloc(k, size), KzallocResult(k, size);
    RoundingNeverShort(size);
    assert BlocksFor(size) == 1;
    OneBlockFit(k.table);
    MallocSound(k.base, k.table, size);
    var s := FirstFit(k.table, 1).value;
    assert FrameOf(r) - FrameOf(k.base) == s;
    assert k'.live == k.live + TakenRuns({s});
    assert k'.table == TakenTable(k.table, {s});
    forall f: Frame | !AmongBlocks(FrameOf(k.base), {s}, f)
      ensures Page(k'.mem, f) == Page(k.mem, f)
    {
      assert f != FrameOf(r);
    }
  }

  /** The taken blocks belong to no space. */
  lemma GrownUnowned(k: Kern, k': Kern, blocks: set<nat>, f: Frame)
    requires Inv(k) && Grown(k, k', blocks) && AmongBlocks(FrameOf(k.base), blocks, f)
    ensures Unowned(k, f) && Unowned(k', f) && OneBlock(k', f)
  {
    forall v, r | v in k.spaces && 0 <= r < BLOCKS
      ensures k.spaces[v][r] != f
    {
      assert Owned(k, v, r);
      OneBlockTaken(k, k.spaces[v][r]);
    }
  }

  /** Writing to pages taken since k changes nothing else. */
  lemma GrownWrite(k: Kern, k': Kern, blocks: set<nat>, m: Mem)
    requires Grown(k, k', blocks) && SameOutsideBlocks(k'.mem, m, FrameOf(k.base), blocks)
    ensures Grown(k, k'.(mem := m), blocks)
  {
    forall f: Frame | !AmongBlocks(FrameOf(k.base), blocks, f)
      ensures Page(m, f) == Page(k.mem, f)
    {
      assert Page(m, f) == Page(k'.mem, f);
    }
  }

  lemma TakenEncodes(t: Table, live: Runs, lost: set<nat>, blocks: set<nat>)
    requires Encodes(t, live, lost) && blocks <= FreeBlocks(t)
    ensures Encodes(TakenTable(t, blocks), live + TakenRuns(blocks), lost)
  {
    var t', live' := TakenTable(t, blocks), live + TakenRuns(blocks);
    forall b, s: nat | b in blocks && s in live
      ensures b < s || s + live[s] <= b
    {
      assert !Covers(live, s, b);
    }
    forall s: nat, i: nat | Covers(live', s, i)
      ensures t'[i] == RunEntry(i, s, live'[s]) && i !in lost
    {
      assert s !in blocks ==> Covers(live, s, i);
    }
    forall i | 0 <= i < |t'| && t'[i] != FREE && i !in lost
      ensures exists s :: Covers(live', s, i)
    {
      if i in blocks {
        assert Covers(live', i, i);
      } else {
        var s :| Covers(live, s, i);
        assert Covers(live', s, i);
      }
    }
  }

  /** Taking blocks and writing to them keeps the invariant, and no space sees it. */
  lemma GrownInv(k: Kern, k': Kern, blocks: set<nat>)
    requires Inv(k) && Grown(k, k', blocks)
    ensures Inv(k') && Flats(k') == Flats(k)
  {
    TakenEncodes(k.table, k.live, k.lost, blocks);
    forall v | v in k.spaces
      ensures LeavesSpace(k, k', k.spaces[v])
    {
      forall r | 0 <= r < BLOCKS
        ensures OneBlock(k', k.spaces[v][r]) && Page(k'.mem, k.spaces[v][r]) == Page(k.mem, k.spaces[v][r])
      {
        assert Owned(k, v, r);
        GrownMissesBlock(k, k', blocks, k.spaces[v][r]);
      }
    }
    OthersKeep(k, k');
  }

  lemma GrownMissesBlock(k: Kern, k': Kern, blocks: set<nat>, f: Frame)
    requires HeapInv(k) && Grown(k, k', blocks) && OneBlock(k, f)
    ensures OneBlock(k', f) && Page(k'.mem, f) == Page(k.mem, f)
  {
    OneBlockTaken(k, f);
  }

  // ---------- Giving several blocks back ----------

  function FreedTable(t: Table, blocks: set<nat>): Table
  {
    seq(|t|, i requires 0 <= i < |t| => if i in blocks then FREE else t[i])
  }

  /** The kernel after the one-block runs `blocks` were given back. */
  ghost function Freed(k: Kern, blocks: set<nat>): Kern
  {
    k.(table := FreedTable(k.table, blocks), live := k.live - blocks)
  }

  ghost predicate OneBlockRuns(k: Kern, blocks: set<nat>)
  {
    forall b :: b in blocks ==> b in k.live && k.live[b] == 1
  }

  lemma FreedEncodes(t: Table, live: Runs, lost: set<nat>, blocks: set<nat>)
    requires Encodes(t, live, lost) && forall b :: b in blocks ==> b in live && live[b] == 1
    ensures Encodes(FreedTable(t, blocks), live - blocks, lost)
  {
    var t', live' := FreedTable(t, blocks), live - blocks;
    forall b | b in blocks
      ensures b < |t| && t[b] != FREE && b !in lost
    {
      assert Covers(live, b, b);
    }
    forall s: nat, i: nat | Covers(live', s, i)
      ensures t'[i] == RunEntry(i, s, live'[s]) && i !in lost
    {
      assert Covers(live, s, i);
    }
    forall i | 0 <= i < |t'| && t'[i] != FREE && i !in lost
      ensures exists s :: Covers(live', s, i)
    {
      var s :| Covers(live, s, i);
      assert Covers(live', s, i);
    }
  }

  lemma FreedKeeps(k: Kern, blocks: set<nat>)
    requires Inv(k) && OneBlockRuns(k, blocks)
    requires forall f: Frame :: AmongBlocks(FrameOf(k.base), blocks, f) ==> Unowned(k, f)
    ensures Inv(Freed(k, blocks)) && Flats(Freed(k, blocks)) == Flats(k)
  {
    var k' := Freed(k, blocks);
    FreedEncodes(k.table, k.live, k.lost, blocks);
    forall v | v in k.spaces
      ensures LeavesSpace(k, k', k.spaces[v])
    {
      forall r | 0 <= r < BLOCKS
        ensures OneBlock(k', k.spaces[v][r])
      {
        assert Owned(k, v, r);
        assert !AmongBlocks(FrameOf(k.base), blocks, k.spaces[v][r]);
      }
    }
    OthersKeep(k, k');
  }

  lemma FreedCount(k: Kern, blocks: set<nat>)
    requires HeapInv(k) && OneBlockRuns(k, blocks)
    ensures blocks !! FreeBlocks(k.table)
    ensures FreeBlocks(FreedTable(k.table, blocks)) == FreeBlocks(k.table) + blocks
    ensures |FreeBlocks(FreedTable(k.table, blocks))| == |FreeBlocks(k.table)| + |blocks|
  {
    forall b | b in blocks
      ensures b < |k.table| && k.table[b] != FREE
    {
      assert Covers(k.live, b, b);
    }
    assert FreeBlocks(FreedTable(k.table, blocks)) == FreeBlocks(k.table) + blocks;
  }
}
