/** Allocations that the kernel holds while others, and address spaces, come and go. */
module HeldBlocks {
  import opened Words
  import opened HeapTable
  import opened HeapRuns
  import opened Memory
  import opened Paging
  import opened KernelHeap
  import opened AddressSpaces

  /** The address of a live allocation in no page of an address space. */
  ghost predicate Held(k: Kern, a: u32)
  {
    a % PAGE_SIZE == 0 && InLive(k, FrameOf(a)) && Unowned(k, FrameOf(a))
  }

  ghost predicate InLive(k: Kern, f: Frame)
  {
    FrameOf(k.base) <= f && f - FrameOf(k.base) in k.live
  }

  ghost predicate AllHeld(k: Kern, held: set<u32>)
  {
    forall a :: a in held ==> Held(k, a)
  }

  /** The number of free blocks. */
  ghost function Room(k: Kern): nat
  {
    |FreeBlocks(k.table)|
  }

  lemma BlockAt(k: Kern, a: u32)
    requires HeapInv(k) && a % PAGE_SIZE == 0 && FrameOf(k.base) <= FrameOf(a)
    ensures k.base <= a && BlockOf(k.base, a) == FrameOf(a) - FrameOf(k.base) && a == Addr(FrameOf(a))
  {}

  /** The first block of a live allocation is taken. */
  lemma LiveTaken(k: Kern, f: Frame)
    requires HeapInv(k) && InLive(k, f)
    ensures InHeap(k, f) && k.table[f - FrameOf(k.base)] != FREE
  {
    var b := f - FrameOf(k.base);
    assert Covers(k.live, b, b);
  }

  lemma OwnedTaken(k: Kern, f: Frame)
    requires Inv(k) && !Unowned(k, f)
    ensures InHeap(k, f) && k.table[f - FrameOf(k.base)] != FREE
  {
    var v, r :| v in k.spaces && 0 <= r < BLOCKS && k.spaces[v][r] == f;
    assert Owned(k, v, r);
    OneBlockTaken(k, f);
  }

  // ---------- kzalloc ----------

  /** What was held is still held; a result that is not null is held too, and was not before. */
  lemma KzallocHolds(k: Kern, size: u32, held: set<u32>)
    requires Inv(k) && AllHeld(k, held)
    ensures var r := KzallocResult(k, size);
            && AllHeld(AfterKzalloc(k, size), if r == 0 then held else held + {r})
            && (r != 0 ==> r !in held)
  {
    var k', r := AfterKzalloc(k, size), KzallocResult(k, size);
    MallocSound(k.base, k.table, size);
    if r != 0 {
      NewBlock(k, size);
    }
    forall a | a in held
      ensures Held(k', a) && (r != 0 ==> a != r)
    {
      StillHeld(k, size, a);
    }
  }

  lemma NewBlock(k: Kern, size: u32)
    requires Inv(k) && KzallocResult(k, size) != 0
    ensures var r := KzallocResult(k, size);
            && Held(AfterKzalloc(k, size), r)
            && InHeap(k, FrameOf(r)) && k.table[FrameOf(r) - FrameOf(k.base)] == FREE
  {
    var r := KzallocResult(k, size);
    MallocSound(k.base, k.table, size);
    RoundingNeverShort(size);
    var s := FirstFit(k.table, BlocksFor(size)).value;
    assert r == k.base + BLOCK_SIZE * s && FrameOf(r) == FrameOf(k.base) + s;
    if !Unowned(k, FrameOf(r)) {
      OwnedTaken(k, FrameOf(r));
    }
  }

  lemma StillHeld(k: Kern, size: u32, a: u32)
    requires Inv(k) && Held(k, a)
    ensures Held(AfterKzalloc(k, size), a)
    ensures KzallocResult(k, size) != 0 ==> a != KzallocResult(k, size)
  {
    MoreLive(k, size);
    LiveTaken(k, FrameOf(a));
    if KzallocResult(k, size) != 0 {
      NewBlock(k, size);
    }
  }

  lemma MoreLive(k: Kern, size: u32)
    requires HeapInv(k)
    ensures var k' := AfterKzalloc(k, size);
            k'.spaces == k.spaces && k'.base == k.base && k.live.Keys <= k'.live.Keys
  {}

  /** An allocation takes no more blocks than it is of. */
  lemma KzallocRoom(k: Kern, size: u32)
    requires HeapInv(k)
    ensures Room(AfterKzalloc(k, size)) + BlocksFor(size) >= Room(k)
  {
    var n := BlocksFor(size);
    match FirstFit(k.table, n) {
      case None =>
      case Some(s) =>
        FewerFree(FreeBlocks(k.table), FreeBlocks(AfterKzalloc(k, size).table), {s} + Tail(s, n));
    }
  }

  lemma FewerFree(before: set<nat>, after: set<nat>, taken: set<nat>)
    requires before <= after + taken
    ensures |before| <= |after| + |taken|
  {
    Fewer(before, after + taken);
  }

  lemma {:induction false} Fewer(a: set<nat>, b: set<nat>)
    requires a <= b
    ensures |a| <= |b|
  {
    if a != {} {
      var x :| x in a;
      Fewer(a - {x}, b - {x});
    }
  }

  // ---------- kfree ----------

  /** What is held may be freed; everything else that was held is held afterwards. */
  lemma KfreeHolds(k: Kern, a: u32, held: set<u32>)
    requires Inv(k) && AllHeld(k, held) && a in held
    ensures MayFree(k, a) && AllHeld(AfterKfree(k, a), held - {a})
    ensures MayFree(AfterKfree(k, a), a)
  {
    MayFreeTwice(k, a);
    forall b | b in held - {a}
      ensures Held(AfterKfree(k, a), b)
    {
      OtherHeld(k, a, b);
    }
  }

  lemma MayFreeTwice(k: Kern, a: u32)
    requires Inv(k) && Held(k, a)
    ensures MayFree(k, a) && MayFree(AfterKfree(k, a), a)
  {
    BlockAt(k, a);
    LiveTaken(k, FrameOf(a));
  }

  lemma OtherHeld(k: Kern, a: u32, b: u32)
    requires Inv(k) && Held(k, a) && Held(k, b) && a != b
    ensures Held(AfterKfree(k, a), b)
  {
    BlockAt(k, a);
    BlockAt(k, b);
  }

  /** Freeing a block that is free already changes nothing. */
  lemma FreedAgain(k: Kern, a: u32)
    requires Inv(k) && MayFree(k, a) && BlockOf(k.base, a) !in k.live
    ensures AfterKfree(k, a) == k
  {
    FreeKeeps(HeapView(k), BlockOf(k.base, a), false);
  }

  lemma KfreeGone(k: Kern, a: u32)
    ensures BlockOf(k.base, a) !in AfterKfree(k, a).live && AfterKfree(k, a).base == k.base
  {}

  lemma KfreeRoom(k: Kern, a: u32)
    ensures Room(AfterKfree(k, a)) >= Room(k)
  {
    Fewer(FreeBlocks(k.table), FreeBlocks(AfterKfree(k, a).table));
  }

  /** The block at an address is free again. */
  ghost predicate FreeAt(k: Kern, a: u32)
  {
    var b := BlockOf(k.base, a);
    b < |k.table| && b !in k.live && k.table[b] == FREE
  }

  ghost predicate GivenBack(k: Kern, gone: set<u32>)
  {
    forall a :: a in gone ==> FreeAt(k, a)
  }

  /** One block more is free: kfree as written frees the first block of an allocation. */
  lemma KfreeGives(k: Kern, a: u32, gone: set<u32>)
    requires Inv(k) && Held(k, a) && GivenBack(k, gone)
    ensures GivenBack(AfterKfree(k, a), gone + {a}) && Room(AfterKfree(k, a)) == Room(k) + 1
  {
    hide Inv, AfterKfree;
    KfreeEntry(k, a);
    OneMoreFree(k.table, BlockOf(k.base, a));
    forall b | b in gone + {a}
      ensures FreeAt(AfterKfree(k, a), b)
    {
      assert b in gone ==> FreeAt(k, b);
    }
  }

  lemma KfreeEntry(k: Kern, a: u32)
    requires Inv(k) && Held(k, a)
    ensures var b, k' := BlockOf(k.base, a), AfterKfree(k, a);
            && b < |k.table| && k.table[b] != FREE
            && k'.base == k.base && k'.table == k.table[b := FREE] && k'.live == k.live - {b}
  {
    BlockAt(k, a);
    LiveTaken(k, FrameOf(a));
  }

  lemma OneMoreFree(t: Table, b: nat)
    requires b < |t| && t[b] != FREE
    ensures |FreeBlocks(t[b := FREE])| == |FreeBlocks(t)| + 1
  {
    assert FreeBlocks(t[b := FREE]) == FreeBlocks(t) + {b};
  }

  /** Destroying a space gives back 1026 blocks, and takes none. */
  lemma DestroyedGives(k: Kern, v: u32, k': Kern, gone: set<u32>)
    requires Inv(k) && Destroyed(k, v, k', false) && GivenBack(k, gone)
    ensures GivenBack(k', gone) && Room(k') == Room(k) + 1026
  {
    DestroyedKeeps(k, v, k', false);
    DestroyedHeap(k, v, k', false);
    forall a | a in gone
      ensures FreeAt(k', a)
    {
      assert FreeAt(k, a);
    }
  }

  // ---------- Address spaces ----------

  lemma CreatedHolds(k: Kern, flags: byte, v: u32, k': Kern, held: set<u32>)
    requires Inv(k) && Created(k, flags, v, k') && AllHeld(k, held)
    ensures AllHeld(k', held)
  {
    var sp: Space, k1: Kern :| CreatedAs(k, flags, v, sp, k1, k');
    SpacesNow(k, flags, v, sp, k1, k');
    NewSpaceMisses(k, v, sp, k', held);
  }

  lemma SpacesNow(k: Kern, flags: byte, v: u32, sp: Space, k1: Kern, k': Kern)
    requires CreatedAs(k, flags, v, sp, k1, k')
    ensures k'.spaces == k.spaces[v := sp] && k'.base == k.base && k.live.Keys <= k'.live.Keys && FromFree(k, sp)
  {
    forall r | 0 <= r < BLOCKS
      ensures FrameOf(k.base) <= sp[r] && sp[r] - FrameOf(k.base) in FreeBlocks(k.table)
    {
      assert HasBlock(FrameOf(k.base), sp, sp[r] - FrameOf(k.base));
    }
  }

  /** The blocks of a space were free ones. */
  ghost predicate FromFree(k: Kern, sp: Space)
  {
    forall r :: 0 <= r < BLOCKS ==> FrameOf(k.base) <= sp[r] && sp[r] - FrameOf(k.base) in FreeBlocks(k.table)
  }

  lemma NewSpaceMisses(k: Kern, v: u32, sp: Space, k': Kern, held: set<u32>)
    requires HeapInv(k) && AllHeld(k, held) && FromFree(k, sp)
    requires k'.spaces == k.spaces[v := sp] && k'.base == k.base && k.live.Keys <= k'.live.Keys
    ensures AllHeld(k', held)
  {
    forall a | a in held
      ensures Held(k', a)
    {
      LiveTaken(k, FrameOf(a));
    }
  }

  lemma DestroyedHolds(k: Kern, v: u32, k': Kern, held: set<u32>)
    requires Inv(k) && Destroyed(k, v, k', false) && AllHeld(k, held)
    ensures AllHeld(k', held)
  {
    forall a | a in held
      ensures Held(k', a)
    {
      DestroyedMisses(k, v, k', a);
    }
  }

  lemma DestroyedMisses(k: Kern, v: u32, k': Kern, a: u32)
    requires Inv(k) && Destroyed(k, v, k', false) && Held(k, a)
    ensures Held(k', a)
  {
    ReturnedOwned(k, v, FrameOf(a));
  }

  lemma ReturnedOwned(k: Kern, v: u32, f: Frame)
    requires Inv(k) && v in k.spaces && Unowned(k, f) && FrameOf(k.base) <= f
    ensures f - FrameOf(k.base) !in BlocksOf(FrameOf(k.base), ReturnedFrames(k.spaces[v], false))
  {
    SpaceDistinct(k, v);
    ReturnedOrDirectory(k.spaces[v], f, false);
    assert f !in k.spaces[v];
  }

  // ---------- A heap that is free from some block on ----------

  ghost predicate FreeFrom(t: Table, n: nat)
  {
    n <= |t| && forall i :: n <= i < |t| ==> t[i] == FREE
  }

  /** Such a heap serves every request that the free part has room for, and leaves the rest of it free. */
  lemma KzallocFits(k: Kern, size: u32, n: nat)
    requires HeapInv(k) && FreeFrom(k.table, n) && 0 < BlocksFor(size) <= |k.table| - n
    ensures var k' := AfterKzalloc(k, size);
            && KzallocResult(k, size) != 0 && HeapInv(k') && |k'.table| == |k.table| && k'.base == k.base
            && FreeFrom(k'.table, n + BlocksFor(size))
  {
    var b := BlocksFor(size);
    MallocSound(k.base, k.table, size);
    KzallocHeap(k, size);
    assert FreeRun(k.table, n, b);
    var s := FirstFit(k.table, b).value;
    assert s <= n;
  }

  /** Giving a block back leaves it so. */
  lemma KfreeFits(k: Kern, a: u32, n: nat)
    requires HeapInv(k) && FreeFrom(k.table, n) && BlockOf(k.base, a) in k.live
    ensures var k' := AfterKfree(k, a);
            && HeapInv(k') && |k'.table| == |k.table| && k'.base == k.base && FreeFrom(k'.table, n)
            && k'.live == k.live - {BlockOf(k.base, a)}
  {
    FreeKeeps(HeapView(k), BlockOf(k.base, a), false);
  }

  /** So does creating a space, which takes the lowest 1027 free blocks. */
  lemma CreatedFits(k: Kern, flags: byte, v: u32, k': Kern, n: nat)
    requires Inv(k) && Created(k, flags, v, k') && FreeFrom(k.table, n) && n + BLOCKS <= |k.table|
    ensures |k'.table| == |k.table| && k'.base == k.base && FreeFrom(k'.table, n + BLOCKS)
  {
    var sp: Space, k1: Kern :| CreatedAs(k, flags, v, sp, k1, k');
    SpaceBlocks(k, flags, v, sp, k1, k');
    LowestFits(k.table, BlocksOf(FrameOf(k.base), sp), n);
  }

  lemma SpaceBlocks(k: Kern, flags: byte, v: u32, sp: Space, k1: Kern, k': Kern)
    requires CreatedAs(k, flags, v, sp, k1, k')
    ensures var blocks := BlocksOf(FrameOf(k.base), sp);
            && k'.base == k.base && k'.table == TakenTable(k.table, blocks)
            && |blocks| == BLOCKS && blocks <= FreeBlocks(k.table) && Lowest(k.table, blocks)
  {
    BlocksCount(FrameOf(k.base), sp);
  }

  lemma LowestFits(t: Table, blocks: set<nat>, n: nat)
    requires blocks <= FreeBlocks(t) && Lowest(t, blocks) && |blocks| == BLOCKS && FreeFrom(t, n) && n + BLOCKS <= |t|
    ensures FreeFrom(TakenTable(t, blocks), n + BLOCKS)
  {
    forall i | n + BLOCKS <= i < |t|
      ensures i !in blocks
    {
      if i in blocks {
        AllBelow(t, blocks, n, i);
        Fewer({n} + Tail(n, BLOCKS + 1), blocks);
        assert false;
      }
    }
  }

  lemma AllBelow(t: Table, blocks: set<nat>, n: nat, i: nat)
    requires Lowest(t, blocks) && FreeFrom(t, n) && i in blocks && n + BLOCKS <= i < |t|
    ensures {n} + Tail(n, BLOCKS + 1) <= blocks
  {
    forall c: nat | n <= c < n + BLOCKS + 1
      ensures c in blocks
    {
      assert c in FreeBlocks(t);
    }
  }

  lemma FreeRoom(k: Kern, n: nat)
    requires FreeFrom(k.table, n)
    ensures Room(k) >= |k.table| - n
  {
    if n < |k.table| {
      Fewer({n} + Tail(n, |k.table| - n), FreeBlocks(k.table));
    }
  }
}
