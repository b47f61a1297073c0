/** Runs of malloc and free calls, with the meant and with the written order inside free_blocks. */
module HeapRuns {
  import opened Words
  import opened HeapTable

  datatype Call = Malloc(size: u32) | Free(addr: u32)

  /** A table, the allocations that are live, and the blocks that stay taken for ever. */
  datatype View = View(table: Table, live: Runs, lost: set<nat>)

  ghost predicate Good(h: View)
  {
    Encodes(h.table, h.live, h.lost)
  }

  /** The blocks of a run after its first one. */
  function Tail(s: nat, k: nat): (r: set<nat>)
    ensures forall i: nat :: i in r <==> s < i < s + k
    ensures |r| == if k == 0 then 0 else k - 1
  {
    if k <= 1 then {} else Tail(s, k - 1) + {s + k - 1}
  }

  ghost function AfterMalloc(h: View, size: u32): View
  {
    match FirstFit(h.table, BlocksFor(size))
    case None => h
    case Some(s) => View(MallocTable(h.table, size), h.live[s := BlocksFor(size)], h.lost)
  }

  function AfterFree(h: View, s: nat, meant: bool): View
  {
    View(
      if meant then FreedMeant(h.table, s) else FreedWritten(h.table, s),
      h.live - {s},
      if meant || s !in h.live then h.lost else h.lost + Tail(s, h.live[s]))
  }

  ghost function After(base: u32, meant: bool, h: View, c: Call): View
  {
    match c
    case Malloc(size) => AfterMalloc(h, size)
    case Free(addr) => AfterFree(h, BlockOf(base, addr), meant)
  }

  /** What callers may free: the first block of a live run, or once more a block that is free already. */
  ghost predicate Legal(base: u32, h: View, c: Call)
  {
    c.Free? ==>
      var s := BlockOf(base, c.addr);
      s in h.live || (s < |h.table| && h.table[s] == FREE)
  }

  ghost function Run(base: u32, meant: bool, h: View, calls: seq<Call>): View
    decreases |calls|
  {
    if calls == [] then h else Run(base, meant, After(base, meant, h, calls[0]), calls[1..])
  }

  ghost predicate LegalRun(base: u32, meant: bool, h: View, calls: seq<Call>)
    decreases |calls|
  {
    calls == [] ||
    (Legal(base, h, calls[0]) && LegalRun(base, meant, After(base, meant, h, calls[0]), calls[1..]))
  }

  // ---------- One call ----------

  lemma MallocKeeps(h: View, size: u32)
    requires Good(h)
    ensures Good(AfterMalloc(h, size))
  {
    var k := BlocksFor(size);
    match FirstFit(h.table, k) {
      case None =>
      case Some(s) => MarkedEncodes(h, s, k);
    }
  }

  lemma MarkedEncodes(h: View, s: nat, k: nat)
    requires Good(h) && k >= 1 && FreeRun(h.table, s, k)
    ensures Encodes(Marked(h.table, s, k), h.live[s := k], h.lost)
  {
    var t', live' := Marked(h.table, s, k), h.live[s := k];
    forall r | r in h.live
      ensures r + h.live[r] <= s || s + k <= r
    {
      FreeRunMissesRun(h, s, k, r);
    }
    assert Disjoint(|t'|, live');
    forall r: nat, i: nat | Covers(live', r, i)
      ensures t'[i] == RunEntry(i, r, live'[r]) && i !in h.lost
    {
      assert r != s ==> Covers(h.live, r, i);
    }
    forall i | 0 <= i < |t'| && t'[i] != FREE && i !in h.lost
      ensures exists r :: Covers(live', r, i)
    {
      if s <= i < s + k {
        assert Covers(live', s, i);
      } else {
        var r :| Covers(h.live, r, i);
        assert Covers(live', r, i);
      }
    }
  }

  /** A run of free blocks does not meet a live run. */
  lemma FreeRunMissesRun(h: View, s: nat, k: nat, r: nat)
    requires Good(h) && k >= 1 && FreeRun(h.table, s, k) && r in h.live
    ensures r + h.live[r] <= s || s + k <= r
  {
    var i := if s <= r then r else s;
    assert Covers(h.live, r, i) ==> h.table[i] == RunEntry(i, r, h.live[r]) != FREE;
  }

  /** Freeing a live run clears all of it with the meant order, and its first block with the written one. */
  lemma FreedTable(h: View, s: nat, meant: bool)
    requires Good(h) && s in h.live
    ensures AfterFree(h, s, meant).table == Cleared(h.table, s, if meant then h.live[s] else 1)
  {
    forall i | s <= i < s + h.live[s]
      ensures h.table[i] == RunEntry(i, s, h.live[s])
    {
      assert Covers(h.live, s, i);
    }
    MeantClearsRun(h.table, s, h.live[s], s);
  }

  /** What is left encodes the other runs; the blocks of the freed run that stay taken are lost. */
  lemma ClearedEncodes(t: Table, live: Runs, lost: set<nat>, s: nat, j: nat, tail: set<nat>)
    requires Encodes(t, live, lost) && s in live && 1 <= j <= live[s]
    requires forall i: nat :: i in tail <==> s + j <= i < s + live[s]
    ensures Encodes(Cleared(t, s, j), live - {s}, lost + tail)
  {
    var t', live', lost' := Cleared(t, s, j), live - {s}, lost + tail;
    forall i: nat | s <= i < s + live[s]
      ensures t[i] == RunEntry(i, s, live[s]) != FREE && i !in lost
    {
      assert Covers(live, s, i);
    }
    forall r: nat, i: nat | Covers(live', r, i)
      ensures t'[i] == RunEntry(i, r, live'[r]) && i !in lost'
    {
      assert Covers(live, r, i);
      assert r < s || s < r;
    }
    forall i | 0 <= i < |t'| && t'[i] != FREE && i !in lost'
      ensures exists r :: Covers(live', r, i)
    {
      var r :| Covers(live, r, i);
      assert Covers(live', r, i);
    }
  }

  lemma FreeKeeps(h: View, s: nat, meant: bool)
    requires Good(h)
    requires s in h.live || (s < |h.table| && h.table[s] == FREE)
    ensures Good(AfterFree(h, s, meant))
    ensures s !in h.live ==> AfterFree(h, s, meant) == h
  {
    if s in h.live {
      FreedTable(h, s, meant);
      if meant {
        ClearedEncodes(h.table, h.live, h.lost, s, h.live[s], {});
        assert h.lost + {} == h.lost;
      } else {
        ClearedEncodes(h.table, h.live, h.lost, s, 1, Tail(s, h.live[s]));
      }
    } else {
      assert h.table[s := FREE] == h.table;
      assert h.live - {s} == h.live;
    }
  }

  // ---------- Whole runs ----------

  /** Over every run the table encodes the live runs; with the meant free nothing is ever lost. */
  lemma {:induction false} RunEncodes(base: u32, meant: bool, h: View, calls: seq<Call>)
    requires Good(h) && LegalRun(base, meant, h, calls)
    ensures Good(Run(base, meant, h, calls))
    ensures meant ==> Run(base, meant, h, calls).lost == h.lost
    decreases |calls|
  {
    if calls != [] {
      match calls[0] {
        case Malloc(size) => MallocKeeps(h, size);
        case Free(addr) => FreeKeeps(h, BlockOf(base, addr), meant);
      }
      RunEncodes(base, meant, After(base, meant, h, calls[0]), calls[1..]);
    }
  }

  /** From an empty heap, the meant allocator's table is at every point the exact encoding of its live runs. */
  lemma FreshRunEncodes(base: u32, n: nat, calls: seq<Call>)
    requires LegalRun(base, true, View(seq(n, _ => FREE), map[], {}), calls)
    ensures var h := Run(base, true, View(seq(n, _ => FREE), map[], {}), calls);
            Encodes(h.table, h.live, {})
  {
    RunEncodes(base, true, View(seq(n, _ => FREE), map[], {}), calls);
  }

  /** The blocks the written free leaves behind: all but one of every run freed. */
  ghost function Leaks(base: u32, h: View, calls: seq<Call>): nat
    requires Good(h) && LegalRun(base, false, h, calls)
    decreases |calls|
  {
    if calls == [] then 0
    else
      var h' := After(base, false, h, calls[0]);
      RunEncodes(base, false, h, calls[..1]);
      OneCall(base, false, h, calls);
      (match calls[0]
       case Malloc(_) => 0
       case Free(addr) => if BlockOf(base, addr) in h.live then h.live[BlockOf(base, addr)] - 1 else 0)
      + Leaks(base, h', calls[1..])
  }

  lemma OneCall(base: u32, meant: bool, h: View, calls: seq<Call>)
    requires calls != [] && LegalRun(base, meant, h, calls)
    ensures LegalRun(base, meant, h, calls[..1])
    ensures Run(base, meant, h, calls[..1]) == After(base, meant, h, calls[0])
  {
    assert calls[..1][1..] == [];
  }

  /** Over every run with the written free, exactly k - 1 blocks are lost for each freed run of k blocks. */
  lemma {:induction false} WrittenFreeLeaks(base: u32, h: View, calls: seq<Call>)
    requires Good(h) && LegalRun(base, false, h, calls)
    ensures |Run(base, false, h, calls).lost| == |h.lost| + Leaks(base, h, calls)
    decreases |calls|
  {
    if calls != [] {
      match calls[0] {
        case Malloc(size) => MallocKeeps(h, size);
        case Free(addr) =>
          var s := BlockOf(base, addr);
          FreeKeeps(h, s, false);
          if s in h.live {
            forall i | i in Tail(s, h.live[s])
              ensures i !in h.lost
            {
              assert Covers(h.live, s, i);
            }
          }
      }
      WrittenFreeLeaks(base, After(base, false, h, calls[0]), calls[1..]);
    }
  }
}
