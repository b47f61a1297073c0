/** Physical memory: all 2^32 bytes, with little-endian 32-bit words and 4096-byte pages. */
module Memory {
  import opened Words

  const PAGE_SIZE := 4096

  type Mem = m: seq<byte> | |m| == TWO32 ghost witness seq(TWO32, _ => 0)

  function Load32(m: Mem, a: u32): u32
    requires a % 4 == 0
  {
    (m[a] as int) + 0x100 * (m[a + 1] as int) + 0x1_0000 * (m[a + 2] as int) + 0x100_0000 * (m[a + 3] as int)
  }

  function Store32(m: Mem, a: u32, v: u32): Mem
    requires a % 4 == 0
  {
    m[a := v % 0x100][a + 1 := v / 0x100 % 0x100][a + 2 := v / 0x1_0000 % 0x100][a + 3 := v / 0x100_0000]
  }

  /** memset(a, 0, size). */
  function Zeroed(m: Mem, a: u32, size: u32): Mem
    requires a + size <= TWO32
  {
    seq(TWO32, i requires 0 <= i < TWO32 => if a <= i < a + size then 0 else m[i])
  }

  /** The number of a physical page. Its address is PAGE_SIZE times that. */
  type Frame = x: int | 0 <= x < 0x10_0000

  function FrameOf(a: u32): Frame
  {
    a / PAGE_SIZE
  }

  function Page(m: Mem, f: Frame): seq<byte>
  {
    m[PAGE_SIZE * f..PAGE_SIZE * f + PAGE_SIZE]
  }

  /** The two memories agree on every page outside `frames`. */
  ghost predicate SameOutside(m: Mem, n: Mem, frames: set<Frame>)
  {
    forall f: Frame :: f !in frames ==> Page(n, f) == Page(m, f)
  }

  // ---------- Pages as arrays of words ----------

  const WORDS := 1024

  function Addr(f: Frame): u32
  {
    PAGE_SIZE * f
  }

  lemma WordAddress(f: Frame, i: nat)
    requires i < WORDS
    ensures (Addr(f) + 4 * i) % 4 == 0 && Addr(f) + 4 * i + 4 <= TWO32
  {}

  /** The i-th word of a page, and the memory with that word set. */
  function Word(m: Mem, f: Frame, i: nat): u32
    requires i < WORDS
  {
    WordAddress(f, i);
    Load32(m, Addr(f) + 4 * i)
  }

  function SetWord(m: Mem, f: Frame, i: nat, v: u32): Mem
    requires i < WORDS
  {
    WordAddress(f, i);
    Store32(m, Addr(f) + 4 * i, v)
  }

  /** A word is read back where it was set, and other words stay. */
  lemma WordSet(m: Mem, f: Frame, i: nat, v: u32, g: Frame, j: nat)
    requires i < WORDS && j < WORDS
    ensures Word(SetWord(m, f, i, v), g, j) == if f == g && i == j then v else Word(m, g, j)
  {
    var a, b := Addr(f) + 4 * i, Addr(g) + 4 * j;
    if f == g && i == j {
      LoadBack(m, a, v);
    } else {
      assert a + 3 < b || b + 3 < a;
      LoadElsewhere(m, a, v, b);
    }
  }

  lemma LoadBack(m: Mem, a: u32, v: u32)
    requires a % 4 == 0
    ensures Load32(Store32(m, a, v), a) == v
  {
    var n := Store32(m, a, v);
    assert n[a] == v % 0x100 && n[a + 1] == v / 0x100 % 0x100;
    assert n[a + 2] == v / 0x1_0000 % 0x100 && n[a + 3] == v / 0x100_0000;
    BytesOfWord(v);
  }

  lemma BytesOfWord(v: u32)
    ensures v == v % 0x100 + 0x100 * (v / 0x100 % 0x100) + 0x1_0000 * (v / 0x1_0000 % 0x100) + 0x100_0000 * (v / 0x100_0000)
  {
    var high := v / 0x1_0000;
    assert v / 0x100 / 0x100 == high && high / 0x100 == v / 0x100_0000;
  }

  lemma LoadElsewhere(m: Mem, a: u32, v: u32, b: u32)
    requires a % 4 == 0 && b % 4 == 0 && (a + 3 < b || b + 3 < a)
    ensures Load32(Store32(m, a, v), b) == Load32(m, b)
  {
    assert forall k :: b <= k < b + 4 ==> Store32(m, a, v)[k] == m[k];
  }

  /** Setting a word changes no other page. */
  lemma SetWordOutside(m: Mem, f: Frame, i: nat, v: u32)
    requires i < WORDS
    ensures SameOutside(m, SetWord(m, f, i, v), {f})
  {
    var n := SetWord(m, f, i, v);
    forall g: Frame | g !in {f}
      ensures Page(n, g) == Page(m, g)
    {
      assert Addr(f) + PAGE_SIZE <= Addr(g) || Addr(g) + PAGE_SIZE <= Addr(f);
      assert forall k :: Addr(g) <= k < Addr(g) + PAGE_SIZE ==> n[k] == m[k];
    }
  }

  /** A word depends only on its page. */
  lemma WordFrame(m: Mem, n: Mem, f: Frame, i: nat)
    requires i < WORDS && Page(m, f) == Page(n, f)
    ensures Word(n, f, i) == Word(m, f, i)
  {
    var a := Addr(f) + 4 * i;
    forall k | a <= k < a + 4
      ensures m[k] == n[k]
    {
      assert m[k] == Page(m, f)[k - Addr(f)];
      assert n[k] == Page(n, f)[k - Addr(f)];
    }
  }

  lemma ZeroedOutside(m: Mem, f: Frame, size: u32)
    requires size <= PAGE_SIZE
    ensures SameOutside(m, Zeroed(m, Addr(f), size), {f})
  {
    forall g: Frame | g !in {f}
      ensures Page(Zeroed(m, Addr(f), size), g) == Page(m, g)
    {
      assert Addr(f) + PAGE_SIZE <= Addr(g) || Addr(g) + PAGE_SIZE <= Addr(f);
    }
  }

  lemma SameOutsideTwice(m: Mem, n: Mem, o: Mem, f: Frame)
    requires SameOutside(m, n, {f}) && SameOutside(n, o, {f})
    ensures SameOutside(m, o, {f})
  {
    forall g: Frame | g !in {f}
      ensures Page(o, g) == Page(m, g)
    {
      assert Page(n, g) == Page(m, g);
    }
  }
}
