/** 32-bit words and bytes, and the bitwise operators the kernel packs pointers with. */
module Words {
  const TWO32 := 0x1_0000_0000

  type u32 = x: int | 0 <= x < TWO32
  type byte = x: int | 0 <= x < 256

  /** The bits above the page offset: what the kernel masks table pointers with. */
  const FRAME_MASK: u32 := 0xffff_f000

  /** 32-bit addition. */
  function Plus(a: u32, b: u32): u32
  {
    (a + b) % TWO32
  }

  /** Bitwise or and bitwise and, bit by bit. */
  function Or(x: nat, y: nat): nat
  {
    if x == 0 && y == 0 then 0
    else 2 * Or(x / 2, y / 2) + if x % 2 == 1 || y % 2 == 1 then 1 else 0
  }

  function And(x: nat, y: nat): nat
  {
    if x == 0 && y == 0 then 0
    else 2 * And(x / 2, y / 2) + if x % 2 == 1 && y % 2 == 1 then 1 else 0
  }

  function Pow2(k: nat): nat
    ensures Pow2(k) >= 1
  {
    if k == 0 then 1 else 2 * Pow2(k - 1)
  }

  /** Bit n of a number. */
  predicate Bit(x: nat, n: nat)
  {
    if n == 0 then x % 2 == 1 else Bit(x / 2, n - 1)
  }

  lemma BitHalf(x: nat, n: nat)
    ensures Bit(x, n) <==> if n == 0 then x % 2 == 1 else Bit(x / 2, n - 1)
  {}

  lemma Halves(x: nat, y: nat)
    ensures Or(x, y) / 2 == Or(x / 2, y / 2) && (Or(x, y) % 2 == 1 <==> x % 2 == 1 || y % 2 == 1)
    ensures And(x, y) / 2 == And(x / 2, y / 2) && (And(x, y) % 2 == 1 <==> x % 2 == 1 && y % 2 == 1)
  {}

  /** The bitwise operators, bit by bit. */
  lemma {:induction false} OrBits(x: nat, y: nat, n: nat)
    ensures Bit(Or(x, y), n) <==> Bit(x, n) || Bit(y, n)
    decreases n
  {
    hide Or, Bit;
    Halves(x, y);
    BitHalf(x, n);
    BitHalf(y, n);
    BitHalf(Or(x, y), n);
    if n > 0 {
      OrBits(x / 2, y / 2, n - 1);
    }
  }

  lemma {:induction false} AndBits(x: nat, y: nat, n: nat)
    ensures Bit(And(x, y), n) <==> Bit(x, n) && Bit(y, n)
    decreases n
  {
    hide And, Bit;
    Halves(x, y);
    BitHalf(x, n);
    BitHalf(y, n);
    BitHalf(And(x, y), n);
    if n > 0 {
      AndBits(x / 2, y / 2, n - 1);
    }
  }

  /** Masking with one bit. */
  lemma {:induction false} AndOne(x: nat, n: nat)
    ensures And(x, Pow2(n)) == if Bit(x, n) then Pow2(n) else 0
    decreases n
  {
    if n == 0 {
      AndNone(x / 2);
    } else {
      AndOne(x / 2, n - 1);
      assert Pow2(n) / 2 == Pow2(n - 1) && Pow2(n) % 2 == 0;
    }
  }

  lemma {:induction x} AndNone(x: nat)
    ensures And(x, 0) == 0
  {}

  /** One step of `or` and `and` on numbers split as 2 * high + low. */
  lemma OrStep(a: nat, f: nat, b: nat, g: nat)
    ensures Or(2 * a + f, 2 * b + g) == 2 * Or(a + f / 2, b + g / 2) + if f % 2 == 1 || g % 2 == 1 then 1 else 0
  {
    assert (2 * a + f) / 2 == a + f / 2 && (2 * b + g) / 2 == b + g / 2;
  }

  lemma AndStep(a: nat, f: nat, b: nat, g: nat)
    ensures And(2 * a + f, 2 * b + g) == 2 * And(a + f / 2, b + g / 2) + if f % 2 == 1 && g % 2 == 1 then 1 else 0
  {
    assert (2 * a + f) / 2 == a + f / 2 && (2 * b + g) / 2 == b + g / 2;
  }

  /** x shifted left by k bits. */
  function Shift(k: nat, x: nat): nat
  {
    if k == 0 then x else 2 * Shift(k - 1, x)
  }

  /** `or` works on the high parts and the low k bits separately, and the low result still has k bits. */
  lemma {:induction false} OrSplits(k: nat, a: nat, f: nat, b: nat, g: nat)
    requires f < Pow2(k) && g < Pow2(k)
    ensures Or(f, g) < Pow2(k)
    ensures Or(Shift(k, a) + f, Shift(k, b) + g) == Shift(k, Or(a, b)) + Or(f, g)
  {
    if k == 0 {
    } else {
      OrSplits(k - 1, a, f / 2, b, g / 2);
      OrStep(Shift(k - 1, a), f, Shift(k - 1, b), g);
      OrStep(0, f, 0, g);
    }
  }

  /** `and` with a shifted number drops the low bits. */
  lemma {:induction false} AndShifted(k: nat, a: nat, f: nat, b: nat)
    requires f < Pow2(k)
    ensures And(Shift(k, a) + f, Shift(k, b)) == Shift(k, And(a, b))
  {
    if k == 0 {
    } else {
      AndShifted(k - 1, a, f / 2, b);
      AndStep(Shift(k - 1, a), f, Shift(k - 1, b), 0);
    }
  }

  /** Shifting by the 12 offset bits of a page multiplies by the page size. */
  lemma ShiftPage(x: nat)
    ensures Shift(12, x) == 4096 * x
  {
    assert Shift(1, x) == 2 * Shift(0, x);
    assert Shift(2, x) == 4 * x;
    assert Shift(4, x) == 16 * x;
    assert Shift(6, x) == 64 * x;
    assert Shift(8, x) == 256 * x;
    assert Shift(10, x) == 1024 * x;
  }

  lemma {:induction x} OrZero(x: nat)
    ensures Or(x, 0) == x && Or(0, x) == x
  {}

  /** Masking with k one bits keeps the low k bits. */
  lemma {:induction false} AndOnes(k: nat, x: nat)
    requires x < Pow2(k)
    ensures And(x, Pow2(k) - 1) == x
  {
    if k > 0 {
      AndOnes(k - 1, x / 2);
    }
  }

  /** Or-ing two words acts on their frame parts and their page offsets separately. */
  lemma OrParts(a: nat, f: nat, b: nat, g: nat)
    requires f < 4096 && g < 4096
    ensures Or(f, g) < 4096
    ensures Or(4096 * a + f, 4096 * b + g) == 4096 * Or(a, b) + Or(f, g)
  {
    assert Pow2(12) == 4096;
    ShiftPage(a);
    ShiftPage(b);
    ShiftPage(Or(a, b));
    OrSplits(12, a, f, b, g);
  }

  lemma OrFrame(frame: nat, f: nat, g: nat)
    requires f < 4096 && g < 4096
    ensures Or(f, g) < 4096
    ensures Or(4096 * frame + f, g) == 4096 * frame + Or(f, g)
  {
    OrParts(frame, f, 0, g);
    OrZero(frame);
  }

  lemma AlignedBelow(a: u32)
    requires a % 4096 == 0
    ensures a == 4096 * (a / 4096) && a <= TWO32 - 4096
  {}

  /** A page-aligned address or-ed with flags is their sum. */
  lemma OrFlags(a: u32, f: nat)
    requires a % 4096 == 0 && f < 4096
    ensures Or(a, f) == a + f < TWO32
  {
    AlignedBelow(a);
    OrShifted(a / 4096, f);
  }

  lemma OrShifted(frame: nat, f: nat)
    requires f < 4096
    ensures Or(4096 * frame, f) == 4096 * frame + f
  {
    OrFrame(frame, 0, f);
    OrZero(f);
  }

  /** Or-ing more flags onto a packed pointer changes its flags only. */
  lemma OrMoreFlags(a: u32, f: nat, g: nat)
    requires a % 4096 == 0 && f < 4096 && g < 4096
    ensures Or(f, g) < 4096
    ensures Or(Or(a, f), g) == a + Or(f, g) < TWO32
  {
    AlignedBelow(a);
    OrFlags(a, f);
    OrFrame(a / 4096, f, g);
  }

  /** FRAME_MASK clears exactly the page offset. */
  lemma MaskClearsOffset(x: u32)
    ensures And(x, FRAME_MASK) == x - x % 4096
  {
    assert Pow2(12) == 4096;
    assert Pow2(20) == 4096 * 256 by { assert Pow2(16) == 65536; }
    var ones := Pow2(20) - 1;
    assert FRAME_MASK == 4096 * ones;
    ShiftPage(x / 4096);
    ShiftPage(ones);
    ShiftPage(And(x / 4096, ones));
    AndShifted(12, x / 4096, x % 4096, ones);
    AndOnes(20, x / 4096);
  }

  lemma MaskOfSum(a: u32, f: nat)
    requires a % 4096 == 0 && f < 4096 && a + f < TWO32
    ensures And(a + f, FRAME_MASK) == a
  {
    MaskClearsOffset(a + f);
  }

  /** The bit-packing law: flags or-ed onto an aligned pointer are undone by the mask. */
  lemma PackUnpack(a: u32, f: nat)
    requires a % 4096 == 0 && f < 4096
    ensures Or(a, f) < TWO32
    ensures And(Or(a, f), FRAME_MASK) == a
  {
    OrFlags(a, f);
    MaskOfSum(a, f);
  }
}
