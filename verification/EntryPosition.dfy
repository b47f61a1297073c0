/** Where the code looks for a cluster's table entry: it multiplies where it should add, in 32-bit arithmetic. */
module EntryPosition {
  import opened Words
  import opened Disk
  import opened Fat16

  /** The byte position of a cluster's table entry as written, in 32-bit arithmetic. */
  function EntryPosWritten(v: Volume, cluster: u32): u32
  {
    (v.reservedSectors * SECTOR_SIZE * cluster * 2) % TWO32
  }

  /** The written position is right for no data cluster of any volume. */
  lemma EntryPosAgrees(v: Volume, cluster: nat)
    requires Proper(v) && cluster < 0x1_0000
    ensures EntryPosWritten(v, cluster) == EntryPos(v, cluster) <==> v.reservedSectors == 0 && cluster == 0
  {
    var r, c := v.reservedSectors, cluster;
    Reassociate(r, c);
    if EntryPosWritten(v, cluster) == EntryPos(v, cluster) {
      Quotient(1024 * (r * c), 512 * r + 2 * c);
      NoOtherSolution(r, c, r * c, 1024 * (r * c) / TWO32);
    }
  }

  lemma Quotient(x: nat, y: nat)
    requires x % TWO32 == y
    ensures x == y + TWO32 * (x / TWO32) && x / TWO32 >= 0
  {}

  lemma Reassociate(r: nat, c: nat)
    ensures r * SECTOR_SIZE * c * 2 == 1024 * (r * c)
  {}

  /** 1024 r c = 512 r + 2 c modulo 2^32 has no solution in 16-bit numbers but 0, 0. */
  lemma NoOtherSolution(r: nat, c: nat, rc: nat, t: nat)
    requires r < 0x1_0000 && c < 0x1_0000 && rc == r * c
    requires 1024 * rc == 512 * r + 2 * c + TWO32 * t
    ensures r == 0 && c == 0
  {
    var m: int := 2 * rc - r - 0x80_0000 * t;
    assert c == 256 * m && 0 <= m < 256;
    var p := r * m;
    assert rc == 256 * p by { TimesMultiple(r, m, c); }
    assert 512 * p == r + m + 0x80_0000 * t;
    if r > 0 && m > 0 {
      var z := Eliminate(r, m, p, t);
      BitsOfSquare(r, m, m * m, m * m * m, z);
      NoSuchBits(m, m * m, m * m * m);
    } else {
      assert p == 0;
    }
  }

  lemma TimesMultiple(r: nat, m: nat, c: nat)
    requires c == 256 * m
    ensures r * c == 256 * (r * m)
  {}

  /** Substituting the equation into itself leaves r modulo 2^23 as a polynomial in m. */
  lemma Eliminate(r: nat, m: nat, p: nat, t: nat) returns (z: int)
    requires p == r * m && 512 * p == r + m + 0x80_0000 * t
    ensures r + m + 512 * (m * m) + 0x4_0000 * (m * m * m) == 0x80_0000 * z
  {
    var q, tm := p * m, t * m;
    assert p == 512 * q - m * m - 0x80_0000 * tm by {
      assert (512 * p) * m == (r + m + 0x80_0000 * t) * m;
      Spread(r, m, 0x80_0000 * t, m);
    }
    assert q == 512 * (q * m) - m * m * m - 0x80_0000 * (tm * m) by {
      assert (512 * q) * m == (p + m * m + 0x80_0000 * tm) * m;
      Spread(p, m * m, 0x80_0000 * tm, m);
    }
    z := 16 * (q * m) - 0x4_0000 * (tm * m) - 512 * tm - t;
  }

  lemma Spread(a: int, b: int, c: int, m: int)
    ensures (a + b + c) * m == a * m + b * m + c * m
  {}

  /** So bits 7 and 8 of the square of m are ones, and the bits above them are those of its cube, negated. */
  lemma BitsOfSquare(r: nat, m: nat, m2: nat, m3: nat, z: int)
    requires 0 < r < 0x1_0000 && m < 256 && r + m + 512 * m2 + 0x4_0000 * m3 == 0x80_0000 * z
    ensures m2 / 128 % 4 == 3 && (m2 / 512 + m3) % 16 == 15
  {
    var a, b := m2 / 128, m2 % 128;
    var n := 128 * z - 4 * m3 - a;
    assert r + m + 512 * b == 0x1_0000 * n;
    assert n == 1;
    var y := 32 * z - m3 - 1;
    assert a == 4 * y + 3;
    assert m2 == 512 * y + (384 + b);
    assert m2 / 512 == y;
    assert y + m3 == 16 * (2 * z - 1) + 15;
  }

  /** No number below 256 has such bits: its hexadecimal digits are h and l. */
  lemma NoSuchBits(m: nat, m2: nat, m3: nat)
    requires m < 256 && m2 == m * m && m3 == m2 * m && m2 / 128 % 4 == 3
    ensures (m2 / 512 + m3) % 16 != 15
  {
    var h, l := m / 16, m % 16;
    SquareOfDigits(h, l, m);
    CubeOfDigits(h, l, m, m2);
    DigitTable(l);
    RowTable(h, l);
    NoRow(h, l, l * l, l * l * l % 16, h * l, h * h, m2, m3);
  }

  lemma NoRow(h: nat, l: nat, l2: nat, l3: nat, hl: nat, h2: nat, m2: nat, m3: nat)
    requires Digit(l, l2, l3) && Row(h, l, hl, h2) && m2 == 256 * h2 + 32 * hl + l2 && m3 % 16 == l3
    requires m2 / 128 % 4 == 3
    ensures (m2 / 512 + m3) % 16 != 15
  {
    SameResidue(m2 / 512, m3, l3);
    if h < 8 {
      LowRows(h, l, l2, l3, hl, h2);
    } else {
      HighRows(h, l, l2, l3, hl, h2);
    }
  }

  lemma SameResidue(a: nat, x: nat, y: nat)
    requires x % 16 == y
    ensures (a + x) % 16 == (a + y) % 16
  {}

  lemma SquareOfDigits(h: nat, l: nat, m: nat)
    requires m == 16 * h + l
    ensures m * m == 256 * (h * h) + 32 * (h * l) + l * l
  {}

  lemma CubeOfDigits(h: nat, l: nat, m: nat, m2: nat)
    requires m == 16 * h + l && m2 == 256 * (h * h) + 32 * (h * l) + l * l
    ensures m2 * m % 16 == l * l * l % 16
  {
    var k := 16 * (h * h) + 2 * (h * l);
    assert m2 == 16 * k + l * l;
    assert m2 * m == 16 * (k * m) + 16 * (l * l * h) + l * l * l;
  }

  /** A digit with its square, and its cube modulo 16. */
  predicate Digit(l: nat, l2: nat, l3: nat)
  {
    || (l == 0 && l2 == 0 && l3 == 0) || (l == 1 && l2 == 1 && l3 == 1)
    || (l == 2 && l2 == 4 && l3 == 8) || (l == 3 && l2 == 9 && l3 == 11)
    || (l == 4 && l2 == 16 && l3 == 0) || (l == 5 && l2 == 25 && l3 == 13)
    || (l == 6 && l2 == 36 && l3 == 8) || (l == 7 && l2 == 49 && l3 == 7)
    || (l == 8 && l2 == 64 && l3 == 0) || (l == 9 && l2 == 81 && l3 == 9)
    || (l == 10 && l2 == 100 && l3 == 8) || (l == 11 && l2 == 121 && l3 == 3)
    || (l == 12 && l2 == 144 && l3 == 0) || (l == 13 && l2 == 169 && l3 == 5)
    || (l == 14 && l2 == 196 && l3 == 8) || (l == 15 && l2 == 225 && l3 == 15)
  }

  /** A digit h with its square and its product with l. */
  predicate Row(h: nat, l: nat, hl: nat, h2: nat)
  {
    || (h == 0 && hl == 0 * l && h2 == 0) || (h == 1 && hl == 1 * l && h2 == 1)
    || (h == 2 && hl == 2 * l && h2 == 4) || (h == 3 && hl == 3 * l && h2 == 9)
    || (h == 4 && hl == 4 * l && h2 == 16) || (h == 5 && hl == 5 * l && h2 == 25)
    || (h == 6 && hl == 6 * l && h2 == 36) || (h == 7 && hl == 7 * l && h2 == 49)
    || (h == 8 && hl == 8 * l && h2 == 64) || (h == 9 && hl == 9 * l && h2 == 81)
    || (h == 10 && hl == 10 * l && h2 == 100) || (h == 11 && hl == 11 * l && h2 == 121)
    || (h == 12 && hl == 12 * l && h2 == 144) || (h == 13 && hl == 13 * l && h2 == 169)
    || (h == 14 && hl == 14 * l && h2 == 196) || (h == 15 && hl == 15 * l && h2 == 225)
  }

  lemma DigitTable(l: nat)
    requires l < 16
    ensures Digit(l, l * l, l * l * l % 16)
  {}

  lemma RowTable(h: nat, l: nat)
    requires h < 16
    ensures Row(h, l, h * l, h * h)
  {}

  lemma LowRows(h: nat, l: nat, l2: nat, l3: nat, hl: nat, h2: nat)
    requires h < 8 && Digit(l, l2, l3) && Row(h, l, hl, h2)
    ensures var m2 := 256 * h2 + 32 * hl + l2; m2 / 128 % 4 != 3 || (m2 / 512 + l3) % 16 != 15
  {}

  lemma HighRows(h: nat, l: nat, l2: nat, l3: nat, hl: nat, h2: nat)
    requires h >= 8 && Digit(l, l2, l3) && Row(h, l, hl, h2)
    ensures var m2 := 256 * h2 + 32 * hl + l2; m2 / 128 % 4 != 3 || (m2 / 512 + l3) % 16 != 15
  {}
}
