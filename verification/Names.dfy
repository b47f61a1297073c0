/** Names: the string routines, 8.3 decoding of directory entries, and finding a unit by name. */
module Names {
  import opened Options
  import opened Words

  const SPACE: byte := 0x20
  const DOT: byte := 0x2e
  const UNIT_LENGTH := 64
  const NAME_LENGTH := 8
  const EXTENSION_LENGTH := 3

  // ---------- Comparing without case ----------

  /** The kernel's tolower: 'a' to 'z' stay, every other byte moves up by 32, wrapping. */
  function Lower(c: byte): byte
  {
    if 'a' as int <= c <= 'z' as int then c else (c + 32) % 256
  }

  /** ASCII case folding: only the upper-case letters change. */
  function Fold(c: byte): byte
  {
    if 'A' as int <= c <= 'Z' as int then c + 32 else c
  }

  /** The odd tolower identifies exactly the pairs of an upper-case and its lower-case letter. */
  lemma LowerIsFold(a: byte, b: byte)
    ensures Lower(a) == Lower(b) <==> Fold(a) == Fold(b)
    ensures Lower(a) == Lower(b) <==> a == b || (65 <= a <= 90 && b == a + 32) || (65 <= b <= 90 && a == b + 32)
  {
    assert a < 224 ==> (a + 32) % 256 == a + 32;
    assert b < 224 ==> (b + 32) % 256 == b + 32;
  }

  function Folded(s: seq<byte>): seq<byte>
  {
    seq(|s|, i requires 0 <= i < |s| => Fold(s[i]))
  }

  ghost predicate NulFree(s: seq<byte>)
  {
    forall i :: 0 <= i < |s| ==> s[i] != 0
  }

  /** A string in a zeroed buffer of n bytes. */
  function Padded(s: seq<byte>, n: nat, fill: byte): (r: seq<byte>)
    requires |s| <= n
    ensures |r| == n
  {
    s + seq(n - |s|, i => fill)
  }

  ghost predicate SameLower(s: seq<byte>, t: seq<byte>, n: nat)
    requires n <= |s| && n <= |t|
  {
    forall i :: 0 <= i < n ==> Lower(s[i]) == Lower(t[i])
  }

  /** Comparing two zeroed buffers to their ends compares the strings in them without case. */
  lemma CompareIsFolded(s: seq<byte>, t: seq<byte>, n: nat)
    requires NulFree(s) && NulFree(t) && |s| <= n && |t| <= n
    ensures SameLower(Padded(s, n, 0), Padded(t, n, 0), n) <==> Folded(s) == Folded(t)
  {
    var p, q := Padded(s, n, 0), Padded(t, n, 0);
    if SameLower(p, q, n) {
      if |s| != |t| {
        var i := if |s| < |t| then |s| else |t|;
        assert Lower(p[i]) == Lower(q[i]);
        LowerIsFold(p[i], q[i]);
        assert false;
      }
      forall i | 0 <= i < |s|
        ensures Fold(s[i]) == Fold(t[i])
      {
        assert Lower(p[i]) == Lower(q[i]);
        LowerIsFold(s[i], t[i]);
      }
    } else if Folded(s) == Folded(t) {
      forall i | 0 <= i < n
        ensures Lower(p[i]) == Lower(q[i])
      {
        if i < |s| {
          assert Folded(s)[i] == Folded(t)[i];
          LowerIsFold(s[i], t[i]);
        }
      }
    }
  }

  /** A byte as the signed char the code compares. */
  function Signed(c: byte): int
  {
    if c < 128 then c else c - 256
  }

  /** Compares exactly n bytes without case, beyond a NUL if need be. */
  method Strncmp(s: seq<byte>, t: seq<byte>, n: nat) returns (order: int)
    requires n <= |s| && n <= |t|
    ensures order == 0 <==> SameLower(s, t, n)
    ensures order != 0 ==>
              exists i :: 0 <= i < n && SameLower(s, t, i) && Lower(s[i]) != Lower(t[i]) &&
                          order == if Signed(s[i]) < Signed(t[i]) then -1 else 1
  {
    var i := 0;
    while i < n
      invariant 0 <= i <= n && SameLower(s, t, i)
    {
      if Lower(s[i]) == Lower(t[i]) {
        i := i + 1;
      } else {
        return if Signed(s[i]) < Signed(t[i]) then -1 else 1;
      }
    }
    order := 0;
  }

  // ---------- 8.3 names ----------

  /** What is before the first NUL or space of a field. */
  function Trimmed(field: seq<byte>): (r: seq<byte>)
    ensures |r| <= |field| && r == field[..|r|]
  {
    if field == [] || field[0] == 0 || field[0] == SPACE then [] else [field[0]] + Trimmed(field[1..])
  }

  /** The name of a directory entry: its base, and its extension after a dot when it has one. */
  function Decoded(entry: seq<byte>): (r: seq<byte>)
    requires |entry| >= NAME_LENGTH + EXTENSION_LENGTH
    ensures |r| <= NAME_LENGTH + 1 + EXTENSION_LENGTH
  {
    var extension := Trimmed(entry[NAME_LENGTH..NAME_LENGTH + EXTENSION_LENGTH]);
    Trimmed(entry[..NAME_LENGTH]) + if extension == [] then [] else [DOT] + extension
  }

  ghost predicate Plain(s: seq<byte>)
  {
    forall i :: 0 <= i < |s| ==> s[i] != 0 && s[i] != SPACE
  }

  lemma {:induction false} TrimmedPlain(field: seq<byte>)
    ensures Plain(Trimmed(field))
  {
    if Trimmed(field) != [] {
      TrimmedPlain(field[1..]);
    }
  }

  lemma {:induction false} TrimmedLength(field: seq<byte>)
    ensures var r := |Trimmed(field)|; r < |field| ==> field[r] == 0 || field[r] == SPACE
  {
    if field != [] && field[0] != 0 && field[0] != SPACE {
      TrimmedLength(field[1..]);
    }
  }

  /** A trimmed field is its longest prefix without NUL and space. */
  lemma TrimmedIs(field: seq<byte>, n: nat)
    requires n <= |field|
    ensures Trimmed(field) == field[..n] <==>
            && (forall i :: 0 <= i < n ==> field[i] != 0 && field[i] != 0x20)
            && (n < |field| ==> field[n] == 0 || field[n] == 0x20)
  {
    var r := |Trimmed(field)|;
    TrimmedLength(field);
    TrimmedPlain(field);
    assert Trimmed(field) == field[..n] <==> r == n;
    assert r > n ==> field[n] == Trimmed(field)[n];
    assert forall i :: 0 <= i < r ==> field[i] == Trimmed(field)[i];
  }

  /** Trimming undoes padding with spaces, whatever the length of the field. */
  lemma {:induction false} TrimmedPadded(s: seq<byte>, n: nat)
    requires Plain(s) && |s| <= n
    ensures Trimmed(Padded(s, n, SPACE)) == s
  {
    if s != [] {
      assert Padded(s, n, SPACE)[1..] == Padded(s[1..], n - 1, SPACE);
      TrimmedPadded(s[1..], n - 1);
    }
  }

  /** Decoding inverts the space padding of base and extension. */
  lemma DecodedPadded(base: seq<byte>, extension: seq<byte>, rest: seq<byte>)
    requires Plain(base) && |base| <= 8 && Plain(extension) && |extension| <= 3
    ensures Decoded(Padded(base, 8, 0x20) + Padded(extension, 3, 0x20) + rest) ==
            base + if extension == [] then [] else [0x2e] + extension
  {
    var entry := Padded(base, NAME_LENGTH, SPACE) + Padded(extension, EXTENSION_LENGTH, SPACE) + rest;
    assert entry[..NAME_LENGTH] == Padded(base, NAME_LENGTH, SPACE);
    assert entry[NAME_LENGTH..NAME_LENGTH + EXTENSION_LENGTH] == Padded(extension, EXTENSION_LENGTH, SPACE);
    TrimmedPadded(base, NAME_LENGTH);
    TrimmedPadded(extension, EXTENSION_LENGTH);
  }

  /** Names without a dot in their base decode alike exactly when both their fields do. */
  lemma DecodedDistinguishes(e: seq<byte>, f: seq<byte>)
    requires |e| >= NAME_LENGTH + EXTENSION_LENGTH && |f| >= NAME_LENGTH + EXTENSION_LENGTH
    requires DOT !in e[..NAME_LENGTH] && DOT !in f[..NAME_LENGTH]
    ensures Decoded(e) == Decoded(f) <==>
            && Trimmed(e[..NAME_LENGTH]) == Trimmed(f[..NAME_LENGTH])
            && Trimmed(e[NAME_LENGTH..NAME_LENGTH + EXTENSION_LENGTH])
               == Trimmed(f[NAME_LENGTH..NAME_LENGTH + EXTENSION_LENGTH])
  {
    var b, c := Trimmed(e[..NAME_LENGTH]), Trimmed(f[..NAME_LENGTH]);
    assert DOT !in b && DOT !in c;
    var x := Trimmed(e[NAME_LENGTH..NAME_LENGTH + EXTENSION_LENGTH]);
    var y := Trimmed(f[NAME_LENGTH..NAME_LENGTH + EXTENSION_LENGTH]);
    var dx, dy := if x == [] then [] else [DOT] + x, if y == [] then [] else [DOT] + y;
    if b + dx == c + dy {
      BaseEndsAtDot(b, dx, c, dy);
      assert x != [] ==> x == dx[1..];
      assert y != [] ==> y == dy[1..];
    }
  }

  lemma BaseEndsAtDot(b: seq<byte>, x: seq<byte>, c: seq<byte>, y: seq<byte>)
    requires b + x == c + y && DOT !in b && DOT !in c
    requires x != [] ==> x[0] == DOT
    requires y != [] ==> y[0] == DOT
    ensures b == c && x == y
  {
    if |b| < |c| {
      DotInLonger(b, x, c, y);
    } else if |c| < |b| {
      DotInLonger(c, y, b, x);
    } else {
      assert b == (b + x)[..|b|] && c == (c + y)[..|c|] && x == (b + x)[|b|..] && y == (c + y)[|c|..];
    }
  }

  lemma DotInLonger(b: seq<byte>, x: seq<byte>, c: seq<byte>, y: seq<byte>)
    requires b + x == c + y && |b| < |c| && (x != [] ==> x[0] == DOT)
    ensures DOT in c
  {
    assert |b| + |x| == |c| + |y|;
    assert (b + x)[|b|] == x[0] && (c + y)[|b|] == c[|b|];
  }

  lemma DecodedNulFree(entry: seq<byte>)
    requires |entry| >= NAME_LENGTH + EXTENSION_LENGTH
    ensures NulFree(Decoded(entry))
  {
    TrimmedPlain(entry[..NAME_LENGTH]);
    TrimmedPlain(entry[NAME_LENGTH..NAME_LENGTH + EXTENSION_LENGTH]);
  }

  /** Copies a field up to its first NUL or space to `at`; the position after the copy. */
  method ToProperString(field: seq<byte>, out: array<byte>, at: nat, ghost before: seq<byte>) returns (next: nat)
    requires |field| > 0 && |before| + |field| < out.Length && at == |before|
    requires out[..] == Padded(before, out.Length, 0)
    modifies out
    ensures next == at + |Trimmed(field)|
    ensures out[..] == Padded(before + Trimmed(field), out.Length, 0)
  {
    var i := 0;
    next := at;
    while i < |field| && field[i] != 0 && field[i] != SPACE
      modifies out
      invariant 0 <= i <= |field| && next == at + i
      invariant Trimmed(field) == field[..i] + Trimmed(field[i..])
      invariant out[..] == Padded(before + field[..i], out.Length, 0)
    {
      TrimmedStep(field, i);
      out[next] := field[i];
      next := next + 1;
      i := i + 1;
      if i >= |field| {
        out[next] := 0;
      }
    }
    if i < |field| && field[i] == SPACE {
      out[next] := 0;
    }
  }

  lemma TrimmedStep(field: seq<byte>, i: nat)
    requires i < |field| && field[i] != 0 && field[i] != SPACE
    ensures field[..i] + Trimmed(field[i..]) == field[..i + 1] + Trimmed(field[i + 1..])
  {
    assert field[i..][1..] == field[i + 1..];
  }

  /** Writes the name of an entry, zero-padded, over the whole buffer. */
  method GetFullRelativeName(entry: seq<byte>, out: array<byte>)
    requires |entry| >= NAME_LENGTH + EXTENSION_LENGTH && out.Length == UNIT_LENGTH
    modifies out
    ensures out[..] == Padded(Decoded(entry), UNIT_LENGTH, 0)
  {
    forall i | 0 <= i < out.Length {
      out[i] := 0;
    }
    var next := ToProperString(entry[..NAME_LENGTH], out, 0, []);
    ghost var base := Trimmed(entry[..NAME_LENGTH]);
    assert [] + base == base;
    if entry[NAME_LENGTH] != 0 && entry[NAME_LENGTH] != SPACE {
      out[next] := DOT;
      assert out[..] == Padded(base + [DOT], UNIT_LENGTH, 0);
      next := ToProperString(entry[NAME_LENGTH..NAME_LENGTH + EXTENSION_LENGTH], out, next + 1, base + [DOT]);
    }
  }

  // ---------- Finding a unit ----------

  ghost predicate HasName(entry: seq<byte>, name: seq<byte>)
    requires |entry| >= NAME_LENGTH + EXTENSION_LENGTH
  {
    Folded(Decoded(entry)) == Folded(name)
  }

  /** The last of the first `total` entries that has the name, up to case; None exactly when none has. */
  method FindUnit(files: seq<seq<byte>>, total: nat, ghost name: seq<byte>, unit: seq<byte>)
    returns (found: Option<nat>)
    requires total <= |files| && forall i :: 0 <= i < total ==> |files[i]| >= NAME_LENGTH + EXTENSION_LENGTH
    requires NulFree(name) && |name| <= UNIT_LENGTH && unit == Padded(name, UNIT_LENGTH, 0)
    ensures found.None? ==> forall i :: 0 <= i < total ==> !HasName(files[i], name)
    ensures found.Some? ==>
              && found.value < total && HasName(files[found.value], name)
              && forall i :: found.value < i < total ==> !HasName(files[i], name)
  {
    var buffer := new byte[UNIT_LENGTH](_ => 0);
    found := None;
    var i := 0;
    while i < total
      modifies buffer
      invariant 0 <= i <= total
      invariant found.None? ==> forall j :: 0 <= j < i ==> !HasName(files[j], name)
      invariant found.Some? ==>
                  && found.value < i && HasName(files[found.value], name)
                  && forall j :: found.value < j < i ==> !HasName(files[j], name)
    {
      GetFullRelativeName(files[i], buffer);
      var order := Strncmp(buffer[..], unit, UNIT_LENGTH);
      DecodedNulFree(files[i]);
      CompareIsFolded(Decoded(files[i]), name, UNIT_LENGTH);
      if order == 0 {
        found := Some(i);
      }
      i := i + 1;
    }
  }
}
