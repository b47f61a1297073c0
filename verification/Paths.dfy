/** Parsing absolute paths, "C:/unit1/unit2", into a drive and a linked list of units. */
module Paths {
  import opened Options
  import opened Words
  import opened Names

  const SLASH: byte := 0x2f
  const COLON: byte := 0x3a
  const PATH_LENGTH := 512
  const BLOCK := 4096

  // ---------- What parsing means ----------

  /** The first unit of a path, up to a '/' or the end. */
  function FirstUnit(rest: seq<byte>): (u: seq<byte>)
    ensures |u| <= |rest| && u == rest[..|u|] && SLASH !in u
    ensures |u| < |rest| ==> rest[|u|] == SLASH
  {
    if rest == [] || rest[0] == SLASH then [] else [rest[0]] + FirstUnit(rest[1..])
  }

  /** What follows the first unit and its '/'. */
  function AfterUnit(rest: seq<byte>): (r: seq<byte>)
    ensures rest != [] ==> |r| < |rest|
  {
    var n := |FirstUnit(rest)|;
    if n < |rest| then rest[n + 1..] else []
  }

  function Units(rest: seq<byte>): seq<seq<byte>>
    decreases |rest|
  {
    if rest == [] then [] else [FirstUnit(rest)] + Units(AfterUnit(rest))
  }

  /** The units with a '/' between each two. */
  function Joined(units: seq<seq<byte>>): seq<byte>
  {
    if units == [] then []
    else if |units| == 1 then units[0]
    else units[0] + [SLASH] + Joined(units[1..])
  }

  ghost predicate SlashFree(units: seq<seq<byte>>)
  {
    forall i :: 0 <= i < |units| ==> SLASH !in units[i]
  }

  lemma {:induction false} UnitThenSlash(u: seq<byte>, r: seq<byte>)
    requires SLASH !in u
    ensures FirstUnit(u + [SLASH] + r) == u && AfterUnit(u + [SLASH] + r) == r
  {
    var s := u + [SLASH] + r;
    if u != [] {
      assert s[1..] == u[1..] + [SLASH] + r;
      UnitThenSlash(u[1..], r);
    }
    assert s[|u| + 1..] == r;
  }

  lemma {:induction false} LastUnit(u: seq<byte>)
    requires SLASH !in u
    ensures FirstUnit(u) == u
  {
    if u != [] {
      LastUnit(u[1..]);
    }
  }

  /** The units without one empty last unit. */
  function Kept(units: seq<seq<byte>>): seq<seq<byte>>
  {
    if units != [] && units[|units| - 1] == [] then units[..|units| - 1] else units
  }

  /** Splitting undoes joining, but for one empty last unit. */
  lemma {:induction false} UnitsOfJoined(units: seq<seq<byte>>)
    requires SlashFree(units)
    ensures Units(Joined(units)) == Kept(units)
  {
    if |units| == 1 {
      LastUnit(units[0]);
    } else if |units| > 1 {
      SplitOne(units[0], Joined(units[1..]));
      UnitsOfJoined(units[1..]);
      KeptRest(units);
    }
  }

  lemma KeptRest(units: seq<seq<byte>>)
    requires |units| > 1
    ensures Kept(units) == [units[0]] + Kept(units[1..])
  {
    assert units == [units[0]] + units[1..];
  }

  lemma SplitOne(u: seq<byte>, r: seq<byte>)
    requires SLASH !in u
    ensures Units(u + [SLASH] + r) == [u] + Units(r)
  {
    UnitThenSlash(u, r);
  }

  /** A path without at most one trailing '/'. */
  function WithoutSlash(rest: seq<byte>): seq<byte>
  {
    if rest != [] && rest[|rest| - 1] == SLASH then rest[..|rest| - 1] else rest
  }

  /** Joining undoes splitting, but for one trailing '/'. */
  lemma {:induction false} JoinedUnits(rest: seq<byte>)
    ensures Joined(Units(rest)) == WithoutSlash(rest)
    ensures SlashFree(Units(rest))
    decreases |rest|
  {
    if rest != [] {
      var u, r := FirstUnit(rest), AfterUnit(rest);
      JoinedUnits(r);
      if |u| < |rest| {
        assert rest == u + [SLASH] + r;
        LastOfRest(u, r);
      }
    }
  }

  lemma LastOfRest(u: seq<byte>, r: seq<byte>)
    ensures WithoutSlash(u + [SLASH] + r) == if r == [] then u else u + [SLASH] + WithoutSlash(r)
  {}

  // ---------- Paths ----------

  /** What parsing gives: a halt, no path, or a drive and the units after it. */
  datatype Parsed = Panic | Invalid | Path(drive: byte, units: seq<seq<byte>>)

  /**
    What memory held, before a parse, from a block on up to some NUL behind that block: for the block of each
    unit, and for the block of the first copy of the path. kzalloc zeroes only as many bytes as it is asked for.
   */
  datatype Stale = Stale(units: nat -> seq<byte>, copy: seq<byte>)

  ghost predicate Backed(b: seq<byte>)
  {
    |b| >= BLOCK && b[|b| - 1] == 0
  }

  ghost predicate Held(m: Stale)
  {
    Backed(m.copy) && forall i: nat :: Backed(m.units(i))
  }

  /** A block with a string copied to its start. */
  function CopyOf(s: seq<byte>, b: seq<byte>): (r: seq<byte>)
    requires |s| < |b|
    ensures |r| == |b|
  {
    s + [0] + b[|s| + 1..]
  }

  /**
    What the block of the i-th unit held when kzalloc took it. The second unit's is the block of the first
    copy of the path, which has just been freed.
   */
  ghost function UnitBlock(rest: seq<byte>, m: Stale, i: nat): (b: seq<byte>)
    requires Held(m) && |rest| <= PATH_LENGTH
    ensures Backed(b)
  {
    if i == 1 then CopyOf(rest, m.copy) else m.units(i)
  }

  /** The kernel halts on a unit of more than 64 bytes, and on one of 64 when a stale byte follows it. */
  predicate TooLong(u: seq<byte>, b: seq<byte>)
    requires |b| >= BLOCK
  {
    |u| > UNIT_LENGTH || (|u| == UNIT_LENGTH && b[UNIT_LENGTH] != 0)
  }

  ghost predicate AllFit(rest: seq<byte>, m: Stale)
    requires Held(m) && |rest| <= PATH_LENGTH
  {
    forall i :: 0 <= i < |Units(rest)| ==> !TooLong(Units(rest)[i], UnitBlock(rest, m, i))
  }

  predicate HasDrive(path: seq<byte>)
  {
    |path| >= 3 && 'A' as int <= path[0] <= 'Z' as int
  }

  ghost function Parse(path: seq<byte>, m: Stale): Parsed
    requires Held(m)
  {
    if |path| > PATH_LENGTH then Panic
    else if !HasDrive(path) then Invalid
    else if !AllFit(path[3..], m) then Panic
    else Path(path[0], Units(path[3..]))
  }

  /** No path comes of fewer than three bytes, or without a capital letter in front; over 512 bytes the kernel halts. */
  lemma ParseRefuses(path: seq<byte>, m: Stale)
    requires Held(m)
    ensures Parse(path, m) == Invalid <==> |path| <= 512 && (|path| < 3 || path[0] < 65 || path[0] > 90)
    ensures |path| > 512 ==> Parse(path, m) == Panic
    ensures Parse(path, m).Path? ==> Parse(path, m).drive == path[0] && Parse(path, m).units == Units(path[3..])
  {}

  function Printed(drive: byte, units: seq<seq<byte>>): seq<byte>
  {
    [drive, COLON, SLASH] + Joined(units)
  }

  ghost predicate NulFreeUnits(units: seq<seq<byte>>)
  {
    forall i :: 0 <= i < |units| ==> NulFree(units[i])
  }

  /** The i-th unit is shorter than 64 bytes, or has 64, is not the second one, and a NUL follows its block's 64 bytes. */
  predicate Fits(units: seq<seq<byte>>, m: Stale, i: nat)
    requires i < |units| && |m.units(i)| >= BLOCK
  {
    |units[i]| < UNIT_LENGTH || (|units[i]| == UNIT_LENGTH && i != 1 && m.units(i)[UNIT_LENGTH] == 0)
  }

  /** Parsing a printed path gives it back exactly when its last unit is not empty and all its units fit. */
  lemma ParsePrinted(drive: byte, units: seq<seq<byte>>, m: Stale)
    requires 'A' as int <= drive <= 'Z' as int && |Printed(drive, units)| <= PATH_LENGTH
    requires SlashFree(units) && NulFreeUnits(units) && Held(m)
    ensures Parse(Printed(drive, units), m) == Path(drive, units) <==>
            && (units == [] || units[|units| - 1] != [])
            && forall i :: 0 <= i < |units| ==> Fits(units, m, i)
  {
    UnitsOfJoined(units);
    assert Printed(drive, units)[3..] == Joined(units);
    if units == [] || units[|units| - 1] != [] {
      PrintedFits(units, m);
    }
  }

  lemma PrintedFits(units: seq<seq<byte>>, m: Stale)
    requires NulFreeUnits(units) && Held(m) && |Joined(units)| <= PATH_LENGTH && Units(Joined(units)) == units
    ensures AllFit(Joined(units), m) <==> forall i :: 0 <= i < |units| ==> Fits(units, m, i)
  {
    forall i | 0 <= i < |units|
      ensures TooLong(units[i], UnitBlock(Joined(units), m, i)) <==> !Fits(units, m, i)
    {
      UnitFits(units, m, i);
    }
  }

  lemma UnitFits(units: seq<seq<byte>>, m: Stale, i: nat)
    requires NulFreeUnits(units) && Held(m) && |Joined(units)| <= PATH_LENGTH && i < |units|
    ensures TooLong(units[i], UnitBlock(Joined(units), m, i)) <==> !Fits(units, m, i)
  {
    if i == 1 && |units[1]| == UNIT_LENGTH {
      JoinedNulFree(units);
      JoinedLength(units);
      assert UnitBlock(Joined(units), m, 1)[UNIT_LENGTH] == Joined(units)[UNIT_LENGTH];
    }
  }

  lemma {:induction false} JoinedNulFree(units: seq<seq<byte>>)
    requires NulFreeUnits(units)
    ensures NulFree(Joined(units))
  {
    if |units| > 1 {
      JoinedNulFree(units[1..]);
    }
  }

  lemma JoinedLength(units: seq<seq<byte>>)
    requires |units| > 1
    ensures |Joined(units)| >= |units[0]| + 1 + |units[1]|
  {
    assert units[1..][0] == units[1];
  }

  /** Printing a parsed path that starts like "C:/" gives it back, but for one trailing '/'. */
  lemma PrintParsed(path: seq<byte>, m: Stale)
    requires Held(m) && Parse(path, m).Path? && path[1] == COLON && path[2] == SLASH
    ensures Printed(Parse(path, m).drive, Parse(path, m).units) == path[..3] + WithoutSlash(path[3..])
  {
    JoinedUnits(path[3..]);
  }

  /** Whatever memory held, the kernel halts on every path whose second unit has 64 bytes. */
  lemma SecondUnitHalts(path: seq<byte>, m: Stale)
    requires NulFree(path) && HasDrive(path) && Held(m)
    requires |Units(path[3..])| >= 2 && |Units(path[3..])[1]| == UNIT_LENGTH
    ensures Parse(path, m) == Panic
  {
    var rest := path[3..];
    if |path| <= PATH_LENGTH {
      var u, r := FirstUnit(rest), AfterUnit(rest);
      assert Units(rest) == [u] + Units(r) && Units(rest)[1] == FirstUnit(r);
      assert |rest| > UNIT_LENGTH && rest[UNIT_LENGTH] == path[3 + UNIT_LENGTH];
      assert UnitBlock(rest, m, 1)[UNIT_LENGTH] == rest[UNIT_LENGTH];
      assert TooLong(Units(rest)[1], UnitBlock(rest, m, 1));
    }
  }

  /** Such a path: "C:/a/" and 64 times 'b'. Its units are accepted by length, and it comes back when printed. */
  lemma HaltingPath(m: Stale)
    requires Held(m)
    ensures var units: seq<seq<byte>> := [[0x61], seq(64, _ => 0x62)];
            Units(Joined(units)) == units && Parse(Printed(0x43, units), m) == Panic
  {
    var b: seq<byte> := seq(UNIT_LENGTH, _ => 0x62);
    var units: seq<seq<byte>> := [[0x61], b];
    UnitsOfJoined(units);
    var path := Printed(0x43, units);
    JoinedNulFree(units);
    assert path[3..] == Joined(units);
    SecondUnitHalts(path, m);
  }
}
