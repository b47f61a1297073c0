/** The path parser in memory: buffers, recycled blocks and the linked list of units. */
module PathParser {
  import opened Options
  import opened Words
  import opened Names
  import opened HeapTable
  import opened Paths

  /** The string at a position of a buffer. */
  ghost predicate Holds(buffer: array<byte>, at: nat, s: seq<byte>)
    reads buffer
  {
    && at + |s| < buffer.Length && NulFree(s)
    && buffer[at + |s|] == 0 && forall i :: at <= i < at + |s| ==> buffer[i] == s[i - at]
  }

  method Strlen(buffer: array<byte>, at: nat, ghost s: seq<byte>) returns (n: nat)
    requires Holds(buffer, at, s)
    ensures n == |s|
  {
    n := 0;
    while buffer[at + n] != 0
      invariant n <= |s|
      decreases |s| - n
    {
      n := n + 1;
    }
  }

  /** Copies the string at `from` to `to`, with its NUL. */
  method Strcpy(target: array<byte>, to: nat, source: array<byte>, from: nat, ghost s: seq<byte>)
    requires Holds(source, from, s) && target != source && to + |s| < target.Length
    modifies target
    ensures Holds(target, to, s)
    ensures forall i :: 0 <= i < target.Length && !(to <= i <= to + |s|) ==> target[i] == old(target[i])
  {
    var i := 0;
    while source[from + i] != 0
      modifies target
      invariant i <= |s| && (i < |s| ==> source[from + i] == s[i])
      invariant forall j :: to <= j < to + i ==> target[j] == s[j - to]
      invariant forall j :: 0 <= j < target.Length && !(to <= j < to + i) ==> target[j] == old(target[j])
      decreases |s| - i
    {
      target[to + i] := source[from + i];
      i := i + 1;
    }
    target[to + i] := 0;
  }

  /** A block after kzalloc(64), with a unit written to it: behind the 64 zeroed bytes it is as it was. */
  function Filled(u: seq<byte>, b: seq<byte>): (r: seq<byte>)
    requires |u| <= |b|
    ensures |r| == |b|
  {
    seq(|b|, i requires 0 <= i < |b| => if i < |u| then u[i] else if i < UNIT_LENGTH then 0 else b[i])
  }

  /** Copies the first unit of a path into the block of kzalloc(64). */
  method CopyUnit(temp: array<byte>, block: seq<byte>, ghost rest: seq<byte>) returns (unit: array<byte>, i: nat)
    requires Holds(temp, 0, rest) && |rest| <= PATH_LENGTH && Backed(block)
    ensures fresh(unit) && unit[..] == Filled(FirstUnit(rest), block)
    ensures i == |FirstUnit(rest)|
  {
    ghost var first := FirstUnit(rest);
    unit := new byte[|block|](j requires 0 <= j < |block| => if j < UNIT_LENGTH then 0 else block[j]);
    i := 0;
    while temp[i] != SLASH && temp[i] != 0
      modifies unit
      invariant i <= |first| && unit.Length == |block|
      invariant unit[..] == Filled(first[..i], block)
      decreases |first| - i
    {
      unit[i] := temp[i];
      i := i + 1;
    }
    assert i < |rest| ==> temp[i] == rest[i];
    assert i == |first|;
  }

  /** strlen of the unit: more than 64 exactly when the unit is too long for its block. */
  method UnitLength(unit: array<byte>, ghost u: seq<byte>, ghost block: seq<byte>) returns (n: nat)
    requires NulFree(u) && |u| <= PATH_LENGTH && Backed(block) && unit[..] == Filled(u, block)
    ensures n > UNIT_LENGTH <==> TooLong(u, block)
  {
    n := 0;
    assert unit[..][unit.Length - 1] == 0;
    while unit[n] != 0
      invariant n < unit.Length
      invariant forall i :: 0 <= i < n ==> unit[i] != 0
      decreases unit.Length - n
    {
      n := n + 1;
    }
    LengthTooLong(unit[..], u, block, n);
  }

  lemma LengthTooLong(s: seq<byte>, u: seq<byte>, block: seq<byte>, n: nat)
    requires NulFree(u) && |u| <= PATH_LENGTH && Backed(block) && s == Filled(u, block)
    requires n < |s| && s[n] == 0 && forall i :: 0 <= i < n ==> s[i] != 0
    ensures n > UNIT_LENGTH <==> TooLong(u, block)
  {
    if |u| < UNIT_LENGTH {
      assert s[|u|] == 0;
    } else {
      assert forall i :: 0 <= i < |u| ==> s[i] == u[i] != 0;
      assert |u| == UNIT_LENGTH ==> s[UNIT_LENGTH] == block[UNIT_LENGTH];
    }
  }

  /** The copy of the path that the unit is taken from. */
  method CopyPath(buffer: array<byte>, at: nat, length: nat, spare: seq<byte>, ghost rest: seq<byte>)
    returns (temp: array<byte>)
    requires Holds(buffer, at, rest) && |rest| <= PATH_LENGTH && Backed(spare) && length <= |rest|
    ensures fresh(temp) && Holds(temp, 0, rest) && temp[..] == CopyOf(rest, spare)
  {
    temp := new byte[|spare|](j requires 0 <= j < |spare| => if j < length then 0 else spare[j]);
    Strcpy(temp, 0, buffer, at, rest);
  }

  /**
    Takes the first unit off the path at `at` in the buffer, and moves what follows it there. `block` is what
    the unit's block held, `spare` what the block of the copy held; `copy` is what the copy's block holds when
    it is freed.
   */
  method GetUnitAndAdvance(buffer: array<byte>, at: nat, block: seq<byte>, spare: seq<byte>, ghost rest: seq<byte>)
    returns (r: Option<seq<byte>>, copy: seq<byte>, panic: bool)
    requires Holds(buffer, at, rest) && |rest| <= PATH_LENGTH && Backed(block) && Backed(spare)
    modifies buffer
    ensures panic <==> rest != [] && TooLong(FirstUnit(rest), block)
    ensures !panic ==> Holds(buffer, at, AfterUnit(rest))
    ensures !panic ==> r == if rest == [] then None else Some(Filled(FirstUnit(rest), block))
    ensures rest != [] ==> copy == CopyOf(rest, spare)
  {
    var length := Strlen(buffer, at, rest);
    if length == 0 {
      return None, spare, false;
    }
    var temp := CopyPath(buffer, at, length, spare, rest);
    copy := temp[..];
    var unit, i := CopyUnit(temp, block, rest);
    var unitLength := UnitLength(unit, FirstUnit(rest), block);
    if unitLength > UNIT_LENGTH {
      return None, copy, true;
    }
    if temp[i] == SLASH {
      i := i + 1;
    }
    assert Holds(temp, i, AfterUnit(rest));
    Strcpy(buffer, at, temp, i, AfterUnit(rest));
    r, panic := Some(unit[..]), false;
  }

  class PathUnit {
    /** The block that holds the unit; None when the path ended before any unit. */
    const unit: Option<seq<byte>>
    var next: PathUnit?

    constructor (unit: Option<seq<byte>>)
      ensures this.unit == unit && next == null
    {
      this.unit := unit;
      next := null;
    }
  }

  /** What the list carries for the first units of a path: one node without a unit when there is none. */
  ghost function Blocks(rest: seq<byte>, m: Stale, units: seq<seq<byte>>): seq<Option<seq<byte>>>
    requires Held(m) && |rest| <= PATH_LENGTH && Fitting(rest, m, units)
  {
    if units == [] then [None]
    else seq(|units|, i requires 0 <= i < |units| => Some(Filled(units[i], UnitBlock(rest, m, i))))
  }

  /** The list from a node on: exactly these nodes, one linked to the next, the last to none. */
  ghost predicate Linked(nodes: seq<PathUnit>)
    reads nodes
  {
    && nodes != []
    && (forall i, j :: 0 <= i < j < |nodes| ==> nodes[i] != nodes[j])
    && (forall i :: 0 <= i < |nodes| - 1 ==> nodes[i].next == nodes[i + 1])
    && nodes[|nodes| - 1].next == null
  }

  function Carried(nodes: seq<PathUnit>): seq<Option<seq<byte>>>
  {
    seq(|nodes|, i requires 0 <= i < |nodes| => nodes[i].unit)
  }

  /** Appends a node behind the last one. */
  method Append(last: PathUnit, node: PathUnit, ghost nodes: seq<PathUnit>)
    requires Linked(nodes) && last == nodes[|nodes| - 1] && node !in nodes && node.next == null
    modifies last
    ensures Linked(nodes + [node])
  {
    last.next := node;
  }

  /** A halt, no path, or a drive and the list of units. */
  datatype Outcome = Halted | Refused | Accepted(drive: byte, head: PathUnit)

  /** Parses a path, in a memory that held m; `nodes` are the nodes of the list. */
  method ParsePath(path: seq<byte>, m: Stale) returns (r: Outcome, ghost nodes: seq<PathUnit>)
    requires NulFree(path) && Held(m)
    ensures r.Halted? <==> Parse(path, m).Panic?
    ensures r.Refused? <==> Parse(path, m).Invalid?
    ensures r.Accepted? ==>
              && r.drive == Parse(path, m).drive && Linked(nodes) && r.head == nodes[0]
              && Fitting(path[3..], m, Parse(path, m).units)
              && Carried(nodes) == Blocks(path[3..], m, Parse(path, m).units)
  {
    if |path| > PATH_LENGTH {
      return Halted, [];
    }
    if !HasDrive(path) {
      return Refused, [];
    }
    var buffer := new byte[BLOCK](i requires i >= 0 => if i < |path| then path[i] else 0);
    var head;
    head, nodes := ParseUnits(buffer, 3, m, path[3..]);
    r := if head == null then Halted else Accepted(path[0], head);
  }

  /** Of all units of the path, those done fit and are in the list, and the rest is still to split. */
  ghost predicate Split(nodes: seq<PathUnit>, path: seq<byte>, m: Stale, done: seq<seq<byte>>, rest: seq<byte>)
    requires Held(m) && |path| <= PATH_LENGTH
  {
    && Units(path) == done + Units(rest)
    && Fitting(path, m, done)
    && Carried(nodes) == Blocks(path, m, done)
  }

  /** Lists the units of the path at `at`; no list when one of them is too long. */
  method ParseUnits(buffer: array<byte>, at: nat, m: Stale, ghost path: seq<byte>)
    returns (head: PathUnit?, ghost nodes: seq<PathUnit>)
    requires Holds(buffer, at, path) && |path| <= PATH_LENGTH && Held(m)
    modifies buffer
    ensures head != null <==> AllFit(path, m)
    ensures head != null ==>
              && Linked(nodes) && head == nodes[0]
              && Fitting(path, m, Units(path))
              && Carried(nodes) == Blocks(path, m, Units(path))
  {
    var unit, copy, panic := GetUnitAndAdvance(buffer, at, m.units(0), m.copy, path);
    if panic {
      DoesNotFit([], path, m, [], path);
      return null, [];
    }
    head := new PathUnit(unit);
    ghost var done, rest := FirstSplit([head], path, m);
    if unit.None? {
      nodes := [head];
      SplitDone(nodes, path, m, done);
    } else {
      var panicked;
      nodes, panicked := ListRest(buffer, at, head, copy, m, path, done, rest);
      head := if panicked then null else head;
    }
  }

  /** The loop: all units behind the first one. */
  method ListRest(buffer: array<byte>, at: nat, head: PathUnit, copy: seq<byte>, m: Stale,
                  ghost path: seq<byte>, ghost first: seq<seq<byte>>, ghost after: seq<byte>)
    returns (ghost nodes: seq<PathUnit>, panic: bool)
    requires Linked([head]) && |path| <= PATH_LENGTH && Held(m) && copy == CopyOf(path, m.copy)
    requires Holds(buffer, at, after) && |after| <= PATH_LENGTH && Split([head], path, m, first, after) && |first| == 1
    modifies buffer, head
    ensures panic <==> !AllFit(path, m)
    ensures !panic ==>
              && Linked(nodes) && head == nodes[0] && Fitting(path, m, Units(path))
              && Carried(nodes) == Blocks(path, m, Units(path))
  {
    nodes := [head];
    ghost var done, rest := first, after;
    var last, more, index := head, true, 1;
    while more
      invariant Linked(nodes) && head == nodes[0] && last == nodes[|nodes| - 1]
      invariant last == head || fresh(last)
      invariant Holds(buffer, at, rest) && |rest| <= PATH_LENGTH && Split(nodes, path, m, done, rest)
      invariant index == |done| > 0 && (!more ==> rest == [])
      decreases |rest|, more
    {
      var block := if index == 1 then copy else m.units(index);
      var node;
      node, panic := NextNode(buffer, at, last, block, m, nodes, path, done, rest);
      if panic {
        return;
      }
      if node == null {
        more := false;
      } else {
        last, nodes, index := node, nodes + [node], index + 1;
        done, rest := done + [FirstUnit(rest)], AfterUnit(rest);
      }
    }
    panic := false;
    SplitDone(nodes, path, m, done);
  }

  /** Takes the next unit and lists it behind the last one; no node at the end of the path. */
  method NextNode(buffer: array<byte>, at: nat, last: PathUnit, block: seq<byte>, m: Stale, ghost nodes: seq<PathUnit>,
                  ghost path: seq<byte>, ghost done: seq<seq<byte>>, ghost rest: seq<byte>)
    returns (node: PathUnit?, panic: bool)
    requires Linked(nodes) && last == nodes[|nodes| - 1] && |path| <= PATH_LENGTH && Held(m)
    requires Holds(buffer, at, rest) && |rest| <= PATH_LENGTH && Split(nodes, path, m, done, rest) && done != []
    requires block == UnitBlock(path, m, |done|)
    modifies buffer, last
    ensures panic ==> !AllFit(path, m)
    ensures !panic && rest == [] ==> node == null && Linked(nodes) && Holds(buffer, at, rest)
    ensures !panic && rest != [] ==>
              && node != null && fresh(node) && Linked(nodes + [node])
              && Split(nodes + [node], path, m, done + [FirstUnit(rest)], AfterUnit(rest))
              && Holds(buffer, at, AfterUnit(rest))
  {
    var unit, copy;
    unit, copy, panic := GetUnitAndAdvance(buffer, at, block, m.copy, rest);
    if panic {
      DoesNotFit(nodes, path, m, done, rest);
      return null, true;
    }
    if unit.None? {
      return null, false;
    }
    node := new PathUnit(unit);
    SplitMore(nodes, node, path, m, done, rest);
    Append(last, node, nodes);
  }

  lemma SplitDone(nodes: seq<PathUnit>, path: seq<byte>, m: Stale, done: seq<seq<byte>>)
    requires Held(m) && |path| <= PATH_LENGTH && Split(nodes, path, m, done, [])
    ensures AllFit(path, m)
    ensures Fitting(path, m, Units(path))
    ensures Carried(nodes) == Blocks(path, m, Units(path))
  {
    assert done == Units(path);
  }

  lemma FirstSplit(nodes: seq<PathUnit>, path: seq<byte>, m: Stale) returns (done: seq<seq<byte>>, rest: seq<byte>)
    requires Held(m) && |path| <= PATH_LENGTH && !(path != [] && TooLong(FirstUnit(path), m.units(0)))
    requires Carried(nodes) == [if path == [] then None else Some(Filled(FirstUnit(path), m.units(0)))]
    ensures rest == AfterUnit(path) && Split(nodes, path, m, done, rest)
    ensures if path == [] then done == [] else |done| == 1
  {
    done, rest := if path == [] then [] else [FirstUnit(path)], AfterUnit(path);
  }

  lemma SplitMore(nodes: seq<PathUnit>, node: PathUnit, path: seq<byte>, m: Stale, done: seq<seq<byte>>, rest: seq<byte>)
    requires Held(m) && |path| <= PATH_LENGTH && Split(nodes, path, m, done, rest) && done != [] && rest != []
    requires |rest| <= PATH_LENGTH && !TooLong(FirstUnit(rest), UnitBlock(path, m, |done|))
    requires node.unit == Some(Filled(FirstUnit(rest), UnitBlock(path, m, |done|)))
    ensures Split(nodes + [node], path, m, done + [FirstUnit(rest)], AfterUnit(rest))
  {
    UnitsMore(done, rest);
    FittingMore(path, m, done, FirstUnit(rest));
    BlocksMore(path, m, done, FirstUnit(rest));
    CarriedMore(nodes, node);
  }

  /** All of some units fit their blocks. */
  ghost predicate Fitting(path: seq<byte>, m: Stale, units: seq<seq<byte>>)
    requires Held(m) && |path| <= PATH_LENGTH
  {
    forall i :: 0 <= i < |units| ==> |units[i]| <= BLOCK && !TooLong(units[i], UnitBlock(path, m, i))
  }

  lemma FittingMore(path: seq<byte>, m: Stale, units: seq<seq<byte>>, u: seq<byte>)
    requires Held(m) && |path| <= PATH_LENGTH && Fitting(path, m, units)
    requires |u| <= BLOCK && !TooLong(u, UnitBlock(path, m, |units|))
    ensures Fitting(path, m, units + [u])
  {}

  lemma UnitsMore(done: seq<seq<byte>>, rest: seq<byte>)
    requires rest != []
    ensures done + Units(rest) == done + [FirstUnit(rest)] + Units(AfterUnit(rest))
  {}

  lemma BlocksMore(path: seq<byte>, m: Stale, units: seq<seq<byte>>, u: seq<byte>)
    requires Held(m) && |path| <= PATH_LENGTH && units != [] && Fitting(path, m, units)
    requires |u| <= BLOCK && Fitting(path, m, units + [u])
    ensures Blocks(path, m, units + [u]) == Blocks(path, m, units) + [Some(Filled(u, UnitBlock(path, m, |units|)))]
  {
    var more := units + [u];
    var x, y := Blocks(path, m, more), Blocks(path, m, units) + [Some(Filled(u, UnitBlock(path, m, |units|)))];
    forall i | 0 <= i < |more|
      ensures x[i] == y[i]
    {
      assert more[i] == if i < |units| then units[i] else u;
    }
    assert |x| == |y|;
  }

  lemma CarriedMore(nodes: seq<PathUnit>, node: PathUnit)
    ensures Carried(nodes + [node]) == Carried(nodes) + [node.unit]
  {}

  lemma DoesNotFit(nodes: seq<PathUnit>, path: seq<byte>, m: Stale, done: seq<seq<byte>>, rest: seq<byte>)
    requires Held(m) && |path| <= PATH_LENGTH && rest != [] && Units(path) == done + Units(rest)
    requires TooLong(FirstUnit(rest), UnitBlock(path, m, |done|))
    ensures !AllFit(path, m)
  {
    assert Units(path)[|done|] == FirstUnit(rest);
  }

  // ---------- Which block the second unit gets ----------

  /** A heap table after a kzalloc of at most a block. */
  ghost function Took(t: Table): Table
    requires FreeBlocks(t) != {}
  {
    OneBlockFit(t);
    Marked(t, FirstFit(t, 1).value, 1)
  }

  ghost function FirstFree(t: Table): nat
    requires FreeBlocks(t) != {}
  {
    OneBlockFit(t);
    FirstFit(t, 1).value
  }

  /**
    The first call takes a block for the unit and one for the copy, and frees the copy; the second call's
    unit gets the copy's block, and what the second copy had goes to the second node, so that every later
    unit gets a block that is none of these.
   */
  lemma CopyComesBack(t: Table)
    requires |FreeBlocks(t)| >= 4
    ensures FreeBlocks(t) != {} && FreeBlocks(Took(t)) != {} && FreeBlocks(Took(Took(t))) != {}
    ensures var copy := FirstFree(Took(t));
            && FreedWritten(Took(Took(t)), copy) == Took(t)
            && FirstFree(FreedWritten(Took(Took(t)), copy)) == copy
    ensures var second := Took(Took(t));
            var copy := FirstFree(second);
            && FreeBlocks(Took(second)) != {} && FreedWritten(Took(second), copy) == second
            && FirstFree(Took(second)) !in {FirstFree(t), FirstFree(Took(t)), copy}
  {
    TookOne(t);
    TookOne(Took(t));
    TookOne(Took(Took(t)));
    TookOne(Took(Took(Took(t))));
  }

  lemma TookOne(t: Table)
    requires FreeBlocks(t) != {}
    ensures FirstFree(t) in FreeBlocks(t) && FreeBlocks(Took(t)) == FreeBlocks(t) - {FirstFree(t)}
    ensures |FreeBlocks(Took(t))| == |FreeBlocks(t)| - 1
    ensures FreedWritten(Took(t), FirstFree(t)) == t
  {
    OneBlockFit(t);
    MallocThenWrittenFree(t, FirstFree(t), 1);
  }
}
