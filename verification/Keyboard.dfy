/** The keyboard buffer of a process: a ring of cells that is a queue while it is not overfull. */
module Keyboard {
  import opened Words

  const CELLS := 1024
  const TWO31 := 0x8000_0000

  /** The cells, where the next pop reads and where the next push writes. */
  datatype Ring = Ring(cells: seq<byte>, head: nat, tail: nat)

  /** A ring holds a queue: the cells from head on carry it, and all others are zero. */
  ghost predicate Represents(r: Ring, q: seq<byte>)
  {
    && |r.cells| == CELLS && |q| <= CELLS && r.tail == r.head + |q|
    && (forall i :: 0 <= i < |q| ==> q[i] != 0)
    && forall c :: 0 <= c < CELLS ==> r.cells[c] == Cell(r.head, q, c)
  }

  function Cell(head: nat, q: seq<byte>, c: nat): byte
  {
    var i := (c - head) % CELLS;
    if i < |q| then q[i] else 0
  }

  // ---------- Steps of the ring ----------

  function AfterPush(r: Ring, ch: byte): Ring
    requires |r.cells| == CELLS
  {
    if ch == 0 then r else Ring(r.cells[r.tail % CELLS := ch], r.head, r.tail + 1)
  }

  function Popped(r: Ring): byte
    requires |r.cells| == CELLS
  {
    r.cells[r.head % CELLS]
  }

  function AfterPop(r: Ring): Ring
    requires |r.cells| == CELLS
  {
    if Popped(r) == 0 then r else Ring(r.cells[r.head % CELLS := 0], r.head + 1, r.tail)
  }

  class KeyboardBuffer {
    const buffer: array<byte>
    var head: nat
    var tail: nat

    ghost predicate Valid()
      reads this
    {
      buffer.Length == CELLS && head < TWO31 && tail < TWO31
    }

    ghost function State(): Ring
      reads this, buffer
    {
      Ring(buffer[..], head, tail)
    }

    constructor ()
      ensures Valid() && fresh(buffer) && Represents(State(), [])
    {
      buffer := new byte[CELLS](_ => 0);
      head, tail := 0, 0;
    }

    method Push(ch: byte)
      requires Valid() && tail + 1 < TWO31
      modifies this, buffer
      ensures Valid() && State() == AfterPush(old(State()), ch)
    {
      if ch == 0 {
        return;
      }
      buffer[tail % CELLS] := ch;
      tail := tail + 1;
    }

    method Pop() returns (ch: byte)
      requires Valid() && head + 1 < TWO31
      modifies this, buffer
      ensures Valid() && ch == Popped(old(State())) && State() == AfterPop(old(State()))
    {
      ch := buffer[head % CELLS];
      if ch == 0 {
        return 0;
      }
      buffer[head % CELLS] := 0;
      head := head + 1;
    }
  }

  // ---------- The queue ----------

  function Enqueued(q: seq<byte>, ch: byte): seq<byte>
  {
    if ch == 0 then q else q + [ch]
  }

  function Oldest(q: seq<byte>): byte
  {
    if q == [] then 0 else q[0]
  }

  function Dequeued(q: seq<byte>): seq<byte>
  {
    if q == [] then [] else q[1..]
  }

  lemma PushKeeps(r: Ring, q: seq<byte>, ch: byte)
    requires Represents(r, q) && |Enqueued(q, ch)| <= CELLS
    ensures Represents(AfterPush(r, ch), Enqueued(q, ch))
  {
    if ch != 0 {
      forall c | 0 <= c < CELLS
        ensures AfterPush(r, ch).cells[c] == Cell(r.head, q + [ch], c)
      {
        AtDistance(r.head, |q|, c);
      }
    }
  }

  lemma PopKeeps(r: Ring, q: seq<byte>)
    requires Represents(r, q)
    ensures Popped(r) == Oldest(q) && Represents(AfterPop(r), Dequeued(q))
    ensures Popped(r) == 0 <==> q == []
  {
    assert r.cells[r.head % CELLS] == Cell(r.head, q, r.head % CELLS);
    AtDistance(r.head, 0, r.head % CELLS);
    if q != [] {
      forall c | 0 <= c < CELLS
        ensures AfterPop(r).cells[c] == Cell(r.head + 1, q[1..], c)
      {
        AtDistance(r.head, 0, c);
        OneFurther(r.head, c);
      }
    }
  }

  /** A cell's distance behind the head says which counter value names it. */
  lemma AtDistance(head: nat, n: nat, c: nat)
    requires c < CELLS && n < CELLS
    ensures (c - head) % CELLS == n <==> c == (head + n) % CELLS
  {}

  lemma OneFurther(head: nat, c: nat)
    requires c < CELLS
    ensures (c - (head + 1)) % CELLS == if (c - head) % CELLS == 0 then CELLS - 1 else (c - head) % CELLS - 1
  {}

  /** A push into a ring in use keeps the next pop right exactly when the ring is not full, or overwrites like with like. */
  lemma FullLosesOldest(r: Ring, q: seq<byte>, ch: byte)
    requires Represents(r, q)
    ensures Popped(AfterPush(r, ch)) == Oldest(Enqueued(q, ch)) <==> ch == 0 || |q| < CELLS || ch == q[0]
  {
    if ch == 0 || |q| < CELLS {
      PushKeeps(r, q, ch);
      PopKeeps(AfterPush(r, ch), Enqueued(q, ch));
    } else {
      assert (r.head + CELLS) % CELLS == r.head % CELLS;
    }
  }

  // ---------- Runs ----------

  datatype Event = Push(ch: byte) | Pop

  function RingAfter(r: Ring, event: Event): (n: Ring)
    requires |r.cells| == CELLS
    ensures |n.cells| == CELLS
  {
    match event case Push(ch) => AfterPush(r, ch) case Pop => AfterPop(r)
  }

  function QueueAfter(q: seq<byte>, event: Event): seq<byte>
  {
    match event case Push(ch) => Enqueued(q, ch) case Pop => Dequeued(q)
  }

  /** What the pops of a run return, on the ring and on the queue; and what they leave. */
  function RingReturns(r: Ring, events: seq<Event>): seq<byte>
    requires |r.cells| == CELLS
    decreases |events|
  {
    if events == [] then []
    else
      var more := RingReturns(RingAfter(r, events[0]), events[1..]);
      if events[0].Pop? then [Popped(r)] + more else more
  }

  function QueueReturns(q: seq<byte>, events: seq<Event>): seq<byte>
    decreases |events|
  {
    if events == [] then []
    else
      var more := QueueReturns(QueueAfter(q, events[0]), events[1..]);
      if events[0].Pop? then [Oldest(q)] + more else more
  }

  function RingLeft(r: Ring, events: seq<Event>): Ring
    requires |r.cells| == CELLS
    decreases |events|
  {
    if events == [] then r else RingLeft(RingAfter(r, events[0]), events[1..])
  }

  function QueueLeft(q: seq<byte>, events: seq<Event>): seq<byte>
    decreases |events|
  {
    if events == [] then q else QueueLeft(QueueAfter(q, events[0]), events[1..])
  }

  /** At no time are more characters pending than there are cells. */
  ghost predicate Fits(q: seq<byte>, events: seq<Event>)
    decreases |events|
  {
    |q| <= CELLS && (events == [] || Fits(QueueAfter(q, events[0]), events[1..]))
  }

  /** Over every run that never has more than 1024 characters pending, the ring is a first-in first-out queue. */
  lemma {:induction false} RingIsQueue(r: Ring, q: seq<byte>, events: seq<Event>)
    requires Represents(r, q) && Fits(q, events)
    ensures RingReturns(r, events) == QueueReturns(q, events)
    ensures Represents(RingLeft(r, events), QueueLeft(q, events))
    decreases |events|
  {
    if events != [] {
      match events[0] {
        case Push(ch) => PushKeeps(r, q, ch);
        case Pop => PopKeeps(r, q);
      }
      RingIsQueue(RingAfter(r, events[0]), QueueAfter(q, events[0]), events[1..]);
    }
  }

  /** The characters pushed in a run, and those of a sequence that are not the empty answer. */
  function Pushed(events: seq<Event>): seq<byte>
  {
    if events == [] then []
    else
      var more := Pushed(events[1..]);
      if events[0].Push? && events[0].ch != 0 then [events[0].ch] + more else more
  }

  function Characters(s: seq<byte>): seq<byte>
  {
    if s == [] then [] else (if s[0] == 0 then [] else [s[0]]) + Characters(s[1..])
  }

  /** Every character pushed is returned once, in order, or still pending. */
  lemma {:induction false} NothingLost(q: seq<byte>, events: seq<Event>)
    requires forall i :: 0 <= i < |q| ==> q[i] != 0
    ensures Characters(QueueReturns(q, events)) + QueueLeft(q, events) == q + Pushed(events)
    decreases |events|
  {
    if events != [] {
      var e, rest := events[0], events[1..];
      NothingLost(QueueAfter(q, e), rest);
      match e {
        case Push(ch) => PushedOne(q, ch, Pushed(rest));
        case Pop => ReturnedOne(q, QueueReturns(Dequeued(q), rest), QueueLeft(Dequeued(q), rest), Pushed(rest));
      }
    }
  }

  lemma PushedOne(q: seq<byte>, ch: byte, more: seq<byte>)
    ensures Enqueued(q, ch) + more == q + if ch == 0 then more else [ch] + more
  {}

  lemma ReturnedOne(q: seq<byte>, returned: seq<byte>, left: seq<byte>, pushed: seq<byte>)
    requires forall i :: 0 <= i < |q| ==> q[i] != 0
    requires Characters(returned) + left == Dequeued(q) + pushed
    ensures Characters([Oldest(q)] + returned) + left == q + pushed
  {
    assert ([Oldest(q)] + returned)[1..] == returned;
    var c := Characters(returned);
    if q == [] {
      assert [] + c == c && [] + pushed == pushed;
    } else {
      var o := [q[0]];
      assert Characters(o + returned) == o + c;
      assert o + c + left == o + (c + left);
      assert o + (q[1..] + pushed) == o + q[1..] + pushed;
      assert o + q[1..] == q;
    }
  }
}
